/**
 What default initialisation leaves: the value each descriptor entry points to, or zero, at every depth; and that
 entries which no record names keep it.
 */
module DefaultValues {
  import opened Words
  import opened Descriptor
  import opened DecodeSpec
  import opened DecodeSafety
  import opened FailedRuns

  /** The value the entry's pointer leads to; without one, zero of the type. Submessages are initialised in turn. */
  predicate Declared(f: Field, item: Item)
    decreases f, 0
  {
    if f.ltype.LSubmessage? then item.Msg? && AllDeclared(f.ltype.fields, item.slots)
    else match f.init
      case Some(v) => item == v
      case None =>
        match f.ltype
        case LVarint | LUVarint | LSVarint | LFixed32 | LFixed64 => item == Int(0)
        case LBytes => item == Blob([])
        case LString => item == Text([])
        case LFixedLengthBytes =>
          item.Blob? && |item.bytes| == f.dataSize && forall k :: 0 <= k < |item.bytes| ==> item.bytes[k] == 0
        case LSubmessage(_) => false
  }

  /** Nothing is present, arrays are empty, unions name no member. */
  predicate DeclaredSlot(f: Field, slot: Slot)
    decreases f, 1
  {
    match f.htype
    case Required => slot.Single? && Declared(f, slot.item)
    case Optional =>
      if f.sizeOffset == 0 then slot.Single? && Declared(f, slot.item)
      else slot.Opt? && !slot.has && Declared(f, slot.item)
    case Repeated => slot == Arr([])
    case Oneof => slot.Union? && slot.which == 0
  }

  predicate DeclaredAt(fields: seq<Field>, msg: seq<Slot>, i: nat)
    requires i < |fields|
    decreases fields, 0
  {
    SlotOf(fields, i) < |msg| && fields[i] in fields && DeclaredSlot(fields[i], msg[SlotOf(fields, i)])
  }

  predicate AllDeclared(fields: seq<Field>, msg: seq<Slot>)
    decreases fields, 1
  {
    |msg| == SlotCount(fields) && forall i :: 0 <= i < |fields| ==> DeclaredAt(fields, msg, i)
  }

  lemma {:induction false} DefaultDeclared(f: Field)
    ensures Declared(f, DefaultItem(f))
    decreases f, 0
  {
    if f.ltype.LSubmessage? { DefaultsDeclared(f.ltype.fields); }
  }

  /** pb_message_set_to_defaults, told by the descriptor alone. */
  lemma {:induction false} DefaultsDeclared(fields: seq<Field>)
    ensures AllDeclared(fields, Defaults(fields))
    decreases fields, 1
  {
    forall i | 0 <= i < |fields| ensures DeclaredAt(fields, Defaults(fields), i) {
      DefaultsAt(fields, i);
      assert fields[i] in fields;
      DefaultDeclared(fields[i]);
    }
  }

  // ----- after decoding

  /** A run that does not fail has met exactly the entries its records name. */
  lemma {:induction false} SeenIsNamed(fields: seq<Field>, msg: seq<Slot>, seen: set<nat>, s: seq<byte>)
    requires |msg| == SlotCount(fields) && !RunLoop(fields, msg, seen, s).Failed?
    ensures RunLoop(fields, msg, seen, s).seen == seen + Named(fields, s)
    decreases |s|
  {
    if s != [] && ReadTag(s).Tag? {
      var t := ReadTag(s);
      var found := Find(fields, t.tag);
      if found.None? {
        SeenIsNamed(fields, msg, seen, SkipField(t.wire, t.rest).rest);
      } else {
        var i := found.value;
        SlotMonotone(fields, i, i);
        var slot := msg[SlotOf(fields, i)];
        var p := ReadField(fields[i], slot, t.wire, t.rest);
        DecodedEnd(fields[i], slot, t.wire, t.rest);
        SeenIsNamed(fields, msg[SlotOf(fields, i) := p.value], seen + {i}, p.rest);
      }
    }
  }

  /** After pb_decode an entry that no record names, nor another member of its union, holds what the descriptor declares. */
  lemma {:induction false} UnnamedDeclared(fields: seq<Field>, s: seq<byte>, i: nat)
    requires Decode(fields, s).Done? && i < |fields|
    requires forall j :: j in Named(fields, s) && j < |fields| ==> SlotOf(fields, j) != SlotOf(fields, i)
    ensures SlotOf(fields, i) < |Decode(fields, s).value|
    ensures DeclaredSlot(fields[i], Decode(fields, s).value[SlotOf(fields, i)])
  {
    var msg := Defaults(fields);
    SlotMonotone(fields, i, i);
    SeenIsNamed(fields, msg, {}, s);
    LoopFrame(fields, msg, {}, s, SlotOf(fields, i));
    DefaultsDeclared(fields);
    assert DeclaredAt(fields, msg, i);
  }

  /** The empty message: accepted if nothing is required, and everything is as declared. */
  lemma EmptyMessage(fields: seq<Field>)
    requires forall f :: f in fields ==> !f.htype.Required?
    ensures Decode(fields, []).Done? && Decode(fields, []).rest == [] && AllDeclared(fields, Decode(fields, []).value)
  {
    DefaultsDeclared(fields);
  }

  /** An optional int32 with default 5, absent from the input. */
  lemma DefaultFive()
    ensures var fields := [Field(1, LVarint, Optional, 4, -4, 4, 0, Some(Int(5)))];
            Decode(fields, []) == Done([Opt(false, Int(5))], [])
  {
    var fields := [Field(1, LVarint, Optional, 4, -4, 4, 0, Some(Int(5)))];
    assert SlotOf(fields, 0) == 0 && SlotCount(fields) == 1;
    EmptyMessage(fields);
    var msg := Decode(fields, []).value;
    assert DeclaredAt(fields, msg, 0);
    assert msg == [Opt(false, Int(5))];
  }
}
