/** Decoding what the encoder wrote for the same descriptor. */
module RoundTrip {
  import opened Words
  import opened Descriptor
  import opened DecodeSpec
  import opened EncodeSpec
  import opened Delivery
  import opened Evolution
  import opened RequiredBits

  /** The canonical form of a message: its projection onto its own descriptor. */
  function Canon(fields: seq<Field>, msg: seq<Slot>): seq<Slot> {
    Project(fields, fields, msg)
  }

  // ----- a well-formed descriptor is a version of itself

  lemma {:induction false} SameAsSelf(f: Field)
    requires WellFormedField(f)
    ensures SameEntry(f, f)
    decreases f, 0
  {
    if f.ltype.LSubmessage? {
      EvolvesToSelf(f.ltype.fields);
    }
  }

  lemma {:induction false} EvolvesToSelf(fields: seq<Field>)
    requires WellFormed(fields)
    ensures Evolves(fields, fields)
    decreases fields, 1
  {
    forall w | w in fields && Find(fields, w.tag).Some?
      ensures SameEntry(fields[Find(fields, w.tag).value], w)
    {
      var i :| 0 <= i < |fields| && fields[i] == w;
      FindIs(fields, i);
      SameAsSelf(w);
    }
  }

  // ----- strings that are sent must be terminated

  predicate TerminatedItem(f: Field, item: Item)
    decreases item, 0
  {
    match (f.ltype, item)
    case (LString, Text(bs)) => |CString(bs, f.dataSize)| < f.dataSize
    case (LSubmessage(sub), Msg(slots)) => Terminated(sub, slots)
    case _ => true
  }

  predicate TerminatedSlot(f: Field, slot: Slot)
    decreases slot, 1
  {
    if slot.Arr? then forall x :: x in slot.items ==> TerminatedItem(f, x) else TerminatedItem(f, slot.item)
  }

  predicate TerminatedFrom(fields: seq<Field>, msg: seq<Slot>, i: nat)
    requires i <= |fields| && |msg| == SlotCount(fields)
    decreases msg, 2, |fields| - i
  {
    if i == |fields| then true
    else
      SlotMonotone(fields, i, i);
      var slot := msg[SlotOf(fields, i)];
      TerminatedFrom(fields, msg, i + 1) && (Present(fields[i], slot) ==> TerminatedSlot(fields[i], slot))
  }

  /** Every string that is sent, at any depth, ends inside its buffer. */
  predicate Terminated(fields: seq<Field>, msg: seq<Slot>)
    decreases msg, 3
  {
    |msg| == SlotCount(fields) ==> TerminatedFrom(fields, msg, 0)
  }

  lemma {:induction false} AcceptsOwnItem(f: Field, item: Item)
    requires WellFormedField(f) && FitsItem(f, item)
    ensures AcceptsItem(f, f, item) <==> TerminatedItem(f, item)
    decreases item, 0
  {
    if f.ltype.LSubmessage? { AcceptsOwn(f.ltype.fields, item.slots); }
  }

  lemma {:induction false} AcceptsOwnSlot(f: Field, slot: Slot)
    requires WellFormedField(f) && FitsSlot(f, slot) && Present(f, slot)
    ensures AcceptsSlot(f, f, slot) <==> TerminatedSlot(f, slot)
    decreases slot, 1
  {
    if slot.Arr? {
      forall x | x in slot.items ensures AcceptsItem(f, f, x) <==> TerminatedItem(f, x) {
        AcceptsOwnItem(f, x);
      }
    } else {
      AcceptsOwnItem(f, slot.item);
    }
  }

  lemma {:induction false} AcceptsOwnFrom(fields: seq<Field>, msg: seq<Slot>, i: nat)
    requires WellFormed(fields) && Fits(fields, msg) && i <= |fields|
    ensures AcceptsFrom(fields, fields, msg, i) <==> TerminatedFrom(fields, msg, i)
    decreases msg, 2, |fields| - i
  {
    if i < |fields| {
      AcceptsOwnFrom(fields, msg, i + 1);
      SlotMonotone(fields, i, i);
      FieldAt(fields, i);
      FitsAt(fields, msg, i);
      FindIs(fields, i);
      if Present(fields[i], msg[SlotOf(fields, i)]) { AcceptsOwnSlot(fields[i], msg[SlotOf(fields, i)]); }
    }
  }

  /** A struct has room for its own messages as far as their strings are terminated. */
  lemma {:induction false} AcceptsOwn(fields: seq<Field>, msg: seq<Slot>)
    requires WellFormed(fields) && Fits(fields, msg)
    ensures Accepts(fields, fields, msg) <==> Terminated(fields, msg)
    decreases msg, 3
  {
    AcceptsOwnFrom(fields, msg, 0);
    assert RequiredKnown(fields, fields);
  }

  /** Decoding what pb_encode wrote succeeds exactly when every sent string is terminated, and yields the canonical form. */
  lemma DecodeAfterEncode(fields: seq<Field>, msg: seq<Slot>)
    requires WellFormed(fields) && Decodable(fields) && Fits(fields, msg) && Short(fields, msg)
    ensures Encode(fields, msg).Some?
    ensures Decode(fields, Encode(fields, msg).value) ==
            if Terminated(fields, msg) then Done(Canon(fields, msg), []) else Fail
  {
    EvolvesToSelf(fields);
    AcceptsOwn(fields, msg);
    DecodeProjects(fields, fields, msg);
  }

  // ----- which messages are their own canonical form

  predicate NormalItem(f: Field, item: Item)
    decreases item, 0
  {
    match (f.ltype, item)
    case (LString, Text(bs)) => 0 !in bs
    case (LSubmessage(sub), Msg(slots)) => Normal(sub, slots)
    case _ => true
  }

  /** A slot that carries nothing a receiver could not see: absent parts are at their defaults. */
  predicate NormalSlot(f: Field, slot: Slot)
    decreases slot, 1
  {
    match slot
    case Arr(items) => forall x :: x in items ==> NormalItem(f, x)
    case Union(which, x) => which == f.tag ==> NormalItem(f, x)
    case Single(x) => if Present(f, slot) then NormalItem(f, x) else x == DefaultItem(f)
    case Opt(has, x) => if has then NormalItem(f, x) else x == DefaultItem(f)
  }

  predicate NormalEntry(fields: seq<Field>, msg: seq<Slot>, i: nat)
    requires i < |fields| && |msg| == SlotCount(fields)
    decreases msg, 2
  {
    SlotMonotone(fields, i, i);
    var s := SlotOf(fields, i);
    NormalSlot(fields[i], msg[s]) && (msg[s].Union? ==> KnownUnion(fields, msg, s))
  }

  /** The union in slot s is empty, or names one of its members. */
  predicate KnownUnion(fields: seq<Field>, msg: seq<Slot>, s: nat)
    requires s < |msg| && msg[s].Union?
  {
    msg[s] == Union(0, Unset) || exists j :: 0 <= j < |fields| && IsMember(fields, j, s, msg[s].which)
  }

  predicate IsMember(fields: seq<Field>, j: nat, s: nat, which: nat)
    requires j < |fields|
  {
    fields[j].htype.Oneof? && SlotOf(fields, j) == s && fields[j].tag == which
  }

  predicate Normal(fields: seq<Field>, msg: seq<Slot>)
    decreases msg, 3
  {
    |msg| == SlotCount(fields) ==> forall i :: 0 <= i < |fields| ==> NormalEntry(fields, msg, i)
  }

  lemma {:induction false} CStringWhole(bs: seq<byte>, max: nat)
    requires |bs| <= max
    ensures CString(bs, max) == bs <==> 0 !in bs
  {
    var r := CString(bs, max);
    if r == bs {
      assert forall i :: 0 <= i < |bs| ==> bs[i] != 0;
    } else if |r| < |bs| {
      assert bs[|r|] in bs;
    }
  }

  lemma {:induction false} CanonItemFixed(f: Field, item: Item)
    requires WellFormedField(f) && FitsItem(f, item)
    ensures ProjectItem(f, f, item) == item <==> NormalItem(f, item)
    decreases item, 0
  {
    match f.ltype
    case LString => CStringWhole(item.bytes, f.dataSize);
    case LSubmessage(sub) => CanonFixed(sub, item.slots);
    case LBytes | LFixedLengthBytes | LVarint | LUVarint | LSVarint | LFixed32 | LFixed64 =>
  }

  lemma {:induction false} CanonItemsFixed(f: Field, items: seq<Item>)
    requires WellFormedField(f) && forall x :: x in items ==> FitsItem(f, x)
    ensures ProjectItems(f, f, items) == items <==> forall x :: x in items ==> NormalItem(f, x)
    decreases items, 1
  {
    if items != [] {
      CanonItemFixed(f, items[0]);
      CanonItemsFixed(f, items[1..]);
      assert items == [items[0]] + items[1..];
      assert ProjectItems(f, f, items)[1..] == ProjectItems(f, f, items[1..]);
    }
  }

  /** Only the member a union names lands in the union's slot. */
  lemma OnlyMemberWrites(fields: seq<Field>, msg: seq<Slot>, i: nat, s: nat)
    requires WellFormed(fields) && Fits(fields, msg) && i < |fields| && s < |msg| && msg[s].Union?
    ensures Writes(fields, fields, msg, i, s) <==> IsMember(fields, i, s, msg[s].which)
  {
    FitsAt(fields, msg, i);
    FindIs(fields, i);
  }

  lemma {:induction false} CanonSlotFixed(f: Field, slot: Slot)
    requires WellFormedField(f) && FitsSlot(f, slot) && Present(f, slot)
    ensures ProjectSlot(f, f, slot) == slot <==> NormalSlot(f, slot)
    decreases slot, 2
  {
    if slot.Arr? {
      CanonItemsFixed(f, slot.items);
    } else {
      CanonItemFixed(f, slot.item);
    }
  }

  lemma {:induction false} CanonUnionFixed(fields: seq<Field>, msg: seq<Slot>, i: nat)
    requires WellFormed(fields) && Fits(fields, msg) && i < |fields| && fields[i].htype.Oneof?
    requires SlotOf(fields, i) < |msg|
    ensures Canon(fields, msg)[SlotOf(fields, i)] == msg[SlotOf(fields, i)] ==> NormalEntry(fields, msg, i)
    ensures (forall k :: 0 <= k < |fields| ==> NormalEntry(fields, msg, k)) ==>
              Canon(fields, msg)[SlotOf(fields, i)] == msg[SlotOf(fields, i)]
    decreases msg, 2
  {
    FitsAt(fields, msg, i);
    var s := SlotOf(fields, i);
    var which := msg[s].which;
    forall k | 0 <= k < |fields|
      ensures Writes(fields, fields, msg, k, s) <==> IsMember(fields, k, s, which)
    {
      OnlyMemberWrites(fields, msg, k, s);
    }
    if exists j :: 0 <= j < |fields| && IsMember(fields, j, s, which) {
      var j :| 0 <= j < |fields| && IsMember(fields, j, s, which);
      FindIs(fields, j);
      forall k | j < k < |fields| ensures !Writes(fields, fields, msg, k, s) {
        assert fields[j].tag != fields[k].tag;
      }
      ProjectLast(fields, fields, msg, |fields|, j, j);
      FieldAt(fields, j);
      FitsAt(fields, msg, j);
      CanonSlotFixed(fields[j], msg[s]);
      if forall k :: 0 <= k < |fields| ==> NormalEntry(fields, msg, k) {
        assert NormalEntry(fields, msg, j);
      }
      if which == fields[i].tag { FindIs(fields, i); }
    } else {
      ProjectNone(fields, fields, msg, |fields|, i);
      assert !IsMember(fields, i, s, which);
      if forall k :: 0 <= k < |fields| ==> NormalEntry(fields, msg, k) {
        assert NormalEntry(fields, msg, i);
      }
    }
  }

  lemma {:induction false} CanonPlainFixed(fields: seq<Field>, msg: seq<Slot>, i: nat)
    requires WellFormed(fields) && Fits(fields, msg) && i < |fields| && !fields[i].htype.Oneof?
    requires SlotOf(fields, i) < |msg|
    ensures Canon(fields, msg)[SlotOf(fields, i)] == msg[SlotOf(fields, i)] <==> NormalEntry(fields, msg, i)
    decreases msg, 2
  {
    FitsAt(fields, msg, i);
    FieldAt(fields, i);
    EvolvesToSelf(fields);
    FindIs(fields, i);
    ProjectionOfEntry(fields, fields, msg, i);
    if Present(fields[i], msg[SlotOf(fields, i)]) {
      CanonSlotFixed(fields[i], msg[SlotOf(fields, i)]);
    }
  }

  /** Exactly the normal messages are their own canonical form. */
  lemma {:induction false} CanonFixed(fields: seq<Field>, msg: seq<Slot>)
    requires WellFormed(fields) && Fits(fields, msg)
    ensures Canon(fields, msg) == msg <==> Normal(fields, msg)
    decreases msg, 3
  {
    forall i | 0 <= i < |fields|
      ensures Canon(fields, msg) == msg ==> NormalEntry(fields, msg, i)
    {
      FitsAt(fields, msg, i);
      if fields[i].htype.Oneof? { CanonUnionFixed(fields, msg, i); } else { CanonPlainFixed(fields, msg, i); }
    }
    if Normal(fields, msg) {
      forall s | 0 <= s < |msg|
        ensures Canon(fields, msg)[s] == msg[s]
      {
        var i := SlotHasEntry(fields, s, |fields| - 1);
        FitsAt(fields, msg, i);
        assert NormalEntry(fields, msg, i);
        if fields[i].htype.Oneof? { CanonUnionFixed(fields, msg, i); } else { CanonPlainFixed(fields, msg, i); }
      }
    }
  }

  /** The round trip is the identity exactly on normal messages whose sent strings are terminated. */
  lemma EncodeThenDecode(fields: seq<Field>, msg: seq<Slot>)
    requires WellFormed(fields) && Decodable(fields) && Fits(fields, msg) && Short(fields, msg)
    ensures Encode(fields, msg).Some?
    ensures Decode(fields, Encode(fields, msg).value) == Done(msg, []) <==>
            Terminated(fields, msg) && Normal(fields, msg)
  {
    DecodeAfterEncode(fields, msg);
    CanonFixed(fields, msg);
  }
}
