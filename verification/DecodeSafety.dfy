/** What decoding preserves on every input: the struct's bounds, and everything no record names. */
module DecodeSafety {
  import opened Words
  import opened Scalars
  import opened Descriptor
  import opened DecodeSpec
  import opened EncodeSpec

  // ----- a decoded value always fits its cell

  lemma ScalarFits(f: Field, s: seq<byte>)
    requires Packable(f.ltype) && ReadScalar(f, s).Done?
    ensures FitsItem(f, ReadScalar(f, s).value)
  {
    FixedWidths();
    match f.ltype
    case LFixed32 => FromLittleEndianBound(s[..4]);
    case LFixed64 => FromLittleEndianBound(s[..8]);
    case LVarint =>
      var raw := Varint.ReadVarint64(s).value;
      VarintAccepts(f.dataSize, raw);
    case LUVarint => UVarintAccepts(f.dataSize, Varint.ReadVarint64(s).value);
    case LSVarint => NarrowSignedExact(f.dataSize, UnZigZag(Varint.ReadVarint64(s).value));
  }

  lemma {:induction false} PackedFits(f: Field, items: seq<Item>, s: seq<byte>)
    requires Packable(f.ltype) && |items| <= f.arraySize && (forall x :: x in items ==> FitsItem(f, x))
    requires ReadPacked(f, items, s).Some?
    ensures var r := ReadPacked(f, items, s).value;
            items <= r && |r| <= f.arraySize && forall x :: x in r ==> FitsItem(f, x)
    decreases |s|
  {
    if s != [] {
      ScalarFits(f, s);
      var p := ReadScalar(f, s);
      PackedFits(f, items + [p.value], p.rest);
    }
  }

  lemma {:induction false} ItemFits(f: Field, prior: Item, s: seq<byte>)
    requires WellFormedField(f) && ReadItem(f, prior, s).Done?
    requires f.ltype.LSubmessage? && prior.Msg? ==> Fits(f.ltype.fields, prior.slots)
    ensures FitsItem(f, ReadItem(f, prior, s).value)
    decreases |s|, 1
  {
    if Packable(f.ltype) {
      ScalarFits(f, s);
    } else if f.ltype.LSubmessage? {
      var sub := f.ltype.fields;
      DefaultsFit(sub);
      LoopFits(sub, BaseOf(sub, prior), {}, TakeDelimited(s).value);
    }
  }

  lemma {:induction false} FieldFits(f: Field, slot: Slot, wire: nat, s: seq<byte>)
    requires WellFormedField(f) && FitsSlot(f, slot) && ReadField(f, slot, wire, s).Done?
    ensures FitsSlot(f, ReadField(f, slot, wire, s).value)
    ensures f.htype.Oneof? ==> ReadField(f, slot, wire, s).value.which == f.tag
    decreases |s|, 2
  {
    if f.htype.Repeated? && wire == WT_STRING && Packable(f.ltype) {
      PackedFits(f, slot.items, TakeDelimited(s).value);
    } else if f.htype.Repeated? || f.htype.Oneof? {
      ItemFits(f, Unset, s);
    } else {
      ItemFits(f, slot.item, s);
    }
  }

  /** Writing entry i's slot disturbs no other entry: other slots are untouched, union mates are switched off. */
  lemma StoreFits(fields: seq<Field>, msg: seq<Slot>, i: nat, slot: Slot)
    requires WellFormed(fields) && Fits(fields, msg) && i < |fields| && SlotOf(fields, i) < |msg|
    requires FitsSlot(fields[i], slot) && (fields[i].htype.Oneof? ==> slot.which == fields[i].tag)
    ensures Fits(fields, msg[SlotOf(fields, i) := slot])
  {
    var out := msg[SlotOf(fields, i) := slot];
    forall j | 0 <= j < |fields|
      ensures FitsEntry(fields, out, j)
    {
      FitsAt(fields, msg, j);
      if j < i && SlotOf(fields, j) == SlotOf(fields, i) {
        SharedSlot(fields, j, i);
        assert fields[j].tag != fields[i].tag;
      } else if i < j && SlotOf(fields, j) == SlotOf(fields, i) {
        SharedSlot(fields, i, j);
        assert fields[i].tag != fields[j].tag;
      }
      assert FitsSlot(fields[j], out[SlotOf(fields, j)]);
    }
    assert Fits(fields, out);
  }

  /** For every input the record loop accepts: integers in range, strings and arrays within bounds, at every depth. */
  lemma {:induction false} LoopFits(fields: seq<Field>, msg: seq<Slot>, seen: set<nat>, s: seq<byte>)
    requires WellFormed(fields) && Fits(fields, msg)
    requires !RunLoop(fields, msg, seen, s).Failed?
    ensures Fits(fields, RunLoop(fields, msg, seen, s).msg)
    decreases |s|, 3
  {
    if s != [] && ReadTag(s).Tag? {
      var t := ReadTag(s);
      var found := Find(fields, t.tag);
      if found.None? {
        LoopFits(fields, msg, seen, SkipField(t.wire, t.rest).rest);
      } else {
        var i := found.value;
        FieldAt(fields, i);
        FitsAt(fields, msg, i);
        var k := SlotOf(fields, i);
        FieldFits(fields[i], msg[k], t.wire, t.rest);
        var p := ReadField(fields[i], msg[k], t.wire, t.rest);
        StoreFits(fields, msg, i, p.value);
        LoopFits(fields, msg[k := p.value], seen + {i}, p.rest);
      }
    }
  }

  /** pb_decode, on any input it accepts, leaves a value that fits the struct and that pb_encode therefore accepts. */
  lemma DecodedFitsAndEncodes(fields: seq<Field>, s: seq<byte>)
    requires WellFormed(fields) && Decode(fields, s).Done?
    ensures Fits(fields, Decode(fields, s).value)
    ensures Encode(fields, Decode(fields, s).value).Some?
  {
    DefaultsFit(fields);
    LoopFits(fields, Defaults(fields), {}, s);
    FitsEncodes(fields, Decode(fields, s).value);
  }

  // ----- frame: slots whose entries were not met keep their value

  predicate NotMet(fields: seq<Field>, seen: set<nat>, k: nat) {
    forall i :: i in seen && i < |fields| ==> SlotOf(fields, i) != k
  }

  /** Entries met stay met. */
  lemma {:induction false} SeenGrows(fields: seq<Field>, msg: seq<Slot>, seen: set<nat>, s: seq<byte>)
    requires |msg| == SlotCount(fields) && !RunLoop(fields, msg, seen, s).Failed?
    ensures seen <= RunLoop(fields, msg, seen, s).seen
    decreases |s|
  {
    if s != [] && ReadTag(s).Tag? {
      var t := ReadTag(s);
      var found := Find(fields, t.tag);
      if found.None? {
        SeenGrows(fields, msg, seen, SkipField(t.wire, t.rest).rest);
      } else {
        var i := found.value;
        SlotMonotone(fields, i, i);
        var k := SlotOf(fields, i);
        var p := ReadField(fields[i], msg[k], t.wire, t.rest);
        SeenGrows(fields, msg[k := p.value], seen + {i}, p.rest);
      }
    }
  }

  /** A slot none of whose entries occurred in the input is left as it was. */
  lemma {:induction false} LoopFrame(fields: seq<Field>, msg: seq<Slot>, seen: set<nat>, s: seq<byte>, k: nat)
    requires |msg| == SlotCount(fields) && k < |msg|
    requires !RunLoop(fields, msg, seen, s).Failed?
    requires NotMet(fields, RunLoop(fields, msg, seen, s).seen, k)
    ensures RunLoop(fields, msg, seen, s).msg[k] == msg[k]
    decreases |s|
  {
    if s != [] && ReadTag(s).Tag? {
      var t := ReadTag(s);
      var found := Find(fields, t.tag);
      if found.None? {
        LoopFrame(fields, msg, seen, SkipField(t.wire, t.rest).rest, k);
      } else {
        var i := found.value;
        SlotMonotone(fields, i, i);
        var p := ReadField(fields[i], msg[SlotOf(fields, i)], t.wire, t.rest);
        var next := msg[SlotOf(fields, i) := p.value];
        SeenGrows(fields, next, seen + {i}, p.rest);
        LoopFrame(fields, next, seen + {i}, p.rest, k);
      }
    }
  }
}
