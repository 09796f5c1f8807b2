/** Where a message ends: at a zero byte in place of a tag, or at the end of the input. */
module ZeroTags {
  import opened Words
  import opened Varint
  import opened Descriptor
  import opened DecodeSpec
  import opened EncodeSpec
  import opened Delivery
  import opened Evolution
  import opened Merging
  import opened RequiredBits
  import opened RoundTrip

  /** A zero byte is an end, not a tag, and nothing behind it is looked at. */
  lemma ZeroEnds(tail: seq<byte>)
    ensures ReadTag([0] + tail) == Eof(tail)
  {
    assert ([0] + tail)[1..] == tail;
    assert ReadVarint([0] + tail, 5) == Done(0, tail);
  }

  /** A tag that cannot be read is an end exactly if at most five bytes are left, and an error otherwise. */
  lemma UnreadableTag(s: seq<byte>)
    requires forall i :: 0 <= i < |s| && i < 5 ==> s[i] >= 128
    ensures ReadTag(s) == if |s| <= 5 then Eof([]) else BadTag
  {
    ReadFails(s, 5);
  }

  /** Any other input starts with a number: zero, however many bytes it takes, ends the message, the rest are tags. */
  lemma ReadableTag(s: seq<byte>)
    requires !(forall i :: 0 <= i < |s| && i < 5 ==> s[i] >= 128)
    ensures ReadVarint32(s).Done? && ReadTag(s).rest == ReadVarint32(s).rest
    ensures if ReadVarint32(s).value == 0 then ReadTag(s).Eof? else ReadTag(s).Tag?
  {
    ReadFails(s, 5);
  }

  lemma LoopEnds(fields: seq<Field>, msg: seq<Slot>, seen: set<nat>, tail: seq<byte>)
    requires |msg| == SlotCount(fields)
    ensures RunLoop(fields, msg, seen, [0] + tail) == Stopped(msg, seen, tail)
  {
    ZeroEnds(tail);
    var s := [0] + tail;
    assert s != [];
  }

  /** Whole records, then a zero byte: decoded like the records alone, and exactly what follows the zero is left. */
  lemma ZeroTerminated(fields: seq<Field>, msg: seq<Slot>, a: seq<byte>, tail: seq<byte>)
    requires |msg| == SlotCount(fields) && WholeRecords(fields, msg, a)
    ensures var p := DecodeNoInit(fields, msg, a);
            DecodeNoInit(fields, msg, a + ([0] + tail)) == if p.Done? then Done(p.value, tail) else Fail
  {
    var l := RunLoop(fields, msg, {}, a);
    LoopConcat(fields, msg, {}, a, [0] + tail);
    LoopEnds(fields, l.msg, l.seen, tail);
  }

  /** In a submessage as well: what follows the zero inside its declared length is passed over. */
  lemma NestedZero(f: Field, slot: Slot, wire: nat, a: seq<byte>, junk: seq<byte>, tail: seq<byte>)
    requires f.ltype.LSubmessage? && (f.htype.Required? || f.htype.Optional?) && |a| + 1 + |junk| < TWO_32
    requires !slot.Arr? && slot.item.Msg? && |slot.item.slots| == SlotCount(f.ltype.fields)
    requires WholeRecords(f.ltype.fields, slot.item.slots, a)
    ensures ReadField(f, slot, wire, Delimited(a + ([0] + junk), tail)) == ReadField(f, slot, wire, Delimited(a, tail))
  {
    DelimitedRead(a, tail);
    DelimitedRead(a + ([0] + junk), tail);
    ZeroTerminated(f.ltype.fields, slot.item.slots, a, junk);
  }

  /** What the encoder writes is whole records, for a decoder that accepts it. */
  lemma {:induction false} EncodedIsWhole(fields: seq<Field>, msg: seq<Slot>)
    requires WellFormed(fields) && Decodable(fields) && Fits(fields, msg) && Short(fields, msg) && Terminated(fields, msg)
    ensures Encode(fields, msg).Some? && WholeRecords(fields, Defaults(fields), Encode(fields, msg).value)
  {
    DecodeAfterEncode(fields, msg);
    SelfCompatible(fields);
    LoopArrives(fields, fields, State(Defaults(fields), {}), msg, 0, []);
    assert Encode(fields, msg).value + [] == Encode(fields, msg).value;
  }

  lemma {:induction false} SelfCompatible(fields: seq<Field>)
    requires WellFormed(fields)
    ensures CompatibleAll(fields, fields)
  {
    EvolvesToSelf(fields);
    EvolvesIsCompatible(fields, fields);
  }

  /** A zero-terminated message in a longer buffer. */
  lemma EncodedThenZero(fields: seq<Field>, msg: seq<Slot>, tail: seq<byte>)
    requires WellFormed(fields) && Decodable(fields) && Fits(fields, msg) && Short(fields, msg) && Terminated(fields, msg)
    ensures Encode(fields, msg).Some?
    ensures Decode(fields, Encode(fields, msg).value + [0] + tail) == Done(Canon(fields, msg), tail)
  {
    DecodeAfterEncode(fields, msg);
    EncodedIsWhole(fields, msg);
    var bs := Encode(fields, msg).value;
    ZeroTerminated(fields, Defaults(fields), bs, tail);
    assert bs + [0] + tail == bs + ([0] + tail);
  }
}
