/** The example messages of the Protocol Buffers documentation's chapter on encoding, byte by byte. */
module WireExamples {
  import opened Words
  import opened Varint
  import opened Scalars
  import opened Descriptor
  import opened DecodeSpec
  import opened EncodeSpec

  function OneField(ltype: LType, size: nat): seq<Field> {
    [Field(1, ltype, Required, 0, 0, size, 0, None)]
  }

  /** A message of one required field: its tag, then its item. */
  lemma OneRequired(fields: seq<Field>, msg: seq<Slot>, f: Field, item: Item, tag: seq<byte>, bs: seq<byte>)
    requires fields == [f] && msg == [Single(item)] && f.htype.Required?
    requires TagBytes(WireType(f.ltype), f.tag) == tag && EncodeItem(f, item) == Some(bs)
    ensures Encode(fields, msg) == Some(tag + bs)
  {
    assert fields[0] == f && msg[0] == Single(item) && SlotOf(fields, 0) == 0 && SlotCount(fields) == 1;
    assert EncodeField(f, Single(item)) == Some(tag + bs);
    assert EncodeFrom(fields, msg, 1) == Some([]);
    assert EncodeFrom(fields, msg, 0) == Cat(EncodeField(fields[0], msg[0]), EncodeFrom(fields, msg, 1));
    assert tag + bs + [] == tag + bs;
  }

  /** message Test1 { int32 a = 1; } with a = 150 */
  lemma Number150()
    ensures Encode(OneField(LVarint, 4), [Single(Int(150))]) == Some([0x08, 0x96, 0x01])
  {
    var fields := OneField(LVarint, 4);
    assert EncodeVarint(150) == [0x96, 0x01];
    assert TagBytes(0, 1) == [0x08];
    OneRequired(fields, [Single(Int(150))], fields[0], Int(150), [0x08], [0x96, 0x01]);
    assert [0x08] + [0x96, 0x01] == [0x08, 0x96, 0x01];
  }

  lemma NoZeroInside(bs: seq<byte>, max: nat)
    requires |bs| <= max && forall k :: 0 <= k < |bs| ==> bs[k] != 0
    ensures CString(bs, max) == bs
  {
    assert CString(bs, max) <= bs;
  }

  const TESTING: seq<byte> := [0x74, 0x65, 0x73, 0x74, 0x69, 0x6E, 0x67]

  /** message Test2 { string b = 2; } with b = "testing" */
  lemma TextTesting()
    ensures var fields := [Field(2, LString, Required, 0, 0, 8, 0, None)];
            Encode(fields, [Single(Text(TESTING))]) == Some([0x12, 0x07] + TESTING)
  {
    var f := Field(2, LString, Required, 0, 0, 8, 0, None);
    ShortText(f, TESTING);
    OneRequired([f], [Single(Text(TESTING))], f, Text(TESTING), [0x12], [0x07] + TESTING);
    assert [0x12] + ([0x07] + TESTING) == [0x12, 0x07] + TESTING;
  }

  lemma ShortText(f: Field, bs: seq<byte>)
    requires f.ltype.LString? && f.tag == 2 && |bs| <= f.dataSize && |bs| < 128 && forall k :: 0 <= k < |bs| ==> bs[k] != 0
    ensures TagBytes(WireType(f.ltype), f.tag) == [0x12] && EncodeItem(f, Text(bs)) == Some([|bs|] + bs)
  {
    NoZeroInside(bs, f.dataSize);
  }

  /** message Test3 { Test1 c = 3; } with c.a = 150 */
  lemma NestedNumber150()
    ensures var fields := [Field(3, LSubmessage(OneField(LVarint, 4)), Required, 0, 0, 4, 0, None)];
            Encode(fields, [Single(Msg([Single(Int(150))]))]) == Some([0x1A, 0x03, 0x08, 0x96, 0x01])
  {
    var f := Field(3, LSubmessage(OneField(LVarint, 4)), Required, 0, 0, 4, 0, None);
    var inner: seq<byte> := [0x08, 0x96, 0x01];
    Number150();
    assert Delimit(inner) == [0x03] + inner;
    assert TagBytes(2, 3) == [0x1A];
    OneRequired([f], [Single(Msg([Single(Int(150))]))], f, Msg([Single(Int(150))]), [0x1A], [0x03] + inner);
    assert [0x1A] + ([0x03] + inner) == [0x1A, 0x03, 0x08, 0x96, 0x01];
  }

  /** message Test5 { repeated int32 f = 6 [packed]; } with 3, 270, 86942 */
  lemma PackedNumbers()
    ensures var f := Field(6, LVarint, Repeated, 4, -4, 4, 8, None);
            EncodeField(f, Arr([Int(3), Int(270), Int(86942)])) ==
            Some([0x32, 0x06, 0x03, 0x8E, 0x02, 0x9E, 0xA7, 0x05])
  {
    var f := Field(6, LVarint, Repeated, 4, -4, 4, 8, None);
    var items := [Int(3), Int(270), Int(86942)];
    var bs := PackedPayload(f);
    assert Delimit(bs) == [0x06] + bs;
    assert TagBytes(2, 6) == [0x32];
    assert EncodeField(f, Arr(items)) == EncodeArray(f, items) == Some([0x32] + ([0x06] + bs));
    assert [0x32] + ([0x06] + bs) == [0x32, 0x06, 0x03, 0x8E, 0x02, 0x9E, 0xA7, 0x05];
  }

  lemma PackedPayload(f: Field) returns (bs: seq<byte>)
    requires f.ltype.LVarint? && f.dataSize == 4
    ensures bs == [0x03, 0x8E, 0x02, 0x9E, 0xA7, 0x05]
    ensures EncodePayload(f, [Int(3), Int(270), Int(86942)]) == Some(bs)
  {
    var c, b, a := [Int(86942)], [Int(270), Int(86942)], [Int(3), Int(270), Int(86942)];
    assert EncodeVarint(3) == [0x03] && EncodeVarint(270) == [0x8E, 0x02];
    assert EncodeVarint(679) == [0xA7, 0x05];
    assert EncodeVarint(86942) == [0x9E] + EncodeVarint(679) == [0x9E, 0xA7, 0x05];
    assert c[1..] == [] && b[1..] == c && a[1..] == b && [0x9E, 0xA7, 0x05] + [] == [0x9E, 0xA7, 0x05];
    PayloadOf(f, c, 86942, [0x9E, 0xA7, 0x05], []);
    PayloadOf(f, b, 270, [0x8E, 0x02], [0x9E, 0xA7, 0x05]);
    assert [0x8E, 0x02] + [0x9E, 0xA7, 0x05] == [0x8E, 0x02, 0x9E, 0xA7, 0x05];
    PayloadOf(f, a, 3, [0x03], [0x8E, 0x02, 0x9E, 0xA7, 0x05]);
    bs := [0x03, 0x8E, 0x02, 0x9E, 0xA7, 0x05];
    assert [0x03] + [0x8E, 0x02, 0x9E, 0xA7, 0x05] == bs;
  }

  lemma PayloadOf(f: Field, items: seq<Item>, v: nat, bs: seq<byte>, more: seq<byte>)
    requires f.ltype.LVarint? && f.dataSize == 4 && v < TWO_32 && EncodeVarint(v) == bs
    requires items != [] && items[0] == Int(v) && EncodePayload(f, items[1..]) == Some(more)
    ensures EncodePayload(f, items) == Some(bs + more)
  {
    assert WireWord(f, v) == v;
  }

  /** message { fixed32 a = 1; } with a = 1 */
  lemma Fixed32One()
    ensures Encode(OneField(LFixed32, 4), [Single(Int(1))]) == Some([0x0D, 1, 0, 0, 0])
  {
    ZeroBytes();
    var w: seq<byte>, a := [1, 0, 0, 0], OneField(LFixed32, 4);
    assert LittleEndian(1, 4) == [1] + LittleEndian(0, 3) == w;
    assert TagBytes(5, 1) == [0x0D];
    OneRequired(a, [Single(Int(1))], a[0], Int(1), [0x0D], w);
    assert [0x0D] + w == [0x0D, 1, 0, 0, 0];
  }

  /** Field 1 of each type: varints 08, eight bytes 09, delimited 0A, four bytes 0D. */
  lemma FirstTags(t: LType)
    ensures t.LVarint? || t.LUVarint? || t.LSVarint? ==> TagBytes(WireType(t), 1) == [0x08]
    ensures t.LFixed64? ==> TagBytes(WireType(t), 1) == [0x09]
    ensures t.LBytes? || t.LString? || t.LFixedLengthBytes? || t.LSubmessage? ==> TagBytes(WireType(t), 1) == [0x0A]
    ensures t.LFixed32? ==> TagBytes(WireType(t), 1) == [0x0D]
  {
  }

  lemma ZeroBytes()
    ensures LittleEndian(0, 3) == [0, 0, 0]
  {
    assert LittleEndian(0, 1) == [0];
    assert LittleEndian(0, 2) == [0, 0];
  }

  /** The zigzag table: 0, -1, 1, -2, 2147483647, -2147483648. */
  lemma ZigZagTable()
    ensures ZigZag(0) == 0 && ZigZag(-1) == 1 && ZigZag(1) == 2 && ZigZag(-2) == 3
    ensures ZigZag(0x7FFF_FFFF) == 0xFFFF_FFFE && ZigZag(-0x8000_0000) == 0xFFFF_FFFF
  {
  }

  /** Read back: the number, and a tag of two bytes. */
  lemma ReadExamples()
    ensures ReadVarint64([0x96, 0x01]) == Done(150, []) && ReadVarint64([0x80, 0x00]) == Done(0, [])
    ensures ReadTag([0x08, 0x96, 0x01]) == Tag(1, 0, [0x96, 0x01])
    ensures ReadTag([0x82, 0x01]) == Tag(16, 2, [])
  {
    var a: seq<byte>, b: seq<byte>, c: seq<byte>, d: seq<byte> := [0x96, 0x01], [0x80, 0x00], [0x08, 0x96, 0x01], [0x82, 0x01];
    assert ReadVarint(a[1..], 9) == Done(1, []);
    assert ReadVarint(b[1..], 9) == Done(0, []);
    assert c[1..] == [0x96, 0x01];
    assert ReadVarint(c, 5) == Done(8, c[1..]);
    assert ReadVarint(d[1..], 4) == Done(1, []);
    assert ReadVarint(d, 5) == Done(0x82, []);
  }
}
