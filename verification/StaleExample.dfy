/** An input that makes pb_decode fail and leaves a nested array count out of bounds. */
module StaleExample {
  import opened Words
  import opened Varint
  import opened Scalars
  import opened Descriptor
  import opened DecodeSpec
  import opened FailedRuns
  import opened InputStream
  import opened RequiredBits
  import opened StructLayout
  import opened ArrayCounts
  import opened StaleEntries
  import opened StructMemory

  /** struct Inner { pb_size_t values_count; int32_t values[1]; } */
  function Inner(): seq<Field> {
    [Field(1, LVarint, Repeated, 4, -4, 4, 1, None)]
  }

  /** struct Outer { pb_size_t inner_count; Inner inner[1]; } */
  function Outer(): seq<Field> {
    [Field(1, LSubmessage(Inner()), Repeated, 4, -4, 8, 1, None)]
  }

  lemma InnerLaid()
    ensures Laid(Inner(), 8) && Decodable(Inner())
  {
    var fields := Inner();
    assert InStruct(fields, 0, 8);
    assert Apart(fields, 0, 0);
    assert LaidField(fields[0]) && CellTrue(fields, 0);
    assert RequiredBefore(fields, 1) == 0;
  }

  lemma OuterLaid()
    ensures Laid(Outer(), 12) && Decodable(Outer())
  {
    var fields := Outer();
    InnerLaid();
    assert InStruct(fields, 0, 12);
    assert Apart(fields, 0, 0);
    assert LaidField(fields[0]) && CellTrue(fields, 0);
    assert RequiredBefore(fields, 1) == 0;
  }

  /** The tag of the array and nothing else: the entry is counted, then its length prefix is missing. */
  const TAG_ONLY: seq<byte> := [0x0A]

  lemma TagOnlyIsStale()
    ensures Decode(Outer(), TAG_ONLY).Fail?
    ensures Stale(Outer(), Defaults(Outer()), TAG_ONLY) == Some([Hop(0, 0)])
  {
    var fields, msg := Outer(), Defaults(Outer());
    assert ReadVarint(TAG_ONLY, 5) == Done(10, []);
    assert ReadTag(TAG_ONLY) == Tag(1, 2, []);
    assert Find(fields, 1) == Some(0);
    assert SlotOf(fields, 0) == 0;
    DefaultsAt(fields, 0);
    assert msg[0] == Arr([]);
    assert TakeDelimited([]).Fail?;
    assert ReadField(fields[0], msg[0], 2, []).Fail?;
    assert StaleField(fields[0], msg[0], []) == Some([]);
    var here := [Hop(0, 0)];
    assert here + [] == here;
    assert StaleRecord(fields, msg, 2, 1, []) == Some(here);
  }

  lemma {:induction false} AllOnesSize(bytes: seq<byte>)
    requires |bytes| >= 4 && forall k :: 0 <= k < 4 ==> bytes[k] == 255
    ensures FromLittleEndian(bytes[..4]) > 1
  {
    assert bytes[..4][0] == 255;
  }

  /** Memory of all ones, and after the failed decode an array entry that claims more values than it has room for. */
  method FailedDecode() returns (ok: bool, mem: array<byte>)
    ensures Laid(Outer(), 12) && mem.Length == 12
    ensures !ok && CountOf(Outer(), mem[..], 0) == 1 && !Deep(Outer(), mem[..])
  {
    OuterLaid();
    TagOnlyIsStale();
    mem := new byte[12](i => 255);
    ghost var was := mem[..];
    assert was == mem[0..12];
    var stream := new IStream(TAG_ONLY, 0, 1);
    assert stream.Rem() == TAG_ONLY;
    ok := DecodeAt(stream, Outer(), 12, mem, 0);
    assert mem[0..12] == mem[..];
    OnesAreNotFine(was);
    assert LooseEntry(Outer(), mem[..], 0, 0, []);
  }

  /** The entry the input leaves stale held ones before, which is not a count within bounds. */
  lemma {:induction false} OnesAreNotFine(was: seq<byte>)
    requires |was| == 12 && Laid(Outer(), 12) && forall k :: 0 <= k < 12 ==> was[k] == 255
    ensures !StaysDeep(Outer(), Defaults(Outer()), TAG_ONLY, was)
  {
    var fields := Outer();
    TagOnlyIsStale();
    InnerLaid();
    OwnStaleIff(fields, Defaults(fields), TAG_ONLY, was, 0, 0);
    var data := DataBytes(fields, was, 0);
    var entry := Nth(fields[0], data, 0);
    assert forall k :: 0 <= k < 8 ==> entry[k] == data[k];
    AllOnesSize(entry);
    assert InStruct(Inner(), 0, 8) && CellBytes(Inner(), entry, 0) == entry[..4];
    assert !DeepEntry(Inner(), entry, 0);
  }

  /** On cleared memory the same input fails as well, but leaves nothing out of bounds. */
  lemma ZerosAreFine()
    ensures Laid(Outer(), 12) && StaysDeep(Outer(), Defaults(Outer()), TAG_ONLY, Zeros(12))
  {
    OuterLaid();
    TagOnlyIsStale();
    ZerosFine(Outer(), 12, [Hop(0, 0)]);
  }
}
