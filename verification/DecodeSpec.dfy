/** What the decoder computes, as functions of the bytes still to be read. */
module DecodeSpec {
  import opened Words
  import opened Varint
  import opened Scalars
  import opened Descriptor

  // ----- records: tags and skipping

  datatype TagRead = Eof(rest: seq<byte>) | BadTag | Tag(tag: nat, wire: nat, rest: seq<byte>)

  /** pb_decode_tag: an unreadable tag at the very end of the input counts as a normal end, and so does a zero. */
  function ReadTag(s: seq<byte>): (t: TagRead)
    ensures t.Tag? ==> |t.rest| < |s| && t.tag < TAG_LIMIT && t.wire < 8 && (t.tag != 0 || t.wire != 0)
    ensures t.Eof? && s != [] ==> |t.rest| < |s|
  {
    match ReadVarint32(s)
    case Fail => if |s| <= MAX_BYTES_32 then Eof([]) else BadTag
    case Done(v, rest) => if v == 0 then Eof(rest) else Tag(v / 8, v % 8, rest)
  }

  /** pb_read of n bytes. */
  function Take(s: seq<byte>, n: nat): (p: Parse<seq<byte>>)
    ensures p.Done? ==> |p.value| == n && p.value + p.rest == s
  {
    if |s| < n then Fail else Done(s[..n], s[n..])
  }

  /** A varint length and that many bytes: the string wire type. */
  function TakeDelimited(s: seq<byte>): (p: Parse<seq<byte>>)
    ensures p.Done? ==> |p.value| + |p.rest| < |s| && |p.value| < TWO_32
  {
    match ReadVarint32(s)
    case Fail => Fail
    case Done(n, r) => Take(r, n)
  }

  /** pb_skip_field. */
  function SkipField(wire: nat, s: seq<byte>): (p: Parse<()>)
    ensures p.Done? ==> |p.rest| <= |s|
  {
    match wire
    case 0 => SkipVarint(s)
    case 1 => (match Take(s, 8) case Fail => Fail case Done(_, r) => Done((), r))
    case 2 => (match TakeDelimited(s) case Fail => Fail case Done(_, r) => Done((), r))
    case 5 => (match Take(s, 4) case Fail => Fail case Done(_, r) => Done((), r))
    case _ => Fail
  }

  // ----- scalar cells

  /** The integer a raw word stands for in a varint-coded field, or None when it does not fit. */
  function WordCell(f: Field, raw: nat): Option<int> {
    match f.ltype
    case LVarint => VarintCell(f.dataSize, raw)
    case LUVarint => UVarintCell(f.dataSize, raw)
    case LSVarint => SVarintCell(f.dataSize, raw)
    case _ => None
  }

  function FixedItem(s: seq<byte>, n: nat): (p: Parse<Item>)
    ensures p.Done? ==> |p.rest| <= |s| - n
  {
    match Take(s, n)
    case Fail => Fail
    case Done(bs, r) => Done(Int(FromLittleEndian(bs)), r)
  }

  /** The decoders of the packable types. */
  function ReadScalar(f: Field, s: seq<byte>): (p: Parse<Item>)
    requires Packable(f.ltype)
    ensures p.Done? ==> |p.rest| < |s|
  {
    match f.ltype
    case LFixed32 => FixedItem(s, 4)
    case LFixed64 => FixedItem(s, 8)
    case _ =>
      match ReadVarint64(s)
      case Fail => Fail
      case Done(raw, r) =>
        match WordCell(f, raw)
        case None => Fail
        case Some(v) => Done(Int(v), r)
  }

  /** pb_dec_bytes, pb_dec_string and pb_dec_fixed_length_bytes, given the delimited content. */
  function ContentItem(f: Field, bs: seq<byte>): Option<Item> {
    match f.ltype
    case LBytes => if |bs| + BYTES_HEADER > f.dataSize then None else Some(Blob(bs))
    case LString => if |bs| + 1 > f.dataSize then None else Some(Text(bs))
    case LFixedLengthBytes =>
      if bs == [] then Some(Blob(Zeros(f.dataSize)))
      else if |bs| != f.dataSize then None else Some(Blob(bs))
    case _ => None
  }

  // ----- fields and messages

  function ItemOf(slot: Slot): Item {
    if slot.Arr? then Unset else slot.item
  }

  function ItemsOf(slot: Slot): seq<Item> {
    if slot.Arr? then slot.items else []
  }

  /** The item an entry decodes on top of: nothing for array items and union members. */
  function PriorOf(f: Field, slot: Slot): Item {
    if f.htype.Repeated? || f.htype.Oneof? then Unset else ItemOf(slot)
  }

  /** The struct a submessage is decoded into: the old one, or a freshly initialised one. */
  function BaseOf(sub: seq<Field>, prior: Item): (msg: seq<Slot>)
    ensures |msg| == SlotCount(sub)
  {
    if prior.Msg? && |prior.slots| == SlotCount(sub) then prior.slots else Defaults(sub)
  }

  /** The packed loop: items until the input or the array is exhausted, then nothing may be left. */
  function ReadPacked(f: Field, items: seq<Item>, s: seq<byte>): Option<seq<Item>>
    requires Packable(f.ltype)
    decreases |s|
  {
    if s == [] then Some(items)
    else if |items| >= f.arraySize then None
    else match ReadScalar(f, s)
      case Fail => None
      case Done(item, r) => ReadPacked(f, items + [item], r)
  }

  /** One item of any type; `prior` is what its cell holds before. */
  function ReadItem(f: Field, prior: Item, s: seq<byte>): (p: Parse<Item>)
    ensures p.Done? ==> |p.rest| <= |s|
    decreases |s|, 1
  {
    if Packable(f.ltype) then ReadScalar(f, s)
    else match TakeDelimited(s)
      case Fail => Fail
      case Done(bs, r) =>
        if f.ltype.LSubmessage? then
          match DecodeNoInit(f.ltype.fields, BaseOf(f.ltype.fields, prior), bs)
          case Fail => Fail
          case Done(msg, _) => Done(Msg(msg), r)
        else match ContentItem(f, bs)
          case None => Fail
          case Some(item) => Done(item, r)
  }

  /** decode_static_field: one record for entry f. Repeated items and union members start from scratch. */
  function ReadField(f: Field, slot: Slot, wire: nat, s: seq<byte>): (p: Parse<Slot>)
    ensures p.Done? ==> |p.rest| <= |s|
    decreases |s|, 2
  {
    match f.htype
    case Required =>
      (match ReadItem(f, ItemOf(slot), s) case Fail => Fail case Done(x, r) => Done(Single(x), r))
    case Optional =>
      (match ReadItem(f, ItemOf(slot), s)
       case Fail => Fail
       case Done(x, r) => Done(if Implicit(f) then Single(x) else Opt(true, x), r))
    case Oneof =>
      (match ReadItem(f, Unset, s) case Fail => Fail case Done(x, r) => Done(Union(f.tag, x), r))
    case Repeated =>
      if wire == WT_STRING && Packable(f.ltype) then
        match TakeDelimited(s)
        case Fail => Fail
        case Done(bs, r) =>
          match ReadPacked(f, ItemsOf(slot), bs)
          case None => Fail
          case Some(items) => Done(Arr(items), r)
      else if |ItemsOf(slot)| >= f.arraySize then Fail
      else match ReadItem(f, Unset, s)
        case Fail => Fail
        case Done(x, r) => Done(Arr(ItemsOf(slot) + [x]), r)
  }

  /** How the record loop ends: an error, a break on eof, or an exhausted input; `seen` holds the entries met. */
  datatype Loop =
    | Failed
    | Stopped(msg: seq<Slot>, seen: set<nat>, rest: seq<byte>)
    | Drained(msg: seq<Slot>, seen: set<nat>)

  /**
   The while loop of pb_decode_noinit. It and everything it calls end because the input gets shorter, whatever the
   descriptor; that descriptors are finite trees here, as statically allocated structs embed their submessages, only
   matters to the default values.
   */
  function RunLoop(fields: seq<Field>, msg: seq<Slot>, seen: set<nat>, s: seq<byte>): (l: Loop)
    requires |msg| == SlotCount(fields)
    ensures !l.Failed? ==> |l.msg| == SlotCount(fields)
    decreases |s|, 3
  {
    if s == [] then Drained(msg, seen)
    else match ReadTag(s)
      case Eof(rest) => Stopped(msg, seen, rest)
      case BadTag => Failed
      case Tag(tag, wire, rest) =>
        match Find(fields, tag)
        case None =>
          // An empty descriptor's terminator has tag 0: it matches, and its varint decoder rejects data_size 0.
          if fields == [] && tag == 0 then Failed
          else (match SkipField(wire, rest)
                case Fail => Failed
                case Done(_, r) => RunLoop(fields, msg, seen, r))
        case Some(i) =>
          SlotMonotone(fields, i, i);
          match ReadField(fields[i], msg[SlotOf(fields, i)], wire, rest)
          case Fail => Failed
          case Done(slot, r) => RunLoop(fields, msg[SlotOf(fields, i) := slot], seen + {i}, r)
  }

  /** The final check: every required entry was met. */
  predicate RequiredSeen(fields: seq<Field>, seen: set<nat>) {
    forall i :: 0 <= i < |fields| && fields[i].htype.Required? ==> i in seen
  }

  function Finish(fields: seq<Field>, l: Loop): (p: Parse<seq<Slot>>) {
    match l
    case Failed => Fail
    case Stopped(msg, seen, rest) => if RequiredSeen(fields, seen) then Done(msg, rest) else Fail
    case Drained(msg, seen) => if RequiredSeen(fields, seen) then Done(msg, []) else Fail
  }

  /** pb_decode_noinit: merge the records of s into msg. */
  function DecodeNoInit(fields: seq<Field>, msg: seq<Slot>, s: seq<byte>): (p: Parse<seq<Slot>>)
    requires |msg| == SlotCount(fields)
    ensures p.Done? ==> |p.value| == SlotCount(fields)
    decreases |s|, 4
  {
    Finish(fields, RunLoop(fields, msg, {}, s))
  }

  /** pb_decode. */
  function Decode(fields: seq<Field>, s: seq<byte>): (p: Parse<seq<Slot>>) {
    DecodeNoInit(fields, Defaults(fields), s)
  }
}
