/** Loads and stores of the decoder on a byte array: data cells, default values, array entries. */
module MemoryCells {
  import opened Words
  import opened Varint
  import opened Scalars
  import opened Descriptor
  import opened DecodeSpec
  import opened InputStream
  import opened FieldIterator
  import opened StructLayout
  import opened Initialised

  // ----- regions

  /** Two memories agree outside [lo, hi). */
  ghost predicate SameOutside(a: seq<byte>, b: seq<byte>, lo: int, hi: int) {
    |a| == |b| && forall k :: 0 <= k < |a| && !(lo <= k < hi) ==> a[k] == b[k]
  }

  /** Two memories agree outside [lo, hi) and [lo2, hi2). */
  ghost predicate SameOutside2(a: seq<byte>, b: seq<byte>, lo: int, hi: int, lo2: int, hi2: int) {
    |a| == |b| && forall k :: 0 <= k < |a| && !(lo <= k < hi) && !(lo2 <= k < hi2) ==> a[k] == b[k]
  }

  /** A range away from the change holds the same bytes. */
  lemma PartKept(a: seq<byte>, b: seq<byte>, lo: int, hi: int, at: nat, n: nat)
    requires SameOutside(a, b, lo, hi) && at + n <= |a| && (at + n <= lo || hi <= at)
    ensures a[at..at + n] == b[at..at + n]
  {
  }

  // ----- loads and stores

  /** A store of consecutive bytes. */
  method Store(mem: array<byte>, at: nat, data: seq<byte>)
    requires at + |data| <= mem.Length
    modifies mem
    ensures mem[at..at + |data|] == data && SameOutside(old(mem[..]), mem[..], at, at + |data|)
  {
    for i := 0 to |data|
      invariant forall k :: 0 <= k < mem.Length && !(at <= k < at + i) ==> mem[k] == old(mem[k])
      invariant forall k :: 0 <= k < i ==> mem[at + k] == data[k]
    {
      mem[at + i] := data[i];
    }
  }

  /** A pb_size_t cell. */
  function SizeAt(mem: seq<byte>, at: nat): (n: nat)
    requires at + SIZE_CELL <= |mem|
  {
    FromLittleEndian(mem[at..at + SIZE_CELL])
  }

  method StoreSize(mem: array<byte>, at: nat, n: nat)
    requires at + SIZE_CELL <= mem.Length && n < TWO_32
    modifies mem
    ensures SizeAt(mem[..], at) == n && SameOutside(old(mem[..]), mem[..], at, at + SIZE_CELL)
  {
    Store(mem, at, LittleEndian(n, SIZE_CELL));
    SizeWord(n);
    assert mem[..][at..at + SIZE_CELL] == mem[at..at + SIZE_CELL];
  }

  // ----- one item

  /** The outcome of decoding one item of f from s: result, rest of the input, bytes of the item. */
  ghost predicate ItemDone(f: Field, prior: Item, s: seq<byte>, ok: bool, rem: seq<byte>, bytes: seq<byte>)
    requires LaidField(f) && |bytes| == f.dataSize
  {
    && ok == ReadItem(f, prior, s).Done?
    && (ok ==> rem == ReadItem(f, prior, s).rest && Holds(f, bytes, ReadItem(f, prior, s).value))
  }

  /** The value a varint-coded field is about to store: narrow signed fields are cast to int32_t first. */
  function WordValue(f: Field, raw: nat): int {
    match f.ltype
    case LVarint => if f.dataSize == 8 then Signed64(raw) else Signed32(raw)
    case LSVarint => UnZigZag(raw)
    case _ => raw
  }

  lemma {:induction false} AcceptedWord(f: Field, raw: nat)
    requires (f.ltype.LVarint? || f.ltype.LUVarint? || f.ltype.LSVarint?) && LaidField(f) && raw < TWO_64
    ensures WordCell(f, raw).Some? ==>
              Holds(f, LittleEndian(WordValue(f, raw) % TWO_64, f.dataSize), Int(WordCell(f, raw).value))
  {
    if f.ltype.LUVarint? {
      UVarintAccepts(f.dataSize, raw);
      assert raw % TWO_64 == raw;
    } else {
      NarrowSignedExact(f.dataSize, WordValue(f, raw));
    }
  }

  /** pb_dec_varint, pb_dec_uvarint, pb_dec_svarint: the cast value is stored before the width check rejects it. */
  method DecWordAt(stream: IStream, f: Field, mem: array<byte>, dest: nat) returns (ok: bool)
    requires stream.Valid() && (f.ltype.LVarint? || f.ltype.LUVarint? || f.ltype.LSVarint?) && LaidField(f)
    requires dest + f.dataSize <= mem.Length
    modifies stream, mem
    ensures stream.Valid() && stream.End() == old(stream.End())
    ensures SameOutside(old(mem[..]), mem[..], dest, dest + f.dataSize)
    ensures ItemDone(f, Unset, old(stream.Rem()), ok, stream.Rem(), mem[dest..dest + f.dataSize])
    ensures match ReadVarint64(old(stream.Rem()))
            case Fail => mem[..] == old(mem[..])
            case Done(raw, _) => mem[dest..dest + f.dataSize] == LittleEndian(WordValue(f, raw) % TWO_64, f.dataSize)
  {
    var value;
    ok, value := stream.DecodeVarint();
    if !ok {
      return;
    }
    Store(mem, dest, LittleEndian(WordValue(f, value) % TWO_64, f.dataSize));
    AcceptedWord(f, value);
    ok := WordCell(f, value).Some?;
  }

  /** pb_dec_fixed32 and pb_dec_fixed64. */
  method DecFixedAt(stream: IStream, f: Field, mem: array<byte>, dest: nat) returns (ok: bool)
    requires stream.Valid() && (f.ltype.LFixed32? || f.ltype.LFixed64?) && LaidField(f)
    requires dest + f.dataSize <= mem.Length
    modifies stream, mem
    ensures stream.Valid() && stream.End() == old(stream.End())
    ensures SameOutside(old(mem[..]), mem[..], dest, dest + f.dataSize)
    ensures ItemDone(f, Unset, old(stream.Rem()), ok, stream.Rem(), mem[dest..dest + f.dataSize])
  {
    var bytes;
    ok, bytes := stream.Read(if f.ltype.LFixed32? then 4 else 8);
    if ok {
      Store(mem, dest, bytes);
    }
  }

  /** A bytes item after its length prefix. */
  lemma BytesRead(f: Field, s: seq<byte>, n: nat, r: seq<byte>, ok: bool, rem: seq<byte>, bytes: seq<byte>)
    requires f.ltype.LBytes? && LaidField(f) && |bytes| == f.dataSize && ReadVarint32(s) == Done(n, r)
    requires ok <==> n <= |r| && n + BYTES_HEADER <= f.dataSize
    requires ok ==> rem == r[n..] && HoldsBytes(bytes, r[..n])
    ensures ItemDone(f, Unset, s, ok, rem, bytes)
  {
  }

  /** A string item after its length prefix. */
  lemma TextRead(f: Field, s: seq<byte>, n: nat, r: seq<byte>)
    requires f.ltype.LString? && ReadVarint32(s) == Done(n, r)
    ensures ReadItem(f, Unset, s) ==
            if |r| < n || n + 1 > f.dataSize then Fail else Done(Text(r[..n]), r[n..])
  {
  }

  /** pb_dec_bytes: the size word is stored before the content is read. */
  method DecBytesAt(stream: IStream, f: Field, mem: array<byte>, dest: nat) returns (ok: bool)
    requires stream.Valid() && f.ltype.LBytes? && LaidField(f) && dest + f.dataSize <= mem.Length
    modifies stream, mem
    ensures stream.Valid() && stream.End() == old(stream.End())
    ensures SameOutside(old(mem[..]), mem[..], dest, dest + f.dataSize)
    ensures ItemDone(f, Unset, old(stream.Rem()), ok, stream.Rem(), mem[dest..dest + f.dataSize])
  {
    var size;
    ghost var s := stream.Rem();
    ok, size := stream.DecodeVarint32();
    if !ok {
      return;
    }
    ghost var r := stream.Rem();
    if size + BYTES_HEADER > f.dataSize {
      ok := false;
    } else {
      ok := ReadBytes(stream, mem, dest, f.dataSize, size);
    }
    BytesRead(f, s, size, r, ok, stream.Rem(), mem[dest..dest + f.dataSize]);
  }

  /** The size word, and behind it the content, if it can be read. */
  method ReadBytes(stream: IStream, mem: array<byte>, at: nat, n: nat, size: nat) returns (ok: bool)
    requires stream.Valid() && at + n <= mem.Length && size < TWO_32 && BYTES_HEADER + size <= n
    modifies stream, mem
    ensures stream.Valid() && stream.End() == old(stream.End())
    ensures SameOutside(old(mem[..]), mem[..], at, at + n)
    ensures ok <==> size <= |old(stream.Rem())|
    ensures ok ==> stream.Rem() == old(stream.Rem())[size..] && HoldsBytes(mem[at..at + n], old(stream.Rem())[..size])
  {
    var bytes;
    StoreSize(mem, at, size);
    ok, bytes := stream.Read(size);
    if ok {
      StoreContent(mem, at, n, bytes);
    }
  }

  /** The content behind a size word that is already there. */
  method StoreContent(mem: array<byte>, at: nat, n: nat, content: seq<byte>)
    requires at + n <= mem.Length && BYTES_HEADER + |content| <= n && SizeAt(mem[..], at) == |content|
    modifies mem
    ensures SameOutside(old(mem[..]), mem[..], at, at + n) && HoldsBytes(mem[at..at + n], content)
  {
    ghost var was := mem[..];
    Store(mem, at + BYTES_HEADER, content);
    PartKept(was, mem[..], at + BYTES_HEADER, at + BYTES_HEADER + |content|, at, BYTES_HEADER);
    assert mem[at..at + n] == mem[..][at..at + n];
    SubPart(mem[..], at, n, 0, BYTES_HEADER);
    SubPart(mem[..], at, n, BYTES_HEADER, |content|);
    assert mem[at + BYTES_HEADER..at + BYTES_HEADER + |content|] == mem[..][at + BYTES_HEADER..at + BYTES_HEADER + |content|];
  }

  /** pb_dec_string: the terminator is written even when the content could not be read. */
  method DecStringAt(stream: IStream, f: Field, mem: array<byte>, dest: nat) returns (ok: bool)
    requires stream.Valid() && f.ltype.LString? && LaidField(f) && dest + f.dataSize <= mem.Length
    modifies stream, mem
    ensures stream.Valid() && stream.End() == old(stream.End())
    ensures SameOutside(old(mem[..]), mem[..], dest, dest + f.dataSize)
    ensures ItemDone(f, Unset, old(stream.Rem()), ok, stream.Rem(), mem[dest..dest + f.dataSize])
  {
    var size, bytes;
    ghost var s := stream.Rem();
    ok, size := stream.DecodeVarint32();
    if !ok {
      return;
    }
    TextRead(f, s, size, stream.Rem());
    if size + 1 > f.dataSize {
      return false;
    }
    ok, bytes := stream.Read(size);
    StoreText(mem, dest, f.dataSize, size, ok, bytes);
  }

  /** The content, if it could be read, and its terminator in any case. */
  method StoreText(mem: array<byte>, at: nat, n: nat, size: nat, ok: bool, bytes: seq<byte>)
    requires at + n <= mem.Length && size < n && (ok ==> |bytes| == size)
    modifies mem
    ensures SameOutside(old(mem[..]), mem[..], at, at + n) && (ok ==> HoldsText(mem[at..at + n], bytes))
  {
    if ok {
      Store(mem, at, bytes);
    }
    Terminate(mem, at, n, size);
  }

  /** The terminator behind a content that is already there. */
  method Terminate(mem: array<byte>, at: nat, n: nat, size: nat)
    requires at + n <= mem.Length && size < n
    modifies mem
    ensures SameOutside(old(mem[..]), mem[..], at, at + n) && HoldsText(mem[at..at + n], old(mem[at..at + size]))
  {
    ghost var was := mem[..];
    Store(mem, at + size, [0]);
    PartKept(was, mem[..], at + size, at + size + 1, at, size);
    assert mem[at..at + n][..size] == mem[..][at..at + size];
    assert mem[at..at + n][size] == mem[at + size..at + size + 1][0];
  }

  /** pb_dec_fixed_length_bytes. */
  method DecFixedLengthAt(stream: IStream, f: Field, mem: array<byte>, dest: nat) returns (ok: bool)
    requires stream.Valid() && f.ltype.LFixedLengthBytes? && LaidField(f) && dest + f.dataSize <= mem.Length
    modifies stream, mem
    ensures stream.Valid() && stream.End() == old(stream.End())
    ensures SameOutside(old(mem[..]), mem[..], dest, dest + f.dataSize)
    ensures ItemDone(f, Unset, old(stream.Rem()), ok, stream.Rem(), mem[dest..dest + f.dataSize])
  {
    var size, bytes;
    ok, size := stream.DecodeVarint32();
    if !ok {
      return;
    }
    if size == 0 {
      Store(mem, dest, Zeros(f.dataSize));
      return;
    }
    if size != f.dataSize {
      return false;
    }
    ok, bytes := stream.Read(size);
    if ok {
      Store(mem, dest, bytes);
    }
  }

  /** The decoders that do not recurse. */
  method DecLeafAt(stream: IStream, f: Field, mem: array<byte>, dest: nat) returns (ok: bool)
    requires stream.Valid() && !f.ltype.LSubmessage? && LaidField(f) && dest + f.dataSize <= mem.Length
    modifies stream, mem
    ensures stream.Valid() && stream.End() == old(stream.End())
    ensures SameOutside(old(mem[..]), mem[..], dest, dest + f.dataSize)
    ensures ItemDone(f, Unset, old(stream.Rem()), ok, stream.Rem(), mem[dest..dest + f.dataSize])
  {
    match f.ltype
    case LVarint | LUVarint | LSVarint => ok := DecWordAt(stream, f, mem, dest);
    case LFixed32 | LFixed64 => ok := DecFixedAt(stream, f, mem, dest);
    case LBytes => ok := DecBytesAt(stream, f, mem, dest);
    case LString => ok := DecStringAt(stream, f, mem, dest);
    case LFixedLengthBytes => ok := DecFixedLengthAt(stream, f, mem, dest);
  }

  // ----- one entry at its addresses

  /** The bytes of a has_/count/which_ cell; an entry without one has none. */
  ghost function CellPart(mem: seq<byte>, at: int, n: nat): (r: seq<byte>)
    requires n > 0 ==> 0 <= at && at + n <= |mem|
    ensures |r| == n
  {
    if n == 0 then [] else mem[at..at + n]
  }

  /** Memory of `length` bytes has the member at `data` and its cell at `cell`, apart from each other. */
  ghost predicate RoomFor(f: Field, length: nat, data: int, cell: int) {
    && 0 <= data && data + MemberSize(f) <= length
    && (CellSize(f) > 0 ==> 0 <= cell && cell + CellSize(f) <= length)
    && (CellSize(f) > 0 ==> cell + CellSize(f) <= data || data + MemberSize(f) <= cell)
  }

  /** The bytes at the entry's addresses represent the slot. */
  ghost predicate MemHolds(f: Field, mem: seq<byte>, data: int, cell: int, slot: Slot)
    requires LaidField(f) && RoomFor(f, |mem|, data, cell)
  {
    HoldsSlot(f, mem[data..data + MemberSize(f)], CellPart(mem, cell, CellSize(f)), slot)
  }

  /** Only the entry's data and cell changed. */
  ghost predicate OnlyAt(f: Field, a: seq<byte>, b: seq<byte>, data: int, cell: int) {
    SameOutside2(a, b, data, data + MemberSize(f), cell, cell + CellSize(f))
  }

  /** Addresses relative to the struct are addresses in memory. */
  lemma {:induction false} EntryPart(fields: seq<Field>, mem: seq<byte>, base: nat, size: nat, i: nat)
    requires base + size <= |mem| && i < |fields| && InStruct(fields, i, size)
    ensures RoomFor(fields[i], |mem|, base + DataAt(fields, i), base + CellAt(fields, i))
    ensures var f, d, c := fields[i], base + DataAt(fields, i), base + CellAt(fields, i);
            && DataBytes(fields, mem[base..base + size], i) == mem[d..d + MemberSize(f)]
            && CellBytes(fields, mem[base..base + size], i) == CellPart(mem, c, CellSize(f))
  {
    var d, c, m, n := DataAt(fields, i), CellAt(fields, i), MemberSize(fields[i]), CellSize(fields[i]);
    SubPart(mem, base, size, d, m);
    if n > 0 { SubPart(mem, base, size, c, n); }
  }

  lemma {:induction false} SubPart(mem: seq<byte>, base: nat, size: nat, lo: nat, n: nat)
    requires base + size <= |mem| && lo + n <= size
    ensures mem[base..base + size][lo..lo + n] == mem[base + lo..base + lo + n]
  {
    var part := mem[base..base + size];
    var inner, outer := part[lo..lo + n], mem[base + lo..base + lo + n];
    forall k | 0 <= k < n ensures inner[k] == outer[k] {
      assert part[lo + k] == mem[base + (lo + k)];
    }
  }

  lemma {:induction false} EntryChanged(fields: seq<Field>, a: seq<byte>, b: seq<byte>, base: nat, size: nat, p: nat)
    requires base + size <= |a| && p < |fields| && InStruct(fields, p, size)
    requires OnlyAt(fields[p], a, b, base + DataAt(fields, p), base + CellAt(fields, p))
    ensures SameOutside(a, b, base, base + size)
    ensures OnlyEntry(fields, a[base..base + size], b[base..base + size], p)
  {
  }

  // ----- defaults

  ghost predicate DefaultHeld(fields: seq<Field>, bytes: seq<byte>, i: nat)
    requires Laid(fields, |bytes|) && i < |fields|
  {
    HoldsEntry(fields, bytes, i, DefaultSlot(fields[i]))
  }

  /** Initialising entry n leaves the entries before it initialised, union mates included. */
  lemma DefaultStored(fields: seq<Field>, a: seq<byte>, b: seq<byte>, n: nat, i: nat)
    requires Laid(fields, |a|) && i < n < |fields| && OnlyEntry(fields, a, b, n)
    requires DefaultHeld(fields, a, i) && DefaultHeld(fields, b, n)
    ensures DefaultHeld(fields, b, i)
  {
    if SlotOf(fields, i) != SlotOf(fields, n) {
      EntryKept(fields, a, b, n, i, DefaultSlot(fields[i]));
    } else {
      SameCell(fields, b, i, n);
      assert fields[i] in fields;
      MateHolds(fields, b, i, n, DefaultSlot(fields[n]));
    }
  }

  ghost predicate HeldUpTo(fields: seq<Field>, bytes: seq<byte>, n: nat)
    requires Laid(fields, |bytes|) && n <= |fields|
  {
    forall i :: 0 <= i < n ==> DefaultHeld(fields, bytes, i)
  }

  lemma NextHeld(fields: seq<Field>, a: seq<byte>, b: seq<byte>, n: nat)
    requires Laid(fields, |a|) && n < |fields| && OnlyEntry(fields, a, b, n)
    requires HeldUpTo(fields, a, n) && DefaultHeld(fields, b, n)
    ensures HeldUpTo(fields, b, n + 1)
  {
    forall i | 0 <= i < n + 1 ensures DefaultHeld(fields, b, i) {
      if i < n { DefaultStored(fields, a, b, n, i); }
    }
  }

  /** The contents of arrays and unions are not initialised, at any depth. */
  ghost predicate ArraysKept(fields: seq<Field>, a: seq<byte>, b: seq<byte>)
    requires Laid(fields, |a|) && |a| == |b|
    decreases fields, 2
  {
    forall i :: 0 <= i < |fields| ==> ArrayKept(fields, a, b, i)
  }

  ghost predicate ArrayKept(fields: seq<Field>, a: seq<byte>, b: seq<byte>, i: nat)
    requires Laid(fields, |a|) && |a| == |b| && i < |fields|
    decreases fields, 1
  {
    assert InStruct(fields, i, |a|) && fields[i] in fields;
    ContentKept(fields[i], DataBytes(fields, a, i), DataBytes(fields, b, i))
  }

  ghost predicate ContentKept(f: Field, x: seq<byte>, y: seq<byte>)
    requires LaidField(f) && |x| == |y| == MemberSize(f)
    decreases f, 1
  {
    match f.htype
    case Required => ItemKept(f, x, y)
    case Optional => ItemKept(f, x, y)
    case Repeated => x == y
    case Oneof => x == y
  }

  ghost predicate ItemKept(f: Field, x: seq<byte>, y: seq<byte>)
    requires LaidField(f) && |x| == |y| == f.dataSize
    decreases f, 0
  {
    f.ltype.LSubmessage? ==> ArraysKept(f.ltype.fields, x, y)
  }

  lemma {:induction false} ArraysSame(fields: seq<Field>, a: seq<byte>)
    requires Laid(fields, |a|)
    ensures ArraysKept(fields, a, a)
    decreases fields, 1
  {
    forall i | 0 <= i < |fields| ensures ArrayKept(fields, a, a, i) {
      assert InStruct(fields, i, |a|) && fields[i] in fields;
      ContentSame(fields[i], DataBytes(fields, a, i));
    }
  }

  lemma {:induction false} ContentSame(f: Field, x: seq<byte>)
    requires LaidField(f) && |x| == MemberSize(f)
    ensures ContentKept(f, x, x)
    decreases f, 0
  {
    if f.ltype.LSubmessage? && !f.htype.Repeated? && !f.htype.Oneof? { ArraysSame(f.ltype.fields, x); }
  }

  lemma {:induction false} ArraysKeptStep(fields: seq<Field>, a: seq<byte>, b: seq<byte>, p: nat)
    requires Laid(fields, |a|) && p < |fields| && OnlyEntry(fields, a, b, p) && ArrayKept(fields, a, b, p)
    ensures ArraysKept(fields, a, b)
  {
    forall i | 0 <= i < |fields| ensures ArrayKept(fields, a, b, i) {
      if i != p && SlotOf(fields, i) == SlotOf(fields, p) {
        MateKept(fields, a, b, p, i);
      } else if i != p {
        OtherKept(fields, a, b, p, i);
      }
    }
  }

  lemma {:induction false} OtherKept(fields: seq<Field>, a: seq<byte>, b: seq<byte>, p: nat, i: nat)
    requires Laid(fields, |a|) && p < |fields| && i < |fields| && OnlyEntry(fields, a, b, p)
    requires SlotOf(fields, i) != SlotOf(fields, p)
    ensures ArrayKept(fields, a, b, i)
  {
    assert InStruct(fields, i, |a|) && fields[i] in fields;
    EntryBytesKept(fields, a, b, p, i);
    ContentSame(fields[i], DataBytes(fields, a, i));
  }

  lemma {:induction false} MateKept(fields: seq<Field>, a: seq<byte>, b: seq<byte>, p: nat, i: nat)
    requires Laid(fields, |a|) && p < |fields| && i < |fields| && i != p && OnlyEntry(fields, a, b, p)
    requires SlotOf(fields, i) == SlotOf(fields, p) && ArrayKept(fields, a, b, p)
    ensures ArrayKept(fields, a, b, i)
  {
    assert InStruct(fields, i, |a|) && fields[i] in fields;
    SameCell(fields, a, i, p);
    if i < p { SharedBytes(fields, i, p); } else { SharedBytes(fields, p, i); }
    var d, m, n := DataAt(fields, p), MemberSize(fields[p]), MemberSize(fields[i]);
    var x, y := DataBytes(fields, a, i), DataBytes(fields, b, i);
    forall k | 0 <= k < n ensures x[k] == y[k] {
      if k < m {
        assert DataBytes(fields, a, p)[k] == DataBytes(fields, b, p)[k];
      } else {
        assert a[d + k] == b[d + k];
      }
    }
  }

  lemma {:induction false} ArraysKeptTrans(fields: seq<Field>, a: seq<byte>, b: seq<byte>, c: seq<byte>)
    requires Laid(fields, |a|) && |a| == |b| == |c| && ArraysKept(fields, a, b) && ArraysKept(fields, b, c)
    ensures ArraysKept(fields, a, c)
    decreases fields, 1
  {
    forall i | 0 <= i < |fields| ensures ArrayKept(fields, a, c, i) {
      assert InStruct(fields, i, |a|) && fields[i] in fields;
      assert ArrayKept(fields, a, b, i) && ArrayKept(fields, b, c, i);
      ContentKeptTrans(fields[i], DataBytes(fields, a, i), DataBytes(fields, b, i), DataBytes(fields, c, i));
    }
  }

  lemma {:induction false} ContentKeptTrans(f: Field, x: seq<byte>, y: seq<byte>, z: seq<byte>)
    requires LaidField(f) && |x| == |y| == |z| == MemberSize(f) && ContentKept(f, x, y) && ContentKept(f, y, z)
    ensures ContentKept(f, x, z)
    decreases f, 0
  {
    if f.ltype.LSubmessage? && !f.htype.Repeated? && !f.htype.Oneof? { ArraysKeptTrans(f.ltype.fields, x, y, z); }
  }

  lemma AllDefaults(fields: seq<Field>, bytes: seq<byte>)
    requires Laid(fields, |bytes|) && HeldUpTo(fields, bytes, |fields|)
    ensures HoldsAll(fields, bytes, Defaults(fields))
  {
    var msg := Defaults(fields);
    forall i | 0 <= i < |fields| ensures HoldsAt(fields, bytes, msg, i) {
      DefaultsAt(fields, i);
      assert DefaultHeld(fields, bytes, i);
    }
    assert HoldsAll(fields, bytes, msg);
  }

  /** The data part of pb_field_set_to_default. */
  method ItemDefaultAt(f: Field, mem: array<byte>, dest: nat)
    requires LaidField(f) && dest + f.dataSize <= mem.Length
    modifies mem
    ensures SameOutside(old(mem[..]), mem[..], dest, dest + f.dataSize)
    ensures Holds(f, mem[dest..dest + f.dataSize], DefaultItem(f))
    ensures ItemKept(f, old(mem[dest..dest + f.dataSize]), mem[dest..dest + f.dataSize])
    decreases f, 0
  {
    if f.ltype.LSubmessage? {
      SetDefaultsAt(f.ltype.fields, f.dataSize, mem, dest);
    } else {
      Store(mem, dest, DefaultImage(f));
      ImageHolds(f);
    }
  }

  /** The same of the member at an address. */
  ghost predicate ContentKeptAt(f: Field, a: seq<byte>, b: seq<byte>, data: nat)
    requires LaidField(f) && data + MemberSize(f) <= |a| == |b|
  {
    ContentKept(f, a[data..data + MemberSize(f)], b[data..data + MemberSize(f)])
  }

  /** pb_field_set_to_default. */
  method FieldDefaultAt(f: Field, mem: array<byte>, data: nat, cell: int)
    requires LaidField(f) && RoomFor(f, mem.Length, data, cell)
    modifies mem
    ensures OnlyAt(f, old(mem[..]), mem[..], data, cell)
    ensures MemHolds(f, mem[..], data, cell, DefaultSlot(f))
    ensures InitSlot(f, mem[data..data + MemberSize(f)], CellPart(mem[..], cell, CellSize(f)))
    ensures ContentKeptAt(f, old(mem[..]), mem[..], data)
    ensures f.htype.Repeated? || f.htype.Oneof? ==> mem[data..data + MemberSize(f)] == old(mem[data..data + MemberSize(f)])
    decreases f, 2
  {
    ghost var was, n := mem[..], MemberSize(f);
    assert was[data..data + n] == mem[data..data + n];
    if f.htype.Repeated? || f.htype.Oneof? {
      ClearCell(f, mem, data, cell);
    } else {
      SingularDefaultAt(f, mem, data, cell);
    }
    assert mem[..][data..data + n] == mem[data..data + n];
    HoldsInitSlot(f, mem[data..data + n], CellPart(mem[..], cell, CellSize(f)));
  }

  /** REPEATED and ONEOF: the cell is cleared, the content stays as it is. */
  method ClearCell(f: Field, mem: array<byte>, data: nat, cell: int)
    requires LaidField(f) && RoomFor(f, mem.Length, data, cell) && (f.htype.Repeated? || f.htype.Oneof?)
    modifies mem
    ensures OnlyAt(f, old(mem[..]), mem[..], data, cell)
    ensures MemHolds(f, mem[..], data, cell, DefaultSlot(f))
    ensures mem[data..data + MemberSize(f)] == old(mem[data..data + MemberSize(f)])
  {
    ghost var was := mem[..];
    assert was[data..data + MemberSize(f)] == mem[data..data + MemberSize(f)];
    StoreSize(mem, cell, 0);
    PartKept(was, mem[..], cell, cell + SIZE_CELL, data, MemberSize(f));
    assert mem[..][data..data + MemberSize(f)] == mem[data..data + MemberSize(f)];
    NothingHeld(f, mem[..], data, cell);
  }

  lemma {:induction false} NothingHeld(f: Field, mem: seq<byte>, data: int, cell: int)
    requires LaidField(f) && RoomFor(f, |mem|, data, cell) && (f.htype.Repeated? || f.htype.Oneof?) && SizeAt(mem, cell) == 0
    ensures MemHolds(f, mem, data, cell, DefaultSlot(f))
  {
    if f.htype.Repeated? { assert HoldsItems(f, mem[data..data + MemberSize(f)], []); }
  }

  /** REQUIRED and OPTIONAL: has_ is false, the content is initialised all the same. */
  method SingularDefaultAt(f: Field, mem: array<byte>, data: nat, cell: int)
    requires LaidField(f) && RoomFor(f, mem.Length, data, cell) && (f.htype.Required? || f.htype.Optional?)
    modifies mem
    ensures OnlyAt(f, old(mem[..]), mem[..], data, cell)
    ensures MemHolds(f, mem[..], data, cell, DefaultSlot(f))
    ensures ItemKept(f, old(mem[data..data + f.dataSize]), mem[data..data + f.dataSize])
    decreases f, 1
  {
    ghost var was := mem[..];
    assert was[data..data + f.dataSize] == mem[data..data + f.dataSize];
    if f.htype.Optional? && f.sizeOffset != 0 {
      Store(mem, cell, [0]);
      PartKept(was, mem[..], cell, cell + 1, data, f.dataSize);
    }
    ghost var mid := mem[..];
    assert mid[data..data + f.dataSize] == mem[data..data + f.dataSize];
    ItemDefaultAt(f, mem, data);
    assert mem[..][data..data + f.dataSize] == mem[data..data + f.dataSize];
    if f.htype.Optional? && f.sizeOffset != 0 {
      PartKept(mid, mem[..], data, data + f.dataSize, cell, 1);
    }
  }

  /** pb_message_set_to_defaults: nothing outside the struct changes, and its bytes represent the default message. */
  method SetDefaultsAt(fields: seq<Field>, size: nat, mem: array<byte>, base: nat)
    requires Laid(fields, size) && base + size <= mem.Length
    modifies mem
    ensures SameOutside(old(mem[..]), mem[..], base, base + size)
    ensures HoldsAll(fields, mem[base..base + size], Defaults(fields))
    ensures InitAll(fields, mem[base..base + size])
    ensures ArraysKept(fields, old(mem[base..base + size]), mem[base..base + size])
    decreases fields, 1
  {
    if fields == [] {
      return;
    }
    var iter := new FieldIter(fields, base);
    var more := true;
    ghost var n := 0;
    ArraysSame(fields, mem[base..base + size]);
    while more
      invariant iter.start == fields && iter.destStruct == base && iter.Valid() && fresh(iter)
      invariant 0 <= n <= |fields| && if more then n == iter.pos < |fields| else n == |fields|
      invariant SameOutside(old(mem[..]), mem[..], base, base + size)
      invariant HeldUpTo(fields, mem[base..base + size], n)
      invariant ArraysKept(fields, old(mem[base..base + size]), mem[base..base + size])
      decreases |fields| - n, more
    {
      ghost var before := mem[base..base + size];
      EntryDefaultAt(iter, size, mem, base);
      ArraysKeptTrans(fields, old(mem[base..base + size]), before, mem[base..base + size]);
      n := n + 1;
      more := iter.Next();
    }
    AllDefaults(fields, mem[base..base + size]);
    HoldsInit(fields, mem[base..base + size]);
  }

  /** One turn of its loop. */
  method EntryDefaultAt(iter: FieldIter, size: nat, mem: array<byte>, base: nat)
    requires iter.Valid() && iter.start != [] && iter.destStruct == base && Laid(iter.start, size) && base + size <= mem.Length
    requires HeldUpTo(iter.start, mem[base..base + size], iter.pos)
    modifies mem
    ensures SameOutside(old(mem[..]), mem[..], base, base + size)
    ensures HeldUpTo(iter.start, mem[base..base + size], iter.pos + 1)
    ensures ArraysKept(iter.start, old(mem[base..base + size]), mem[base..base + size])
    decreases iter.start, 0
  {
    var fields, p := iter.start, iter.pos;
    ghost var was := mem[..];
    assert InStruct(fields, p, size) && fields[p] in fields;
    assert was[base..base + size] == mem[base..base + size];
    EntryPart(fields, was, base, size, p);
    FieldDefaultAt(fields[p], mem, iter.pData, iter.pSize);
    assert mem[..][base..base + size] == mem[base..base + size];
    EntryDefaultDone(fields, was, mem[..], base, size, p, iter.pData, iter.pSize);
  }

  lemma {:induction false} EntryDefaultDone(fields: seq<Field>, a: seq<byte>, b: seq<byte>, base: nat, size: nat, p: nat, d: nat,
                                            c: int)
    requires Laid(fields, size) && base + size <= |a| == |b| && p < |fields| && LaidField(fields[p])
    requires d == base + DataAt(fields, p) && c == base + CellAt(fields, p) && RoomFor(fields[p], |a|, d, c)
    requires HeldUpTo(fields, a[base..base + size], p) && OnlyAt(fields[p], a, b, d, c)
    requires MemHolds(fields[p], b, d, c, DefaultSlot(fields[p]))
    requires ContentKeptAt(fields[p], a, b, d)
    ensures SameOutside(a, b, base, base + size)
    ensures HeldUpTo(fields, b[base..base + size], p + 1) && ArraysKept(fields, a[base..base + size], b[base..base + size])
  {
    assert InStruct(fields, p, size);
    EntryPart(fields, a, base, size, p);
    EntryPart(fields, b, base, size, p);
    EntryChanged(fields, a, b, base, size, p);
    NextHeld(fields, a[base..base + size], b[base..base + size], p);
    ArraysKeptStep(fields, a[base..base + size], b[base..base + size], p);
  }

  // ----- arrays

  /** The bytes of the array and its count represent the items. */
  ghost predicate ArrayHolds(f: Field, mem: seq<byte>, data: int, cell: int, items: seq<Item>)
    requires LaidField(f) && f.htype.Repeated? && RoomFor(f, |mem|, data, cell)
  {
    MemHolds(f, mem, data, cell, Arr(items))
  }

  /** Only the array and its count changed, and the count grew, but not past array_size. */
  ghost predicate ArrayStep(f: Field, a: seq<byte>, b: seq<byte>, data: int, cell: int)
    requires f.htype.Repeated? && RoomFor(f, |a|, data, cell)
  {
    && OnlyAt(f, a, b, data, cell)
    && SizeAt(a, cell) <= SizeAt(b, cell)
    && (SizeAt(a, cell) <= f.arraySize ==> SizeAt(b, cell) <= f.arraySize)
  }

  lemma ArrayStepTrans(f: Field, a: seq<byte>, b: seq<byte>, c: seq<byte>, data: int, cell: int)
    requires f.htype.Repeated? && RoomFor(f, |a|, data, cell) && |a| == |b|
    requires ArrayStep(f, a, b, data, cell) && ArrayStep(f, b, c, data, cell)
    ensures ArrayStep(f, a, c, data, cell)
  {
  }

  /** A change inside entry n leaves the count and the other entries alone. */
  lemma {:induction false} NthStep(f: Field, a: seq<byte>, b: seq<byte>, data: nat, cell: int, n: nat)
    requires f.htype.Repeated? && RoomFor(f, |a|, data, cell) && n < f.arraySize
    requires SameOutside(a, b, data + f.dataSize * n, data + f.dataSize * n + f.dataSize)
    ensures ArrayStep(f, a, b, data, cell) && SizeAt(b, cell) == SizeAt(a, cell)
    ensures OnlyNth(f, a[data..data + MemberSize(f)], b[data..data + MemberSize(f)], n)
  {
    ItemInside(f.dataSize, n, f.arraySize);
    PartKept(a, b, data + f.dataSize * n, data + f.dataSize * n + f.dataSize, cell, SIZE_CELL);
  }

  /** An entry decoded at the end of the array. */
  lemma {:induction false} NthStored(f: Field, a: seq<byte>, b: seq<byte>, data: nat, cell: int, items: seq<Item>, item: Item,
                                     at: nat)
    requires LaidField(f) && f.htype.Repeated? && RoomFor(f, |a|, data, cell) && |items| < f.arraySize
    requires HoldsItems(f, a[data..data + MemberSize(f)], items)
    requires at == data + f.dataSize * |items| && at + f.dataSize <= |b| && SameOutside(a, b, at, at + f.dataSize)
    requires Holds(f, b[at..at + f.dataSize], item)
    ensures HoldsItems(f, b[data..data + MemberSize(f)], items + [item])
  {
    NthStep(f, a, b, data, cell, |items|);
    NthAt(f, b, data, |items|);
    ItemAppended(f, a[data..data + MemberSize(f)], b[data..data + MemberSize(f)], items, item);
  }

  /** Array entry n is at its address. */
  lemma {:induction false} NthAt(f: Field, mem: seq<byte>, data: nat, n: nat)
    requires f.htype.Repeated? && data + MemberSize(f) <= |mem| && n < f.arraySize
    ensures data + f.dataSize * n + f.dataSize <= |mem|
    ensures Nth(f, mem[data..data + MemberSize(f)], n) == mem[data + f.dataSize * n..data + f.dataSize * n + f.dataSize]
  {
    ItemInside(f.dataSize, n, f.arraySize);
    SubPart(mem, data, MemberSize(f), f.dataSize * n, f.dataSize);
  }

  /** (*size)++ */
  method BumpCount(f: Field, mem: array<byte>, data: int, cell: int)
    requires f.htype.Repeated? && RoomFor(f, mem.Length, data, cell) && f.arraySize < TWO_32
    requires SizeAt(mem[..], cell) < f.arraySize
    modifies mem
    ensures ArrayStep(f, old(mem[..]), mem[..], data, cell)
    ensures SizeAt(mem[..], cell) == old(SizeAt(mem[..], cell)) + 1
    ensures mem[data..data + MemberSize(f)] == old(mem[data..data + MemberSize(f)])
  {
    ghost var was := mem[..];
    StoreSize(mem, cell, SizeAt(mem[..], cell) + 1);
    PartKept(was, mem[..], cell, cell + SIZE_CELL, data, MemberSize(f));
    assert mem[..][data..data + MemberSize(f)] == mem[data..data + MemberSize(f)];
  }

  /** One entry of a packed run: decoded behind the last one, then counted. */
  method DecodeEntryAt(sub: IStream, f: Field, mem: array<byte>, data: nat, cell: int, n: nat, ghost items: seq<Item>,
                       ghost known: bool)
    returns (ok: bool)
    requires sub.Valid() && Packable(f.ltype) && f.htype.Repeated? && LaidField(f) && RoomFor(f, mem.Length, data, cell)
    requires n == SizeAt(mem[..], cell) < f.arraySize && (known ==> ArrayHolds(f, mem[..], data, cell, items))
    modifies sub, mem
    ensures sub.Valid() && sub.End() == old(sub.End())
    ensures ArrayStep(f, old(mem[..]), mem[..], data, cell)
    ensures ok == ReadScalar(f, old(sub.Rem())).Done?
    ensures ok ==> sub.Rem() == ReadScalar(f, old(sub.Rem())).rest && SizeAt(mem[..], cell) == n + 1
    ensures ok && known ==> ArrayHolds(f, mem[..], data, cell, items + [ReadScalar(f, old(sub.Rem())).value])
  {
    ghost var was, s := mem[..], sub.Rem();
    ItemInside(f.dataSize, n, f.arraySize);
    var at := data + f.dataSize * n;
    ok := DecLeafAt(sub, f, mem, at);
    ghost var mid := mem[..];
    NthStep(f, was, mid, data, cell, n);
    if ok {
      assert mid[at..at + f.dataSize] == mem[at..at + f.dataSize];
      if known {
        NthStored(f, was, mid, data, cell, items, ReadScalar(f, s).value, at);
      }
      assert mid[data..data + MemberSize(f)] == mem[data..data + MemberSize(f)];
      CountItem(f, mem, data, cell, items + [ReadScalar(f, s).value], known);
      ArrayStepTrans(f, was, mid, mem[..], data, cell);
    }
  }

  /** Counting an item that is already there. */
  method CountItem(f: Field, mem: array<byte>, data: int, cell: int, ghost items: seq<Item>, ghost known: bool)
    requires LaidField(f) && f.htype.Repeated? && RoomFor(f, mem.Length, data, cell) && SizeAt(mem[..], cell) < f.arraySize
    requires known ==> |items| == SizeAt(mem[..], cell) + 1 && HoldsItems(f, mem[data..data + MemberSize(f)], items)
    modifies mem
    ensures ArrayStep(f, old(mem[..]), mem[..], data, cell)
    ensures SizeAt(mem[..], cell) == old(SizeAt(mem[..], cell)) + 1
    ensures known ==> ArrayHolds(f, mem[..], data, cell, items)
  {
    BumpCount(f, mem, data, cell);
    assert mem[..][data..data + MemberSize(f)] == mem[data..data + MemberSize(f)];
  }

  /** The packed loop: item n goes to pData + data_size * n, for n below array_size only. */
  method DecodePackedAt(sub: IStream, f: Field, mem: array<byte>, data: nat, cell: int, ghost have: seq<Item>,
                        ghost known: bool)
    returns (ok: bool)
    requires sub.Valid() && Packable(f.ltype) && f.htype.Repeated? && LaidField(f) && RoomFor(f, mem.Length, data, cell)
    requires known ==> ArrayHolds(f, mem[..], data, cell, have)
    modifies sub, mem
    ensures sub.Valid() && sub.End() == old(sub.End())
    ensures ArrayStep(f, old(mem[..]), mem[..], data, cell)
    ensures known ==> ((ok && sub.bytesLeft == 0) == ReadPacked(f, have, old(sub.Rem())).Some?)
    ensures known && ok && sub.bytesLeft == 0 ==> ArrayHolds(f, mem[..], data, cell, ReadPacked(f, have, old(sub.Rem())).value)
  {
    ghost var was, s, items := mem[..], sub.Rem(), have;
    ok := true;
    var n := SizeAt(mem[..], cell);
    while ok && sub.bytesLeft > 0 && n < f.arraySize
      invariant sub.Valid() && sub.End() == old(sub.End())
      invariant ArrayStep(f, was, mem[..], data, cell) && (ok ==> n == SizeAt(mem[..], cell))
      invariant ok && known ==> ArrayHolds(f, mem[..], data, cell, items)
      invariant ok && known ==> ReadPacked(f, have, s) == ReadPacked(f, items, sub.Rem())
      invariant !ok && known ==> ReadPacked(f, have, s).None?
      decreases if ok then 1 + sub.bytesLeft else 0
    {
      ghost var before, rem := mem[..], sub.Rem();
      ok := DecodeEntryAt(sub, f, mem, data, cell, n, items, known);
      ArrayStepTrans(f, was, before, mem[..], data, cell);
      if ok {
        items := items + [ReadScalar(f, rem).value];
        n := n + 1;
      }
    }
  }
}
