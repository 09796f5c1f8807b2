/**
 Struct memory: where the entries of a descriptor lie, and which bytes represent which message.
 The relation is stated on the struct's own bytes, so it cannot depend on anything outside the struct.
 */
module StructLayout {
  import opened Words
  import opened Scalars
  import opened Descriptor
  import opened FieldIterator
  import opened RequiredBits

  const SIZE_CELL := 4  // sizeof(pb_size_t)

  // ----- layout

  /** Bytes of the has_ (bool) or count/which_ (pb_size_t) cell. */
  function CellSize(f: Field): nat {
    match f.htype
    case Required => 0
    case Optional => if f.sizeOffset != 0 then 1 else 0
    case Repeated | Oneof => SIZE_CELL
  }

  /** Two byte ranges do not overlap. */
  predicate Disjoint(lo: int, n: nat, lo2: int, n2: nat) {
    n == 0 || n2 == 0 || lo + n <= lo2 || lo2 + n2 <= lo
  }

  /** Entry i's data and cell lie inside a struct of `size` bytes and do not overlap each other. */
  ghost predicate InStruct(fields: seq<Field>, i: nat, size: nat)
    requires i < |fields|
  {
    var f, d, c := fields[i], DataAt(fields, i), CellAt(fields, i);
    && 0 <= d && d + MemberSize(f) <= size
    && (CellSize(f) > 0 ==> 0 <= c && c + CellSize(f) <= size && (c + CellSize(f) <= d || d + MemberSize(f) <= c))
  }

  /** Entries in different slots occupy different bytes. */
  ghost predicate Apart(fields: seq<Field>, i: nat, j: nat)
    requires i < |fields| && j < |fields|
  {
    SlotOf(fields, i) == SlotOf(fields, j) || SeparateBytes(fields, i, j)
  }

  ghost predicate SeparateBytes(fields: seq<Field>, i: nat, j: nat)
    requires i < |fields| && j < |fields|
  {
    var d, c, m, k := DataAt(fields, i), CellAt(fields, i), MemberSize(fields[i]), CellSize(fields[i]);
    var e, b, n, l := DataAt(fields, j), CellAt(fields, j), MemberSize(fields[j]), CellSize(fields[j]);
    Disjoint(d, m, e, n) && Disjoint(d, m, b, l) && Disjoint(c, k, e, n) && Disjoint(c, k, b, l)
  }

  /** The descriptor describes a struct of `size` bytes, and so does every submessage descriptor in it. */
  ghost predicate Laid(fields: seq<Field>, size: nat)
    decreases fields, 1
  {
    && (forall i :: 0 <= i < |fields| ==> InStruct(fields, i, size))
    && (forall i, j :: 0 <= i < |fields| && 0 <= j < |fields| ==> Apart(fields, i, j))
    && (forall f :: f in fields ==> LaidField(f))
    && CellsTrue(fields)
  }

  /** The decoder's cell, which is not recomputed inside a union, is the one the encoder finds by the entry's own offset. */
  ghost predicate CellsTrue(fields: seq<Field>) {
    forall i :: 0 <= i < |fields| ==> CellTrue(fields, i)
  }

  ghost predicate CellTrue(fields: seq<Field>, i: nat)
    requires i < |fields|
  {
    CellSize(fields[i]) > 0 ==>
      fields[i].sizeOffset != 0 && CellAt(fields, i) == DataAt(fields, i) + fields[i].sizeOffset
  }

  /** data_size suits the type, and a default value fits it. */
  ghost predicate LaidField(f: Field)
    decreases f, 0
  {
    && 1 <= f.tag < TWO_32 && f.arraySize < TWO_32 && f.dataSize < TWO_32
    && (match f.ltype
        case LVarint | LUVarint | LSVarint => ValidWidth(f.dataSize)
        case LFixed32 => f.dataSize == 4
        case LFixed64 => f.dataSize == 8
        case LBytes => f.dataSize >= BYTES_HEADER
        case LString => f.dataSize >= 1
        case LFixedLengthBytes => true
        case LSubmessage(sub) => Laid(sub, f.dataSize))
    && (f.init.Some? && !f.ltype.LSubmessage? ==> FitsItem(f, f.init.value))
  }

  /** Member i and its cell lie inside the struct the descriptor was generated from, apart from each other. */
  ghost predicate Placed(fields: seq<Field>, l: Layout, i: nat, size: nat)
    requires Describes(fields, l) && i < |fields|
  {
    var n, d, c, k := MemberSize(fields[i]), l.data[i], l.cell[i], CellSize(fields[i]);
    d + n <= size && (k > 0 ==> 0 <= c && c + k <= size && c != d && (c + k <= d || d + n <= c))
  }

  ghost predicate PlacedApart(fields: seq<Field>, l: Layout, i: nat, j: nat)
    requires Describes(fields, l) && i < |fields| && j < |fields|
  {
    var d, m, c, k := l.data[i], MemberSize(fields[i]), l.cell[i], CellSize(fields[i]);
    var e, n, b, h := l.data[j], MemberSize(fields[j]), l.cell[j], CellSize(fields[j]);
    SlotOf(fields, i) == SlotOf(fields, j) ||
    (Disjoint(d, m, e, n) && Disjoint(d, m, b, h) && Disjoint(c, k, e, n) && Disjoint(c, k, b, h))
  }

  /** The descriptor the macros generate for a struct is laid out in it exactly if its members are in bounds and apart. */
  lemma {:induction false} GeneratedIsLaid(fields: seq<Field>, l: Layout, size: nat)
    requires Describes(fields, l) && forall f :: f in fields ==> LaidField(f)
    ensures Laid(fields, size) <==>
            && (forall i :: 0 <= i < |fields| ==> Placed(fields, l, i, size))
            && (forall i, j :: 0 <= i < |fields| && 0 <= j < |fields| ==> PlacedApart(fields, l, i, j))
  {
    forall i | 0 <= i < |fields| ensures Placed(fields, l, i, size) <==> InStruct(fields, i, size) && CellTrue(fields, i) {
      PointersAreTrue(fields, l, i);
      assert Generated(fields, l, i);
    }
    forall i, j | 0 <= i < |fields| && 0 <= j < |fields| ensures PlacedApart(fields, l, i, j) <==> Apart(fields, i, j) {
      PointersAreTrue(fields, l, i);
      PointersAreTrue(fields, l, j);
    }
  }

  /** Union members start at the same byte and share their which_ cell. */
  lemma {:induction false} SharedBytes(fields: seq<Field>, i: nat, j: nat)
    requires i <= j < |fields| && SlotOf(fields, i) == SlotOf(fields, j)
    ensures CellAt(fields, i) == CellAt(fields, j) && DataAt(fields, i) == DataAt(fields, j)
    decreases j
  {
    if i < j {
      SlotMonotone(fields, i, j - 1);
      SharedBytes(fields, i, j - 1);
    }
  }

  // ----- what bytes represent

  /** The bytes of one data cell represent the item. */
  ghost predicate Holds(f: Field, bytes: seq<byte>, item: Item)
    requires LaidField(f) && |bytes| == f.dataSize
    decreases item, 0
  {
    match f.ltype
    case LVarint | LSVarint =>
      item.Int? && FitsSigned(f.dataSize, item.v) && bytes == LittleEndian(item.v % TWO_64, f.dataSize)
    case LUVarint =>
      item.Int? && FitsUnsigned(f.dataSize, item.v) && bytes == LittleEndian(item.v, f.dataSize)
    case LFixed32 => item.Int? && item.v == FromLittleEndian(bytes)
    case LFixed64 => item.Int? && item.v == FromLittleEndian(bytes)
    case LBytes => item.Blob? && HoldsBytes(bytes, item.bytes)
    case LString => item.Text? && HoldsText(bytes, item.bytes)
    case LFixedLengthBytes => item.Blob? && bytes == item.bytes
    case LSubmessage(sub) => item.Msg? && HoldsAll(sub, bytes, item.slots)
  }

  /** pb_bytes_array_t: a size word, then the content. */
  ghost predicate HoldsBytes(bytes: seq<byte>, content: seq<byte>) {
    && BYTES_HEADER + |content| <= |bytes|
    && FromLittleEndian(bytes[..BYTES_HEADER]) == |content|
    && bytes[BYTES_HEADER..BYTES_HEADER + |content|] == content
  }

  /** A char array: the content and, if there is room, its terminator. */
  ghost predicate HoldsText(bytes: seq<byte>, content: seq<byte>) {
    && |content| <= |bytes|
    && bytes[..|content|] == content
    && (|content| < |bytes| ==> bytes[|content|] == 0)
  }

  /** Item n of an array lies inside the member. */
  lemma {:induction false} ItemInside(size: nat, n: nat, max: nat)
    requires n < max
    ensures 0 <= size * n && size * n + size <= size * max
    decreases max
  {
    assert size * max == size * (max - 1) + size;
    if n < max - 1 { ItemInside(size, n, max - 1); }
  }

  /** The bytes of array entry n. */
  function Nth(f: Field, data: seq<byte>, n: nat): (bytes: seq<byte>)
    requires |data| == f.dataSize * f.arraySize && n < f.arraySize
    ensures |bytes| == f.dataSize
  {
    ItemInside(f.dataSize, n, f.arraySize);
    data[f.dataSize * n..f.dataSize * n + f.dataSize]
  }

  ghost predicate HoldsNth(f: Field, data: seq<byte>, n: nat, item: Item)
    requires LaidField(f) && |data| == f.dataSize * f.arraySize && n < f.arraySize
    decreases item, 1
  {
    Holds(f, Nth(f, data, n), item)
  }

  ghost predicate HoldsItems(f: Field, data: seq<byte>, items: seq<Item>)
    requires LaidField(f) && |data| == f.dataSize * f.arraySize
    decreases items, 2
  {
    |items| <= f.arraySize && forall n :: 0 <= n < |items| ==> HoldsNth(f, data, n, items[n])
  }

  /** The bytes of a member and of its cell represent the slot, seen from entry f. */
  ghost predicate HoldsSlot(f: Field, data: seq<byte>, cell: seq<byte>, slot: Slot)
    requires LaidField(f) && |data| == MemberSize(f) && |cell| == CellSize(f)
    decreases slot, 3
  {
    match f.htype
    case Required => slot.Single? && Holds(f, data, slot.item)
    case Optional =>
      if f.sizeOffset == 0 then slot.Single? && Holds(f, data, slot.item)
      else slot.Opt? && cell == [if slot.has then 1 else 0] && Holds(f, data, slot.item)
    case Repeated => slot.Arr? && FromLittleEndian(cell) == |slot.items| && HoldsItems(f, data, slot.items)
    case Oneof => slot.Union? && FromLittleEndian(cell) == slot.which && (slot.which == f.tag ==> Holds(f, data, slot.item))
  }

  function DataBytes(fields: seq<Field>, bytes: seq<byte>, i: nat): (r: seq<byte>)
    requires i < |fields| && InStruct(fields, i, |bytes|)
    ensures |r| == MemberSize(fields[i])
  {
    bytes[DataAt(fields, i)..DataAt(fields, i) + MemberSize(fields[i])]
  }

  function CellBytes(fields: seq<Field>, bytes: seq<byte>, i: nat): (r: seq<byte>)
    requires i < |fields| && InStruct(fields, i, |bytes|)
    ensures |r| == CellSize(fields[i])
  {
    if CellSize(fields[i]) == 0 then [] else bytes[CellAt(fields, i)..CellAt(fields, i) + CellSize(fields[i])]
  }

  ghost predicate HoldsEntry(fields: seq<Field>, bytes: seq<byte>, i: nat, slot: Slot)
    requires Laid(fields, |bytes|) && i < |fields|
    decreases slot, 4
  {
    assert InStruct(fields, i, |bytes|) && fields[i] in fields;
    HoldsSlot(fields[i], DataBytes(fields, bytes, i), CellBytes(fields, bytes, i), slot)
  }

  ghost predicate HoldsAt(fields: seq<Field>, bytes: seq<byte>, msg: seq<Slot>, i: nat)
    requires Laid(fields, |bytes|) && i < |fields|
    decreases msg, 5
  {
    SlotOf(fields, i) < |msg| && HoldsEntry(fields, bytes, i, msg[SlotOf(fields, i)])
  }

  /** The bytes of a struct represent the message. */
  ghost predicate HoldsAll(fields: seq<Field>, bytes: seq<byte>, msg: seq<Slot>)
    requires Laid(fields, |bytes|)
    decreases msg, 6
  {
    |msg| == SlotCount(fields) && forall i :: 0 <= i < |fields| ==> HoldsAt(fields, bytes, msg, i)
  }

  // ----- changing one entry

  /** Two structs that differ at most in entry p's data and cell. */
  ghost predicate OnlyEntry(fields: seq<Field>, a: seq<byte>, b: seq<byte>, p: nat)
    requires p < |fields|
  {
    var d, c := DataAt(fields, p), CellAt(fields, p);
    && |a| == |b|
    && forall k :: 0 <= k < |a| && !(d <= k < d + MemberSize(fields[p])) && !(c <= k < c + CellSize(fields[p])) ==> a[k] == b[k]
  }

  /** A range apart from both has the same bytes in both structs. */
  lemma RangeKept(fields: seq<Field>, a: seq<byte>, b: seq<byte>, p: nat, lo: nat, n: nat)
    requires p < |fields| && OnlyEntry(fields, a, b, p) && lo + n <= |a|
    requires Disjoint(lo, n, DataAt(fields, p), MemberSize(fields[p]))
    requires Disjoint(lo, n, CellAt(fields, p), CellSize(fields[p]))
    ensures a[lo..lo + n] == b[lo..lo + n]
  {
    var d, c, m, l := DataAt(fields, p), CellAt(fields, p), MemberSize(fields[p]), CellSize(fields[p]);
    forall k | lo <= k < lo + n ensures a[k] == b[k] {
      assert !(d <= k < d + m) && !(c <= k < c + l);
    }
  }

  lemma DataKept(fields: seq<Field>, a: seq<byte>, b: seq<byte>, p: nat, i: nat)
    requires p < |fields| && i < |fields| && OnlyEntry(fields, a, b, p)
    requires InStruct(fields, i, |a|) && SeparateBytes(fields, i, p)
    ensures DataBytes(fields, a, i) == DataBytes(fields, b, i)
  {
    RangeKept(fields, a, b, p, DataAt(fields, i), MemberSize(fields[i]));
  }

  lemma CellKept(fields: seq<Field>, a: seq<byte>, b: seq<byte>, p: nat, i: nat)
    requires p < |fields| && i < |fields| && OnlyEntry(fields, a, b, p)
    requires InStruct(fields, i, |a|) && SeparateBytes(fields, i, p)
    ensures CellBytes(fields, a, i) == CellBytes(fields, b, i)
  {
    if CellSize(fields[i]) > 0 {
      RangeKept(fields, a, b, p, CellAt(fields, i), CellSize(fields[i]));
    }
  }

  lemma EntryBytesKept(fields: seq<Field>, a: seq<byte>, b: seq<byte>, p: nat, i: nat)
    requires Laid(fields, |a|) && p < |fields| && i < |fields| && OnlyEntry(fields, a, b, p)
    requires SlotOf(fields, i) != SlotOf(fields, p)
    ensures InStruct(fields, i, |a|)
    ensures DataBytes(fields, a, i) == DataBytes(fields, b, i) && CellBytes(fields, a, i) == CellBytes(fields, b, i)
  {
    assert InStruct(fields, i, |a|) && Apart(fields, i, p);
    DataKept(fields, a, b, p, i);
    CellKept(fields, a, b, p, i);
  }

  /** Entries in other slots still represent what they did. */
  lemma {:induction false} EntryKept(fields: seq<Field>, a: seq<byte>, b: seq<byte>, p: nat, i: nat, slot: Slot)
    requires Laid(fields, |a|) && p < |fields| && i < |fields| && OnlyEntry(fields, a, b, p)
    requires SlotOf(fields, i) != SlotOf(fields, p) && HoldsEntry(fields, a, i, slot)
    ensures HoldsEntry(fields, b, i, slot)
  {
    EntryBytesKept(fields, a, b, p, i);
  }

  /** Union mates see the same which_ cell. */
  lemma SameCell(fields: seq<Field>, bytes: seq<byte>, i: nat, p: nat)
    requires Laid(fields, |bytes|) && i < |fields| && p < |fields| && i != p && SlotOf(fields, i) == SlotOf(fields, p)
    ensures fields[i].htype.Oneof? && fields[p].htype.Oneof?
    ensures InStruct(fields, i, |bytes|) && InStruct(fields, p, |bytes|)
    ensures CellBytes(fields, bytes, i) == CellBytes(fields, bytes, p)
  {
    if i < p {
      SharedSlot(fields, i, p);
      SharedBytes(fields, i, p);
    } else {
      SharedSlot(fields, p, i);
      SharedBytes(fields, p, i);
    }
  }

  /** A slot whose union names entry p is, for p's mates, a union that names another member. */
  lemma {:induction false} MateHolds(fields: seq<Field>, bytes: seq<byte>, i: nat, p: nat, slot: Slot)
    requires Laid(fields, |bytes|) && i < |fields| && p < |fields| && i != p && SlotOf(fields, i) == SlotOf(fields, p)
    requires HoldsEntry(fields, bytes, p, slot) && slot.Union? && slot.which != fields[i].tag
    ensures HoldsEntry(fields, bytes, i, slot)
  {
    SameCell(fields, bytes, i, p);
  }

  /** After entry p was changed to represent `slot`, the struct represents the message with that slot replaced. */
  lemma {:induction false} EntryStored(fields: seq<Field>, a: seq<byte>, b: seq<byte>, msg: seq<Slot>, p: nat, slot: Slot)
    requires Laid(fields, |a|) && DistinctTags(fields) && p < |fields| && OnlyEntry(fields, a, b, p)
    requires HoldsAll(fields, a, msg) && SlotOf(fields, p) < |msg|
    requires HoldsEntry(fields, b, p, slot) && (fields[p].htype.Oneof? ==> slot.Union? && slot.which == fields[p].tag)
    ensures HoldsAll(fields, b, msg[SlotOf(fields, p) := slot])
  {
    var next := msg[SlotOf(fields, p) := slot];
    forall i | 0 <= i < |fields| ensures HoldsAt(fields, b, next, i) {
      assert HoldsAt(fields, a, msg, i);
      if SlotOf(fields, i) != SlotOf(fields, p) {
        EntryKept(fields, a, b, p, i, msg[SlotOf(fields, i)]);
      } else if i != p {
        SameCell(fields, b, i, p);
        MateHolds(fields, b, i, p, slot);
      }
    }
    assert HoldsAll(fields, b, next);
  }

  // ----- changing one array entry

  /** Two arrays that differ at most in entry n. */
  ghost predicate OnlyNth(f: Field, a: seq<byte>, b: seq<byte>, n: nat) {
    && |a| == |b|
    && forall k :: 0 <= k < |a| && !(f.dataSize * n <= k < f.dataSize * n + f.dataSize) ==> a[k] == b[k]
  }

  /** All other entries are untouched by a change of entry n. */
  lemma NthKept(f: Field, a: seq<byte>, b: seq<byte>, n: nat, m: nat)
    requires |a| == |b| == f.dataSize * f.arraySize && m < f.arraySize && n < f.arraySize && m != n
    requires OnlyNth(f, a, b, n)
    ensures Nth(f, a, m) == Nth(f, b, m)
  {
    if m < n { ItemInside(f.dataSize, m, n); } else { ItemInside(f.dataSize, n, m); }
    ItemInside(f.dataSize, m, f.arraySize);
  }

  /** The entries from n on are the same. */
  ghost predicate TailKept(f: Field, a: seq<byte>, b: seq<byte>, n: nat)
    requires |a| == |b| == f.dataSize * f.arraySize
  {
    forall k :: n <= k < f.arraySize ==> Nth(f, a, k) == Nth(f, b, k)
  }

  /** Appending an entry. */
  lemma {:induction false} ItemAppended(f: Field, a: seq<byte>, b: seq<byte>, items: seq<Item>, item: Item)
    requires LaidField(f) && |a| == |b| == f.dataSize * f.arraySize && |items| < f.arraySize
    requires HoldsItems(f, a, items) && HoldsNth(f, b, |items|, item)
    requires OnlyNth(f, a, b, |items|)
    ensures HoldsItems(f, b, items + [item])
  {
    var next := items + [item];
    forall m | 0 <= m < |next| ensures HoldsNth(f, b, m, next[m]) {
      if m < |items| {
        OldItemKept(f, a, b, items, m);
      }
    }
  }

  lemma {:induction false} OldItemKept(f: Field, a: seq<byte>, b: seq<byte>, items: seq<Item>, m: nat)
    requires LaidField(f) && |a| == |b| == f.dataSize * f.arraySize && m < |items| < f.arraySize
    requires HoldsItems(f, a, items) && OnlyNth(f, a, b, |items|)
    ensures HoldsNth(f, b, m, items[m])
  {
    assert HoldsNth(f, a, m, items[m]);
    NthKept(f, a, b, |items|, m);
  }

  /** A union's which cell names the member it represents. */
  lemma {:induction false} HeldUnion(fields: seq<Field>, bytes: seq<byte>, i: nat, slot: Slot)
    requires Laid(fields, |bytes|) && i < |fields| && HoldsEntry(fields, bytes, i, slot) && fields[i].htype.Oneof?
    ensures InStruct(fields, i, |bytes|) && slot.Union? && FromLittleEndian(CellBytes(fields, bytes, i)) == slot.which
  {
    assert InStruct(fields, i, |bytes|) && fields[i] in fields;
  }

  // ----- default values as bytes

  function Pad(bs: seq<byte>, n: nat): (r: seq<byte>)
    ensures |r| == n
  {
    if |bs| >= n then bs[..n] else bs + Zeros(n - |bs|)
  }

  /** The bytes of an entry's default value: zeros, or the value its descriptor points to. */
  function DefaultImage(f: Field): (bs: seq<byte>)
    ensures |bs| == f.dataSize
  {
    match f.init
    case None => Zeros(f.dataSize)
    case Some(Int(v)) => LittleEndian(v % TWO_64, f.dataSize)
    case Some(Blob(content)) =>
      if f.ltype.LBytes? then Pad(LittleEndian(|content|, SIZE_CELL) + content, f.dataSize) else Pad(content, f.dataSize)
    case Some(Text(content)) => Pad(content, f.dataSize)
    case Some(Msg(_)) => Zeros(f.dataSize)
    case Some(Unset) => Zeros(f.dataSize)
  }

  lemma {:induction false} ZeroWord(n: nat)
    ensures LittleEndian(0, n) == Zeros(n) && FromLittleEndian(Zeros(n)) == 0
  {
    if n > 0 {
      ZeroWord(n - 1);
      assert Zeros(n)[1..] == Zeros(n - 1);
      assert Zeros(n) == [0] + Zeros(n - 1);
    }
  }

  lemma {:induction false} ZeroHolds(f: Field)
    requires LaidField(f) && !f.ltype.LSubmessage?
    ensures Holds(f, Zeros(f.dataSize), ZeroItem(f))
  {
    ZeroWord(f.dataSize);
    if f.ltype.LBytes? {
      ZeroWord(BYTES_HEADER);
      assert Zeros(f.dataSize)[..BYTES_HEADER] == Zeros(BYTES_HEADER);
    }
  }

  /** A size word followed by the content. */
  lemma {:induction false} BlobImage(content: seq<byte>, n: nat)
    requires |content| + BYTES_HEADER <= n < TWO_32
    ensures HoldsBytes(Pad(LittleEndian(|content|, SIZE_CELL) + content, n), content)
  {
    var word := LittleEndian(|content|, SIZE_CELL);
    SizeWord(|content|);
    assert Pad(word + content, n)[..BYTES_HEADER] == word;
  }

  /** A pb_size_t word. */
  lemma {:induction false} SizeWord(v: nat)
    requires v < TWO_32
    ensures FromLittleEndian(LittleEndian(v, SIZE_CELL)) == v
  {
    assert v < Pow256(SIZE_CELL) by { FixedWidths(); }
    LittleEndianRoundTrip(v, SIZE_CELL);
  }

  lemma {:induction false} FixedImage(v: int, n: nat)
    requires (n == 4 || n == 8) && FitsUnsigned(n, v)
    ensures FromLittleEndian(LittleEndian(v % TWO_64, n)) == v
  {
    assert v < Pow256(n) by { FixedWidths(); }
    assert v % TWO_64 == v;
    LittleEndianRoundTrip(v, n);
  }

  lemma UnsignedImage(v: int, n: nat)
    requires FitsUnsigned(n, v)
    ensures v >= 0 && LittleEndian(v % TWO_64, n) == LittleEndian(v, n)
  {
    assert v % TWO_64 == v;
  }

  /** The default's bytes represent the default. */
  lemma {:induction false} ImageHolds(f: Field)
    requires LaidField(f) && !f.ltype.LSubmessage?
    ensures Holds(f, DefaultImage(f), DefaultItem(f))
    ensures f.init.Some? ==> Holds(f, DefaultImage(f), f.init.value)
    ensures f.init.None? ==> DefaultImage(f) == Zeros(f.dataSize)
  {
    if f.init.None? {
      ZeroHolds(f);
    } else {
      match f.ltype
      case LVarint =>
      case LSVarint =>
      case LUVarint => UnsignedImage(f.init.value.v, f.dataSize);
      case LFixed32 => FixedImage(f.init.value.v, 4);
      case LFixed64 => FixedImage(f.init.value.v, 8);
      case LBytes => BlobImage(f.init.value.bytes, f.dataSize);
      case LString =>
      case LFixedLengthBytes =>
    }
  }

  // ----- what a C load of the cell yields

  /** The casts to intN_t. */
  function SignedOf(size: nat, x: int): int {
    match size
    case 1 => Signed8(x)
    case 2 => Signed16(x)
    case 4 => Signed32(x)
    case _ => Signed64(x)
  }

  lemma DigitMod(v: nat, p: nat)
    requires p > 0
    ensures 256 * p > 0 && v % 256 + 256 * ((v / 256) % p) == v % (256 * p)
  {
    var q, r := v / 256 / p, (v / 256) % p;
    var low := v % 256 + 256 * r;
    assert v == (256 * p) * q + low by {
      assert v / 256 == p * q + r;
      assert 256 * (p * q) == (256 * p) * q;
    }
    DivUnique(v, 256 * p, q, low);
  }

  /** Storing n bytes keeps the value mod 256^n. */
  lemma {:induction false} LittleEndianMod(v: nat, n: nat)
    ensures FromLittleEndian(LittleEndian(v, n)) == v % Pow256(n)
    decreases n
  {
    if n > 0 {
      LittleEndianMod(v / 256, n - 1);
      assert LittleEndian(v, n)[1..] == LittleEndian(v / 256, n - 1);
      DigitMod(v, Pow256(n - 1));
    }
  }

  /** The low bits of a negative value's word of d * q values. */
  lemma LowBits(v: int, d: nat, q: nat)
    requires d > 0 && q > 0 && v < 0 <= v + d
    ensures d * q > 0 && v % (d * q) % d == v + d
  {
    var low := v + d * q;
    assert d * q == d * (q - 1) + d && d * (q - 1) >= 0;
    assert v % (d * q) == low by { ModUnique(v, d * q, -1, low); }
    ModUnique(low, d, q - 1, v + d);
  }

  lemma ModUnique(x: int, d: nat, q: int, r: nat)
    requires r < d && x == d * q + r
    ensures x % d == r
  {
    var e := x / d - q;
    assert d * e == r - x % d;
    FarMultiples(d, e);
  }

  lemma FarMultiples(d: nat, e: int)
    ensures e > 0 ==> d * e >= d
    ensures e < 0 ==> d * e + d <= 0
  {
  }

  lemma SignedBack(n: nat, v: int)
    requires FitsSigned(n, v)
    ensures SignedOf(n, v % TWO_64 % Pow256(n)) == v
  {
    LowPart(n, v);
    SignedOfWord(n, v, v % TWO_64 % Pow256(n));
  }

  /** The cast of the cell's word back to its signed type. */
  lemma SignedOfWord(n: nat, v: int, w: int)
    requires FitsSigned(n, v) && w == if v < 0 then v + Pow256(n) else v
    ensures SignedOf(n, w) == v
  {
    Widths();
  }

  lemma LowPart(n: nat, v: int)
    requires FitsSigned(n, v)
    ensures v % TWO_64 % Pow256(n) == if v < 0 then v + Pow256(n) else v
  {
    if v < 0 {
      LowPartNegative(n, v);
    } else {
      Widths();
      ModUnique(v, TWO_64, 0, v);
      ModUnique(v, Pow256(n), 0, v);
    }
  }

  lemma LowPartNegative(n: nat, v: int)
    requires FitsSigned(n, v) && v < 0
    ensures v % TWO_64 % Pow256(n) == v + Pow256(n)
  {
    Widths();
    match n
    case 1 => LowBits(v, TWO_8, 0x100_0000_0000_0000);
    case 2 => LowBits(v, TWO_16, 0x1_0000_0000_0000);
    case 4 => LowBits(v, TWO_32, TWO_32);
    case 8 => LowBits(v, TWO_64, 1);
  }

  lemma Widths()
    ensures Pow256(1) == TWO_8 && Pow256(2) == TWO_16 && Pow256(4) == TWO_32 && Pow256(8) == TWO_64
  {
    FixedWidths();
    assert Pow256(1) == 256 * Pow256(0);
    assert Pow256(2) == 256 * Pow256(1);
  }

  /** Loading an integer cell through its C type yields the represented value, at every width. */
  lemma {:induction false} LoadsBack(f: Field, bytes: seq<byte>, item: Item)
    requires LaidField(f) && |bytes| == f.dataSize && Packable(f.ltype) && Holds(f, bytes, item)
    ensures item.Int?
    ensures item.v ==
            if f.ltype.LVarint? || f.ltype.LSVarint? then SignedOf(f.dataSize, FromLittleEndian(bytes))
            else FromLittleEndian(bytes)
  {
    if f.ltype.LVarint? || f.ltype.LSVarint? {
      LittleEndianMod(item.v % TWO_64, f.dataSize);
      SignedBack(f.dataSize, item.v);
    } else if f.ltype.LUVarint? {
      assert item.v < Pow256(f.dataSize) by { Widths(); }
      LittleEndianRoundTrip(item.v, f.dataSize);
    }
  }
}
