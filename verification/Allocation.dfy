/** Dynamic allocation of repeated fields (PB_ENABLE_MALLOC): the overflow check and the growth of packed arrays. */
module Allocation {
  import opened Words
  import opened Descriptor
  import opened DecodeSpec
  import opened InputStream
  import opened StructLayout
  import opened MemoryCells

  const SIZE_MAX := TWO_64 - 1
  const CHECK_LIMIT := TWO_32  // (size_t)1 << (sizeof(size_t) * 4)

  /** The test of allocate_field: a division only when an operand uses more than half of the bits. */
  predicate SizeAccepted(dataSize: nat, arraySize: nat) {
    && dataSize != 0 && arraySize != 0
    && (dataSize >= CHECK_LIMIT || arraySize >= CHECK_LIMIT ==> SIZE_MAX / arraySize >= dataSize)
  }

  lemma Scale(a: nat, b: nat, c: nat)
    requires a <= b
    ensures a * c <= b * c
  {
    assert b * c == a * c + (b - a) * c;
  }

  lemma DivisionBound(a: nat, d: nat, n: nat)
    requires d > 0
    ensures a / d >= n <==> n * d <= a
  {
    var q := a / d;
    assert q * d <= a < (q + 1) * d by { assert a == d * q + a % d; assert (q + 1) * d == q * d + d; }
    if q >= n { Scale(n, q, d); } else { Scale(q + 1, n, d); }
  }

  lemma HalfWords(a: nat, b: nat)
    requires a < CHECK_LIMIT && b < CHECK_LIMIT
    ensures a * b <= SIZE_MAX
  {
    Scale(a, CHECK_LIMIT - 1, b);
  }

  /** The half-word shortcut is exact: a request is accepted if and only if it is not empty and its byte count fits size_t. */
  lemma AcceptedIffFits(dataSize: nat, arraySize: nat)
    requires dataSize <= SIZE_MAX && arraySize <= SIZE_MAX
    ensures SizeAccepted(dataSize, arraySize) <==> 0 < dataSize && 0 < arraySize && dataSize * arraySize <= SIZE_MAX
  {
    if dataSize > 0 && arraySize > 0 {
      DivisionBound(SIZE_MAX, arraySize, dataSize);
      if dataSize < CHECK_LIMIT && arraySize < CHECK_LIMIT {
        HalfWords(dataSize, arraySize);
      }
    }
  }

  /** allocate_field, with a reallocation that finds memory: the old bytes are kept as far as the new block reaches. */
  method Allocate(block: array<byte>, dataSize: nat, arraySize: nat) returns (ok: bool, grown: array<byte>)
    requires dataSize <= SIZE_MAX && arraySize <= SIZE_MAX
    ensures ok <==> 0 < dataSize && 0 < arraySize && dataSize * arraySize <= SIZE_MAX
    ensures ok ==> fresh(grown) && grown.Length == dataSize * arraySize
    ensures ok ==> forall k :: 0 <= k < block.Length && k < grown.Length ==> grown[k] == block[k]
    ensures !ok ==> grown == block
  {
    AcceptedIffFits(dataSize, arraySize);
    if !SizeAccepted(dataSize, arraySize) {
      return false, block;
    }
    grown := new byte[dataSize * arraySize](i requires 0 <= i reads block => if i < block.Length then block[i] else 0);
    ok := true;
  }

  lemma GuessBound(bytesLeft: nat, dataSize: nat)
    requires 0 < dataSize && 0 < bytesLeft
    ensures 1 <= (bytesLeft - 1) / dataSize + 1 <= bytesLeft
  {
    DivisionBound(bytesLeft - 1, dataSize, bytesLeft);
    Scale(1, dataSize, bytesLeft);
  }

  // ----- items in a block

  /** Item n lies inside the block, and its bytes represent the item. */
  ghost predicate BlockItem(f: Field, block: seq<byte>, n: nat, item: Item)
    requires LaidField(f)
  {
    var at := f.dataSize * n;
    0 <= at && at + f.dataSize <= |block| && Holds(f, block[at..at + f.dataSize], item)
  }

  ghost predicate BlockHolds(f: Field, block: seq<byte>, items: seq<Item>)
    requires LaidField(f)
  {
    forall n :: 0 <= n < |items| ==> BlockItem(f, block, n, items[n])
  }

  /** The blocks agree on their first n bytes. */
  ghost predicate SameUpTo(a: seq<byte>, b: seq<byte>, n: nat) {
    n <= |a| && n <= |b| && forall k :: 0 <= k < n ==> a[k] == b[k]
  }

  /** Old items survive growth and stores behind them; the new one is appended. */
  lemma BlockAppended(f: Field, a: seq<byte>, b: seq<byte>, items: seq<Item>, item: Item)
    requires LaidField(f) && BlockHolds(f, a, items) && BlockItem(f, b, |items|, item)
    requires SameUpTo(a, b, f.dataSize * |items|)
    ensures BlockHolds(f, b, items + [item])
  {
    var next := items + [item];
    forall n | 0 <= n < |next| ensures BlockItem(f, b, n, next[n]) {
      if n < |items| { BlockItemKept(f, a, b, items, n); }
    }
  }

  lemma BlockKept(f: Field, a: seq<byte>, b: seq<byte>, items: seq<Item>)
    requires LaidField(f) && BlockHolds(f, a, items) && SameUpTo(a, b, f.dataSize * |items|)
    ensures BlockHolds(f, b, items)
  {
    forall n | 0 <= n < |items| ensures BlockItem(f, b, n, items[n]) {
      BlockItemKept(f, a, b, items, n);
    }
  }

  lemma BlockItemKept(f: Field, a: seq<byte>, b: seq<byte>, items: seq<Item>, n: nat)
    requires LaidField(f) && BlockHolds(f, a, items) && SameUpTo(a, b, f.dataSize * |items|) && n < |items|
    ensures BlockItem(f, b, n, items[n])
  {
    assert BlockItem(f, a, n, items[n]);
    ItemInside(f.dataSize, n, |items|);
    var at := f.dataSize * n;
    assert a[at..at + f.dataSize] == b[at..at + f.dataSize];
  }

  // ----- the packed loop of decode_pointer_field

  /** The field as an array that only PB_SIZE_MAX limits. */
  function Unlimited(f: Field): Field {
    f.(arraySize := PB_SIZE_MAX)
  }

  /** A block of `length` bytes has room for n items. */
  predicate Room(f: Field, length: nat, n: nat) {
    f.dataSize * n <= length
  }

  /** Room for the rounded-up guess of how many more items the input holds. No such request is refused. */
  method Grow(block: array<byte>, f: Field, size: nat, bytesLeft: nat, ghost items: seq<Item>)
    returns (grown: array<byte>, reserved: nat)
    requires Packable(f.ltype) && LaidField(f) && size <= PB_SIZE_MAX && 0 < bytesLeft < TWO_32
    requires Room(f, block.Length, size) && |items| == size && BlockHolds(f, block[..], items)
    ensures fresh(grown) && size < reserved <= size + bytesLeft
    ensures Room(f, grown.Length, reserved) && grown.Length <= SIZE_MAX
    ensures BlockHolds(f, grown[..], items)
  {
    GuessBound(bytesLeft, f.dataSize);
    reserved := size + (bytesLeft - 1) / f.dataSize + 1;
    RequestFits(f.dataSize, size, reserved);
    var ok;
    ok, grown := Allocate(block, f.dataSize, reserved);
    assert ok;
    BlockKept(f, block[..], grown[..], items);
  }

  lemma RequestFits(dataSize: nat, size: nat, reserved: nat)
    requires 0 < dataSize <= 8 && size <= reserved < TWO_32 + TWO_32
    ensures dataSize * size <= dataSize * reserved <= SIZE_MAX
  {
    Scale(size, reserved, dataSize);
    Scale(dataSize, 8, reserved);
  }

  /**
   The packed loop of decode_pointer_field. `have` are the items already in the block; room beyond them is not
   relied on. The loop accepts what an array of PB_SIZE_MAX entries would accept, with the same items: no request is
   refused, every item is stored inside the block, and the block never exceeds what size_t can express.
   */
  method DecodePackedPointer(sub: IStream, f: Field, block: array<byte>, ghost have: seq<Item>, count: nat)
    returns (ok: bool, out: array<byte>, size: nat)
    requires sub.Valid() && sub.bytesLeft < TWO_32 && Packable(f.ltype) && LaidField(f)
    requires count == |have| <= PB_SIZE_MAX && BlockHolds(f, block[..], have)
    requires Room(f, block.Length, count) && block.Length <= SIZE_MAX
    modifies sub, block
    ensures sub.Valid() && sub.End() == old(sub.End())
    ensures ok == ReadPacked(f.(arraySize := PB_SIZE_MAX), have, old(sub.Rem())).Some?
    ensures ok ==> size == |ReadPacked(f.(arraySize := PB_SIZE_MAX), have, old(sub.Rem())).value|
    ensures ok ==> BlockHolds(f, out[..], ReadPacked(f.(arraySize := PB_SIZE_MAX), have, old(sub.Rem())).value)
    ensures count <= size <= PB_SIZE_MAX && Room(f, out.Length, size) && out.Length <= SIZE_MAX
  {
    ghost var items, s := have, sub.Rem();
    var reserved := count;
    ok, out, size := true, block, count;
    while ok && sub.bytesLeft > 0
      invariant sub.Valid() && sub.End() == old(sub.End()) && (ok ==> sub.bytesLeft < TWO_32)
      invariant (out == block || fresh(out)) && out.Length <= SIZE_MAX && Room(f, out.Length, size)
      invariant count <= size <= PB_SIZE_MAX && size <= reserved && Room(f, out.Length, reserved)
      invariant ok ==> size == |items| && LoopAt(f, have, s, out[..], items, sub.Rem())
      invariant !ok ==> ReadPacked(Unlimited(f), have, s).None?
      decreases if ok then 1 + sub.bytesLeft else 0
    {
      ok, out, size, reserved, items := NextEntry(sub, f, out, size, reserved, items, have, s);
    }
    if ok { LoopEnd(f, have, s, out[..], items, sub.Rem()); }
  }

  lemma LoopEnd(f: Field, have: seq<Item>, s: seq<byte>, block: seq<byte>, items: seq<Item>, rem: seq<byte>)
    requires LaidField(f) && Packable(f.ltype) && LoopAt(f, have, s, block, items, rem) && rem == []
    ensures ReadPacked(Unlimited(f), have, s) == Some(items) && BlockHolds(f, block, items)
  {
  }

  lemma RoomBelow(f: Field, length: nat, n: nat, m: nat)
    requires n <= m && Room(f, length, m)
    ensures Room(f, length, n)
  {
    Scale(n, m, f.dataSize);
  }

  /** One turn of the loop: more room if needed, then one item. */
  method NextEntry(sub: IStream, f: Field, block: array<byte>, size: nat, reserved: nat, ghost items: seq<Item>,
                   ghost have: seq<Item>, ghost s: seq<byte>)
    returns (ok: bool, out: array<byte>, count: nat, room: nat, ghost next: seq<Item>)
    requires sub.Valid() && 0 < sub.bytesLeft < TWO_32 && Packable(f.ltype) && LaidField(f)
    requires size == |items| <= PB_SIZE_MAX && size <= reserved && Room(f, block.Length, reserved) && block.Length <= SIZE_MAX
    requires LoopAt(f, have, s, block[..], items, sub.Rem())
    modifies sub, block
    ensures sub.Valid() && sub.End() == old(sub.End()) && (out == block || fresh(out)) && out.Length <= SIZE_MAX
    ensures size <= count <= PB_SIZE_MAX && count <= room && Room(f, out.Length, count) && Room(f, out.Length, room)
    ensures ok ==> sub.bytesLeft < old(sub.bytesLeft) && count == |next| && LoopAt(f, have, s, out[..], next, sub.Rem())
    ensures !ok ==> ReadPacked(Unlimited(f), have, s).None?
  {
    out, count, room := block, size, reserved;
    if size + 1 > reserved {
      out, room := Grow(block, f, size, sub.bytesLeft, items);
    }
    ok, next := DecodeEntry(sub, f, out, size, room, items, have, s);
    if ok {
      count := size + 1;
    }
    RoomBelow(f, out.Length, count, room);
  }

  /** The loop on s from `have` is the loop on rem from `items`, which the block holds. */
  ghost predicate LoopAt(f: Field, have: seq<Item>, s: seq<byte>, block: seq<byte>, items: seq<Item>, rem: seq<byte>)
    requires LaidField(f) && Packable(f.ltype)
  {
    BlockHolds(f, block, items) && ReadPacked(Unlimited(f), have, s) == ReadPacked(Unlimited(f), items, rem)
  }

  /** One item of the packed loop: stored at its place in the block, existing items untouched. */
  method DecodeEntry(sub: IStream, f: Field, block: array<byte>, size: nat, reserved: nat, ghost items: seq<Item>,
                     ghost have: seq<Item>, ghost s: seq<byte>)
    returns (ok: bool, ghost next: seq<Item>)
    requires sub.Valid() && sub.bytesLeft > 0 && Packable(f.ltype) && LaidField(f)
    requires size == |items| <= PB_SIZE_MAX && size < reserved && Room(f, block.Length, reserved)
    requires LoopAt(f, have, s, block[..], items, sub.Rem())
    modifies sub, block
    ensures sub.Valid() && sub.End() == old(sub.End())
    ensures SameOutside(old(block[..]), block[..], f.dataSize * size, f.dataSize * size + f.dataSize)
    ensures ok ==> sub.bytesLeft < old(sub.bytesLeft) && size < PB_SIZE_MAX && items < next && |next| == size + 1
    ensures ok ==> LoopAt(f, have, s, block[..], next, sub.Rem())
    ensures !ok ==> ReadPacked(Unlimited(f), have, s).None?
  {
    ghost var was, rem := block[..], sub.Rem();
    SameScalar(f, Unlimited(f), rem);
    ItemInside(f.dataSize, size, reserved);
    var at := f.dataSize * size;
    ok := DecLeafAt(sub, f, block, at);
    next := items;
    if ok {
      next := items + [ReadScalar(f, rem).value];
      assert block[..][at..at + f.dataSize] == block[at..at + f.dataSize];
      BlockAppended(f, was, block[..], items, ReadScalar(f, rem).value);
    }
    if size == PB_SIZE_MAX {
      return false, items;
    }
  }

  lemma SameScalar(f: Field, g: Field, s: seq<byte>)
    requires Packable(f.ltype) && g.ltype == f.ltype && g.dataSize == f.dataSize
    ensures ReadScalar(g, s) == ReadScalar(f, s)
  {
  }
}
