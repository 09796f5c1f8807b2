/**
 The decoder on raw struct memory: every store goes through the iterator's pointers into a byte array.

 Where it writes: for every input, accepted or not, and whatever the memory held, nothing outside the struct
 changes, each record touches only its own entry, and array counts stay within array_size.
 What it writes: if the struct's bytes represent a message (`known`), the result is the specified one. On success
 the bytes represent the specified message; on failure array counts are within bounds at every depth, except in an
 array entry whose length prefix could not be read.
 */
module StructMemory {
  import opened Words
  import opened Scalars
  import opened Descriptor
  import opened DecodeSpec
  import Spec = DecodeSpec
  import opened Records
  import opened DecodeSafety
  import opened FailedRuns
  import opened InputStream
  import opened FieldIterator
  import opened RequiredBits
  import opened StructLayout
  import opened Initialised
  import opened ArrayCounts
  import opened MemoryCells
  import opened StaleEntries

  // ----- one item

  /** What a submessage is decoded on top of: array entries are initialised by the decoder itself. */
  ghost predicate Based(f: Field, bytes: seq<byte>, prior: Item)
    requires LaidField(f) && |bytes| == f.dataSize
  {
    f.ltype.LSubmessage? ==>
      if f.htype.Repeated? then prior == Unset else HoldsAll(f.ltype.fields, bytes, BaseOf(f.ltype.fields, prior))
  }

  /** A stale entry inside the item: its old bytes, and, unless the item was initialised first, not counted before. */
  ghost predicate ItemStale(f: Field, before: seq<byte>, after: seq<byte>, stale: Option<seq<Hop>>)
    requires LaidField(f) && |before| == |after| == f.dataSize
  {
    stale.Some? ==>
      OldInItem(f, before, after, stale.value) && (!f.htype.Repeated? ==> FreeInItem(f, before, stale.value))
  }

  /** After a failure: nothing was written if the length prefix failed; otherwise counts are in bounds up to a stale entry. */
  ghost predicate ItemFailed(f: Field, prior: Item, s: seq<byte>, before: seq<byte>, after: seq<byte>)
    requires LaidField(f) && |before| == |after| == f.dataSize
  {
    if PrefixFails(f, s) then after == before
    else ItemCounts(f, after, StaleItem(f, prior, s)) && ItemStale(f, before, after, StaleItem(f, prior, s))
  }

  /** The outcome of decoding one item of f from s, given its bytes before and after. */
  ghost predicate ItemOutcome(f: Field, prior: Item, s: seq<byte>, ok: bool, rem: seq<byte>, before: seq<byte>,
                              after: seq<byte>)
    requires LaidField(f) && |before| == |after| == f.dataSize
  {
    ItemDone(f, prior, s, ok, rem, after) && (!ok ==> ItemFailed(f, prior, s, before, after))
  }

  /** The outcome of decoding s on top of msg: result, rest of the input, bytes of the struct before and after. */
  ghost predicate Decoded(fields: seq<Field>, msg: seq<Slot>, s: seq<byte>, ok: bool, rem: seq<byte>, a: seq<byte>,
                          b: seq<byte>)
    requires Laid(fields, |a|) && |a| == |b| && |msg| == SlotCount(fields)
  {
    var p := Spec.DecodeNoInit(fields, msg, s);
    && ok == p.Done?
    && (ok ==> rem == p.rest && HoldsAll(fields, b, p.value))
    && (!ok ==> Strands(fields, a, b, Stale(fields, msg, s)))
  }

  /** The outcome of decoding the message bs inside a submessage item. */
  ghost predicate InnerOutcome(f: Field, prior: Item, bs: seq<byte>, ok: bool, before: seq<byte>, after: seq<byte>)
    requires f.ltype.LSubmessage? && LaidField(f) && |before| == |after| == f.dataSize
  {
    var sub := f.ltype.fields;
    var p, stale := Spec.DecodeNoInit(sub, BaseOf(sub, prior), bs), Stale(sub, BaseOf(sub, prior), bs);
    && ok == p.Done?
    && (ok ==> HoldsAll(sub, after, p.value))
    && (!ok ==> Counts(sub, after, stale) && ItemStale(f, before, after, stale))
  }

  /** A submessage item after its length prefix. */
  lemma {:induction false} SubmessageDone(f: Field, prior: Item, s: seq<byte>, ok: bool, rem: seq<byte>, before: seq<byte>,
                                          after: seq<byte>)
    requires f.ltype.LSubmessage? && LaidField(f) && |before| == |after| == f.dataSize && TakeDelimited(s).Done?
    requires InnerOutcome(f, prior, TakeDelimited(s).value, ok, before, after) && (ok ==> rem == TakeDelimited(s).rest)
    ensures ItemOutcome(f, prior, s, ok, rem, before, after)
  {
  }

  /** pb_dec_submessage: array entries are initialised first. */
  method DecSubmessageAt(stream: IStream, f: Field, mem: array<byte>, dest: nat, ghost prior: Item, ghost known: bool)
    returns (ok: bool)
    requires stream.Valid() && f.ltype.LSubmessage? && DecodableField(f) && LaidField(f)
    requires dest + f.dataSize <= mem.Length && (known ==> Based(f, mem[dest..dest + f.dataSize], prior))
    modifies stream, mem
    ensures stream.Valid() && Forward(ok, old(stream.At()), stream.At())
    ensures ok ==> ItemEnd(f, old(stream.Rem())) == Done((), stream.Rem())
    ensures SameOutside(old(mem[..]), mem[..], dest, dest + f.dataSize)
    ensures PrefixFails(f, old(stream.Rem())) ==> mem[..] == old(mem[..])
    ensures !f.htype.Repeated? ==> TailItem(f, old(mem[dest..dest + f.dataSize]), mem[dest..dest + f.dataSize])
    ensures known ==>
              ItemOutcome(f, prior, old(stream.Rem()), ok, stream.Rem(),
                          old(mem[dest..dest + f.dataSize]), mem[dest..dest + f.dataSize])
    decreases stream.bytesLeft, 0
  {
    var sub;
    ghost var s, before := stream.Rem(), mem[dest..dest + f.dataSize];
    ok, sub := stream.MakeSubstream();
    if !ok {
      TailsSame(f.ltype.fields, before);
      return;
    }
    ok := DecInnerAt(sub, f, mem, dest, prior, known);
    stream.CloseSubstream(sub);
    if known {
      SubmessageDone(f, prior, s, ok, stream.Rem(), before, mem[dest..dest + f.dataSize]);
    }
  }

  /** The message inside the substream. */
  method DecInnerAt(sub: IStream, f: Field, mem: array<byte>, dest: nat, ghost prior: Item, ghost known: bool)
    returns (ok: bool)
    requires sub.Valid() && f.ltype.LSubmessage? && DecodableField(f) && LaidField(f)
    requires dest + f.dataSize <= mem.Length && (known ==> Based(f, mem[dest..dest + f.dataSize], prior))
    modifies sub, mem
    ensures sub.Valid() && sub.End() <= old(sub.End()) && (ok ==> sub.End() == old(sub.End()))
    ensures SameOutside(old(mem[..]), mem[..], dest, dest + f.dataSize)
    ensures !f.htype.Repeated? ==> TailItem(f, old(mem[dest..dest + f.dataSize]), mem[dest..dest + f.dataSize])
    ensures known ==>
              InnerOutcome(f, prior, old(sub.Rem()), ok, old(mem[dest..dest + f.dataSize]), mem[dest..dest + f.dataSize])
    decreases sub.bytesLeft, 10
  {
    ghost var s, was, met := sub.Rem(), mem[..], {};
    assert was[dest..dest + f.dataSize] == mem[dest..dest + f.dataSize];
    InitItemAt(f, mem, dest, prior, known);
    ghost var mid := mem[..];
    assert mid[dest..dest + f.dataSize] == mem[dest..dest + f.dataSize];
    ok, met := DecodeNoInitAt(sub, f.ltype.fields, f.dataSize, mem, dest, BaseOf(f.ltype.fields, prior), known);
    assert mem[..][dest..dest + f.dataSize] == mem[dest..dest + f.dataSize];
    InnerEnds(f, prior, s, ok, sub.Rem(), was, mid, mem[..], dest, known, met);
  }

  lemma {:induction false} InnerEnds(f: Field, prior: Item, bs: seq<byte>, ok: bool, rem: seq<byte>, was: seq<byte>,
                                     mid: seq<byte>, mem: seq<byte>, dest: nat, known: bool, met: set<nat>)
    requires f.ltype.LSubmessage? && LaidField(f) && dest + f.dataSize <= |was| == |mid| == |mem|
    requires SameOutside(was, mid, dest, dest + f.dataSize) && RunStep(f.ltype.fields, f.dataSize, mid, mem, dest, met)
    requires var a, m := was[dest..dest + f.dataSize], mid[dest..dest + f.dataSize];
             ArraysKept(f.ltype.fields, a, m) && (!f.htype.Repeated? ==> m == a)
    requires known ==> Decoded(f.ltype.fields, BaseOf(f.ltype.fields, prior), bs, ok, rem, mid[dest..dest + f.dataSize],
                               mem[dest..dest + f.dataSize])
    ensures SameOutside(was, mem, dest, dest + f.dataSize)
    ensures !f.htype.Repeated? ==> TailItem(f, was[dest..dest + f.dataSize], mem[dest..dest + f.dataSize])
    ensures known ==>
              InnerOutcome(f, prior, bs, ok, was[dest..dest + f.dataSize], mem[dest..dest + f.dataSize])
  {
    if known {
      InnerDone(f, prior, bs, ok, rem, was[dest..dest + f.dataSize], mid[dest..dest + f.dataSize], mem[dest..dest + f.dataSize]);
    }
  }

  /** Array entries are initialised before they are decoded. */
  method InitItemAt(f: Field, mem: array<byte>, dest: nat, ghost prior: Item, ghost known: bool)
    requires f.ltype.LSubmessage? && LaidField(f) && dest + f.dataSize <= mem.Length
    requires known ==> Based(f, mem[dest..dest + f.dataSize], prior)
    modifies mem
    ensures SameOutside(old(mem[..]), mem[..], dest, dest + f.dataSize)
    ensures !f.htype.Repeated? ==> mem[dest..dest + f.dataSize] == old(mem[dest..dest + f.dataSize])
    ensures ArraysKept(f.ltype.fields, old(mem[dest..dest + f.dataSize]), mem[dest..dest + f.dataSize])
    ensures known ==> HoldsAll(f.ltype.fields, mem[dest..dest + f.dataSize], BaseOf(f.ltype.fields, prior))
  {
    if f.htype.Repeated? {
      SetDefaultsAt(f.ltype.fields, f.dataSize, mem, dest);
    } else {
      ArraysSame(f.ltype.fields, mem[dest..dest + f.dataSize]);
    }
  }

  lemma {:induction false} InnerDone(f: Field, prior: Item, bs: seq<byte>, ok: bool, rem: seq<byte>, before: seq<byte>,
                                     mid: seq<byte>, after: seq<byte>)
    requires f.ltype.LSubmessage? && LaidField(f) && |before| == |mid| == |after| == f.dataSize
    requires ArraysKept(f.ltype.fields, before, mid) && (!f.htype.Repeated? ==> mid == before)
    requires Decoded(f.ltype.fields, BaseOf(f.ltype.fields, prior), bs, ok, rem, mid, after)
    ensures InnerOutcome(f, prior, bs, ok, before, after)
  {
    var sub := f.ltype.fields;
    if !ok { StaleFromStart(sub, before, mid, after, Stale(sub, BaseOf(sub, prior), bs)); }
  }

  lemma {:induction false} StaleFromStart(fields: seq<Field>, a: seq<byte>, b: seq<byte>, c: seq<byte>, stale: Option<seq<Hop>>)
    requires Laid(fields, |a|) && |a| == |b| == |c| && ArraysKept(fields, a, b) && StaleKept(fields, b, c, stale)
    ensures StaleKept(fields, a, c, stale)
  {
    if stale.Some? { OldFromStart(fields, a, b, c, stale.value); }
  }

  /** PB_DECODERS: one item is decoded inside its own data_size bytes. */
  method DecodeItemAt(stream: IStream, f: Field, mem: array<byte>, dest: nat, ghost prior: Item, ghost known: bool)
    returns (ok: bool)
    requires stream.Valid() && DecodableField(f) && LaidField(f)
    requires dest + f.dataSize <= mem.Length && (known ==> Based(f, mem[dest..dest + f.dataSize], prior))
    modifies stream, mem
    ensures stream.Valid() && Forward(ok, old(stream.At()), stream.At())
    ensures ok ==> ItemEnd(f, old(stream.Rem())) == Done((), stream.Rem())
    ensures SameOutside(old(mem[..]), mem[..], dest, dest + f.dataSize)
    ensures PrefixFails(f, old(stream.Rem())) ==> mem[..] == old(mem[..])
    ensures !f.htype.Repeated? ==> TailItem(f, old(mem[dest..dest + f.dataSize]), mem[dest..dest + f.dataSize])
    ensures known ==>
              ItemOutcome(f, prior, old(stream.Rem()), ok, stream.Rem(),
                          old(mem[dest..dest + f.dataSize]), mem[dest..dest + f.dataSize])
    decreases stream.bytesLeft, 1
  {
    if f.ltype.LSubmessage? {
      ok := DecSubmessageAt(stream, f, mem, dest, prior, known);
    } else {
      LeafIgnoresPrior(f, prior, stream.Rem());
      ok := DecLeafAt(stream, f, mem, dest);
    }
  }

  lemma LeafIgnoresPrior(f: Field, prior: Item, s: seq<byte>)
    requires !f.ltype.LSubmessage?
    ensures ReadItem(f, prior, s) == ReadItem(f, Unset, s)
  {
  }

  // ----- one record

  /** The outcome of one record for entry f: result, rest of the input, bytes of the entry before and after. */
  ghost predicate SlotOutcome(f: Field, slot: Slot, wire: nat, s: seq<byte>, ok: bool, rem: seq<byte>, was: seq<byte>,
                              mem: seq<byte>, data: int, cell: int)
    requires LaidField(f) && RoomFor(f, |mem|, data, cell) && |was| == |mem|
  {
    && ok == ReadField(f, slot, wire, s).Done?
    && (ok ==> rem == ReadField(f, slot, wire, s).rest && MemHolds(f, mem, data, cell, ReadField(f, slot, wire, s).value))
    && (!ok ==> MemCounts(f, mem, data, cell, |ItemsOf(slot)|, StaleField(f, slot, s))
                && MemStale(f, was, mem, data, cell, |ItemsOf(slot)|, StaleField(f, slot, s)))
  }

  ghost predicate MemCounts(f: Field, mem: seq<byte>, data: int, cell: int, item: nat, stale: Option<seq<Hop>>)
    requires LaidField(f) && RoomFor(f, |mem|, data, cell)
  {
    SlotCounts(f, mem[data..data + MemberSize(f)], CellPart(mem, cell, CellSize(f)), item, stale)
  }

  /** A stale entry inside the entry at these addresses: its old bytes, and not counted before. */
  ghost predicate MemStale(f: Field, a: seq<byte>, b: seq<byte>, data: int, cell: int, item: nat, stale: Option<seq<Hop>>)
    requires LaidField(f) && RoomFor(f, |a|, data, cell) && |a| == |b|
  {
    stale.Some? ==>
      && OldInSlot(f, a[data..data + MemberSize(f)], b[data..data + MemberSize(f)], item, stale.value)
      && FreeInSlot(f, a[data..data + MemberSize(f)], CellPart(a, cell, CellSize(f)), item, stale.value)
  }

  lemma HoldsMemCounts(f: Field, mem: seq<byte>, data: int, cell: int, slot: Slot)
    requires LaidField(f) && RoomFor(f, |mem|, data, cell) && MemHolds(f, mem, data, cell, slot)
    ensures MemCounts(f, mem, data, cell, |ItemsOf(slot)|, None)
  {
    HoldsDeepSlot(f, mem[data..data + MemberSize(f)], CellPart(mem, cell, CellSize(f)), slot);
  }

  /** An array of items without arrays of their own. */
  lemma {:induction false} LeafCounts(f: Field, mem: seq<byte>, data: int, cell: int, item: nat)
    requires LaidField(f) && RoomFor(f, |mem|, data, cell) && f.htype.Repeated? && !f.ltype.LSubmessage?
    requires SizeAt(mem, cell) <= f.arraySize
    ensures MemCounts(f, mem, data, cell, item, None)
  {
    var bytes := mem[data..data + MemberSize(f)];
    forall k | 0 <= k < SizeAt(mem, cell) ensures DeepItem(f, Nth(f, bytes, k)) {
    }
    assert DeepItems(f, bytes, SizeAt(mem, cell));
  }

  /** A packed record of the REPEATED branch. */
  method DecodeRunAt(stream: IStream, wire: nat, f: Field, mem: array<byte>, data: nat, cell: int, ghost slot: Slot,
                     ghost known: bool)
    returns (ok: bool)
    requires stream.Valid() && LaidField(f) && f.htype.Repeated? && RoomFor(f, mem.Length, data, cell)
    requires wire == WT_STRING && Packable(f.ltype)
    requires known ==> MemHolds(f, mem[..], data, cell, slot)
    modifies stream, mem
    ensures stream.Valid() && Forward(ok, old(stream.At()), stream.At())
    ensures ok ==> RecordEnd(f, wire, old(stream.Rem())) == Done((), stream.Rem())
    ensures ArrayStep(f, old(mem[..]), mem[..], data, cell)
    ensures known ==> SlotOutcome(f, slot, wire, old(stream.Rem()), ok, stream.Rem(), old(mem[..]), mem[..], data, cell)
  {
    var sub;
    ok, sub := stream.MakeSubstream();
    if known { HeldCount(f, mem[..], data, cell, slot); }
    if !ok {
      if known { LeafCounts(f, mem[..], data, cell, |ItemsOf(slot)|); }
      return;
    }
    ok := DecodePackedAt(sub, f, mem, data, cell, ItemsOf(slot), known);
    if known { LeafCounts(f, mem[..], data, cell, |ItemsOf(slot)|); }
    if sub.bytesLeft != 0 {
      return false;
    }
    stream.CloseSubstream(sub);
  }

  lemma {:induction false} HeldCount(f: Field, mem: seq<byte>, data: int, cell: int, slot: Slot)
    requires LaidField(f) && RoomFor(f, |mem|, data, cell) && f.htype.Repeated? && MemHolds(f, mem, data, cell, slot)
    ensures slot.Arr? && SizeAt(mem, cell) == |slot.items| <= f.arraySize
    ensures HoldsItems(f, mem[data..data + MemberSize(f)], slot.items)
  {
    assert slot.Arr?;
    assert HoldsItems(f, mem[data..data + MemberSize(f)], slot.items);
  }

  /** Array entries behind the new count are as they were. */
  ghost predicate TailStep(f: Field, a: seq<byte>, b: seq<byte>, data: int, cell: int)
    requires f.htype.Repeated? && RoomFor(f, |a|, data, cell) && |a| == |b|
  {
    TailKept(f, a[data..data + MemberSize(f)], b[data..data + MemberSize(f)], SizeAt(b, cell))
  }

  /** A record counts one item, unless the array is full. */
  ghost predicate OneMore(f: Field, a: seq<byte>, b: seq<byte>, cell: int)
    requires 0 <= cell && cell + SIZE_CELL <= |a| && |a| == |b|
  {
    SizeAt(b, cell) == if SizeAt(a, cell) < f.arraySize then SizeAt(a, cell) + 1 else SizeAt(a, cell)
  }

  /** A single record of the REPEATED branch: the item is counted before it is decoded. */
  method DecodeSingleAt(stream: IStream, wire: nat, f: Field, mem: array<byte>, data: nat, cell: int, ghost slot: Slot,
                        ghost known: bool)
    returns (ok: bool)
    requires stream.Valid() && DecodableField(f) && LaidField(f) && f.htype.Repeated? && RoomFor(f, mem.Length, data, cell)
    requires !(wire == WT_STRING && Packable(f.ltype))
    requires known ==> MemHolds(f, mem[..], data, cell, slot)
    modifies stream, mem
    ensures stream.Valid() && Forward(ok, old(stream.At()), stream.At())
    ensures ok ==> RecordEnd(f, wire, old(stream.Rem())) == Done((), stream.Rem())
    ensures ArrayStep(f, old(mem[..]), mem[..], data, cell)
    ensures TailStep(f, old(mem[..]), mem[..], data, cell) && OneMore(f, old(mem[..]), mem[..], cell)
    ensures PrefixFails(f, old(stream.Rem())) ==> mem[data..data + MemberSize(f)] == old(mem[data..data + MemberSize(f)])
    ensures known ==> SlotOutcome(f, slot, wire, old(stream.Rem()), ok, stream.Rem(), old(mem[..]), mem[..], data, cell)
    decreases stream.bytesLeft, 3
  {
    ghost var was := mem[..];
    var n := SizeAt(mem[..], cell);
    if known {
      HeldCount(f, was, data, cell, slot);
      HoldsMemCounts(f, was, data, cell, slot);
    }
    if n >= f.arraySize {
      return false;
    }
    BumpCount(f, mem, data, cell);
    ghost var mid := mem[..];
    assert mem[data..data + MemberSize(f)] == was[data..data + MemberSize(f)];
    assert mid[data..data + MemberSize(f)] == was[data..data + MemberSize(f)];
    ok := DecodeCountedAt(stream, wire, f, mem, data, cell, n, slot, known, was);
    ArrayStepTrans(f, was, mid, mem[..], data, cell);
  }

  /** The item, after it was counted. */
  method DecodeCountedAt(stream: IStream, wire: nat, f: Field, mem: array<byte>, data: nat, cell: int, n: nat,
                         ghost slot: Slot, ghost known: bool, ghost was: seq<byte>)
    returns (ok: bool)
    requires stream.Valid() && DecodableField(f) && LaidField(f) && f.htype.Repeated? && RoomFor(f, mem.Length, data, cell)
    requires |was| == mem.Length && SizeAt(was, cell) == n
    requires was[data..data + MemberSize(f)] == mem[data..data + MemberSize(f)]
    requires !(wire == WT_STRING && Packable(f.ltype)) && SizeAt(mem[..], cell) == n + 1 <= f.arraySize
    requires known ==> slot.Arr? && |slot.items| == n && HoldsItems(f, mem[data..data + MemberSize(f)], slot.items)
    modifies stream, mem
    ensures stream.Valid() && Forward(ok, old(stream.At()), stream.At())
    ensures ok ==> RecordEnd(f, wire, old(stream.Rem())) == Done((), stream.Rem())
    ensures ArrayStep(f, old(mem[..]), mem[..], data, cell)
    ensures TailStep(f, old(mem[..]), mem[..], data, cell)
    ensures SizeAt(mem[..], cell) == n + 1
    ensures PrefixFails(f, old(stream.Rem())) ==> mem[..] == old(mem[..])
    ensures known ==> SlotOutcome(f, slot, wire, old(stream.Rem()), ok, stream.Rem(), was, mem[..], data, cell)
    decreases stream.bytesLeft, 2
  {
    ghost var mid, s := mem[..], stream.Rem();
    ItemInside(f.dataSize, n, f.arraySize);
    var at := data + f.dataSize * n;
    assert mem[data..data + MemberSize(f)] == mid[data..data + MemberSize(f)];
    assert mem[at..at + f.dataSize] == mid[at..at + f.dataSize];
    ok := DecodeItemAt(stream, f, mem, at, Unset, true);
    NthStep(f, mid, mem[..], data, cell, n);
    CountedTail(f, mid, mem[..], data, cell, n);
    assert mem[..][at..at + f.dataSize] == mem[at..at + f.dataSize];
    if known { SingleOutcome(f, slot, wire, s, ok, stream.Rem(), was, mid, mem[..], data, cell, at); }
  }

  lemma {:induction false} CountedTail(f: Field, a: seq<byte>, b: seq<byte>, data: int, cell: int, n: nat)
    requires f.htype.Repeated? && RoomFor(f, |a|, data, cell) && |a| == |b| && SizeAt(b, cell) == n + 1 <= f.arraySize
    requires OnlyNth(f, a[data..data + MemberSize(f)], b[data..data + MemberSize(f)], n)
    ensures TailStep(f, a, b, data, cell)
  {
    var x, y := a[data..data + MemberSize(f)], b[data..data + MemberSize(f)];
    forall k | n + 1 <= k < f.arraySize ensures Nth(f, x, k) == Nth(f, y, k) {
      NthKept(f, x, y, n, k);
    }
  }

  /** A failed item: the entry itself if its prefix failed, or one inside it, has its old bytes. */
  lemma {:induction false} SingleStale(f: Field, slot: Slot, s: seq<byte>, a: seq<byte>, b: seq<byte>, data: nat, at: nat)
    requires LaidField(f) && f.htype.Repeated? && |a| == |b| && data + MemberSize(f) <= |a|
    requires slot.Arr? && |slot.items| < f.arraySize
    requires at == data + f.dataSize * |slot.items| && at + f.dataSize <= |b|
    requires ItemFailed(f, Unset, s, a[at..at + f.dataSize], b[at..at + f.dataSize])
    ensures var path := StaleField(f, slot, s);
            path.Some? ==>
              OldInSlot(f, a[data..data + MemberSize(f)], b[data..data + MemberSize(f)], |slot.items|, path.value)
  {
    NthAt(f, a, data, |slot.items|);
    NthAt(f, b, data, |slot.items|);
  }

  lemma {:induction false} SingleOutcome(f: Field, slot: Slot, wire: nat, s: seq<byte>, ok: bool, rem: seq<byte>,
                                         was: seq<byte>, a: seq<byte>, b: seq<byte>, data: nat, cell: int, at: nat)
    requires LaidField(f) && f.htype.Repeated? && RoomFor(f, |a|, data, cell) && |a| == |b|
    requires !(wire == WT_STRING && Packable(f.ltype))
    requires slot.Arr? && |slot.items| < f.arraySize && HoldsItems(f, a[data..data + MemberSize(f)], slot.items)
    requires SizeAt(b, cell) == |slot.items| + 1
    requires at == data + f.dataSize * |slot.items| && at + f.dataSize <= |b| && SameOutside(a, b, at, at + f.dataSize)
    requires ItemOutcome(f, Unset, s, ok, rem, a[at..at + f.dataSize], b[at..at + f.dataSize])
    requires |was| == |a| && SizeAt(was, cell) == |slot.items|
    requires was[data..data + MemberSize(f)] == a[data..data + MemberSize(f)]
    ensures SlotOutcome(f, slot, wire, s, ok, rem, was, b, data, cell)
  {
    if ok {
      NthStored(f, a, b, data, cell, slot.items, ReadItem(f, Unset, s).value, at);
      assert HoldsItems(f, b[data..data + MemberSize(f)], slot.items + [ReadItem(f, Unset, s).value]);
    } else {
      SingleCounts(f, slot, s, a, b, data, cell, at);
      SingleStale(f, slot, s, a, b, data, at);
    }
  }

  /** After a failed item: the entries before it are as they were. */
  lemma {:induction false} SingleCounts(f: Field, slot: Slot, s: seq<byte>, a: seq<byte>, b: seq<byte>, data: nat, cell: int,
                                        at: nat)
    requires LaidField(f) && f.htype.Repeated? && RoomFor(f, |a|, data, cell) && |a| == |b|
    requires slot.Arr? && |slot.items| < f.arraySize && HoldsItems(f, a[data..data + MemberSize(f)], slot.items)
    requires SizeAt(b, cell) == |slot.items| + 1
    requires at == data + f.dataSize * |slot.items| && at + f.dataSize <= |b| && SameOutside(a, b, at, at + f.dataSize)
    requires ItemFailed(f, Unset, s, a[at..at + f.dataSize], b[at..at + f.dataSize])
    ensures MemCounts(f, b, data, cell, |slot.items|, StaleField(f, slot, s))
  {
    var n, x, y := |slot.items|, a[data..data + MemberSize(f)], b[data..data + MemberSize(f)];
    NthStep(f, a, b, data, cell, n);
    NthAt(f, b, data, n);
    EarlierCounts(f, x, y, slot.items);
    LastCounts(f, slot, s, a[at..at + f.dataSize], y, CellPart(b, cell, SIZE_CELL));
  }

  /** The entries before the last are in order; the last one is as its decoding left it. */
  lemma {:induction false} LastCounts(f: Field, slot: Slot, s: seq<byte>, before: seq<byte>, data: seq<byte>, cell: seq<byte>)
    requires LaidField(f) && f.htype.Repeated? && |data| == f.dataSize * f.arraySize && |cell| == SIZE_CELL
    requires |before| == f.dataSize
    requires slot.Arr? && |slot.items| < f.arraySize && FromLittleEndian(cell) == |slot.items| + 1
    requires DeepItems(f, data, |slot.items|) && ItemFailed(f, Unset, s, before, Nth(f, data, |slot.items|))
    ensures SlotCounts(f, data, cell, |slot.items|, StaleField(f, slot, s))
  {
    var n := |slot.items|;
    if StaleField(f, slot, s).None? {
      forall k | 0 <= k < n + 1 ensures DeepItem(f, Nth(f, data, k)) {
      }
      assert DeepItems(f, data, n + 1);
    }
  }

  lemma {:induction false} EarlierCounts(f: Field, a: seq<byte>, b: seq<byte>, items: seq<Item>)
    requires LaidField(f) && |a| == |b| == f.dataSize * f.arraySize && |items| < f.arraySize
    requires HoldsItems(f, a, items) && OnlyNth(f, a, b, |items|)
    ensures DeepItems(f, b, |items|)
  {
    HoldsDeepItems(f, a, items);
    forall k | 0 <= k < |items| ensures DeepItem(f, Nth(f, b, k)) {
      assert DeepItem(f, Nth(f, a, k));
      NthKept(f, a, b, |items|, k);
    }
  }

  /** The ONEOF branch: which_ is set, a submessage is initialised, then the member is decoded. */
  method DecodeUnionAt(stream: IStream, wire: nat, f: Field, mem: array<byte>, data: nat, cell: int, ghost slot: Slot)
    returns (ok: bool)
    requires stream.Valid() && DecodableField(f) && LaidField(f) && f.htype.Oneof? && RoomFor(f, mem.Length, data, cell)
    modifies stream, mem
    ensures stream.Valid() && Forward(ok, old(stream.At()), stream.At())
    ensures ok ==> RecordEnd(f, wire, old(stream.Rem())) == Done((), stream.Rem())
    ensures OnlyAt(f, old(mem[..]), mem[..], data, cell) && SizeAt(mem[..], cell) == f.tag
    ensures SlotOutcome(f, slot, wire, old(stream.Rem()), ok, stream.Rem(), old(mem[..]), mem[..], data, cell)
    decreases stream.bytesLeft, 2
  {
    ghost var was := mem[..];
    OpenUnionAt(f, mem, data, cell);
    ghost var mid, s, before := mem[..], stream.Rem(), mem[data..data + f.dataSize];
    ok := DecodeItemAt(stream, f, mem, data, Unset, true);
    PartKept(mid, mem[..], data, data + f.dataSize, cell, SIZE_CELL);
    assert mem[..][data..data + f.dataSize] == mem[data..data + f.dataSize];
    UnionOutcome(f, slot, wire, s, ok, stream.Rem(), before, was, mem[..], data, cell);
  }

  /** Before the member is decoded. */
  method OpenUnionAt(f: Field, mem: array<byte>, data: nat, cell: int)
    requires LaidField(f) && f.htype.Oneof? && RoomFor(f, mem.Length, data, cell)
    modifies mem
    ensures OnlyAt(f, old(mem[..]), mem[..], data, cell) && SizeAt(mem[..], cell) == f.tag
    ensures Based(f, mem[data..data + f.dataSize], Unset)
    ensures ItemKept(f, Zeros(f.dataSize), mem[data..data + f.dataSize])
  {
    StoreSize(mem, cell, f.tag);
    ghost var mid := mem[..];
    if f.ltype.LSubmessage? {
      Store(mem, data, Zeros(f.dataSize));
      SetDefaultsAt(f.ltype.fields, f.dataSize, mem, data);
    }
    PartKept(mid, mem[..], data, data + f.dataSize, cell, SIZE_CELL);
  }

  /** A stale entry inside the member has the zeros it was cleared to. */
  lemma {:induction false} UnionStale(f: Field, slot: Slot, s: seq<byte>, before: seq<byte>, after: seq<byte>)
    requires LaidField(f) && f.htype.Oneof? && |before| == |after| == f.dataSize
    requires ItemKept(f, Zeros(f.dataSize), before) && ItemFailed(f, Unset, s, before, after)
    ensures var path := StaleField(f, slot, s);
            path.Some? ==> OldInItem(f, Zeros(f.dataSize), after, path.value)
  {
    var path := StaleField(f, slot, s);
    assert path == StaleItem(f, Unset, s) && (PrefixFails(f, s) ==> path.None?);
    if path.Some? { OldFromStart(f.ltype.fields, Zeros(f.dataSize), before, after, path.value); }
  }

  /** A failed item of a singular field or a union member, decoded on top of bytes that were in order. */
  lemma {:induction false} ItemFailedCounts(f: Field, prior: Item, s: seq<byte>, before: seq<byte>, after: seq<byte>)
    requires LaidField(f) && !f.htype.Repeated? && |before| == |after| == f.dataSize
    requires Based(f, before, prior) && ItemFailed(f, prior, s, before, after)
    ensures ItemCounts(f, after, StaleItem(f, prior, s))
  {
    if PrefixFails(f, s) {
      HoldsDeep(f.ltype.fields, before, BaseOf(f.ltype.fields, prior));
    }
  }

  lemma {:induction false} UnionOutcome(f: Field, slot: Slot, wire: nat, s: seq<byte>, ok: bool, rem: seq<byte>,
                                        before: seq<byte>, was: seq<byte>, mem: seq<byte>, data: nat, cell: int)
    requires LaidField(f) && f.htype.Oneof? && RoomFor(f, |mem|, data, cell) && SizeAt(mem, cell) == f.tag && |was| == |mem|
    requires |before| == f.dataSize && Based(f, before, Unset) && ItemKept(f, Zeros(f.dataSize), before)
    requires ItemOutcome(f, Unset, s, ok, rem, before, mem[data..data + f.dataSize])
    ensures SlotOutcome(f, slot, wire, s, ok, rem, was, mem, data, cell)
  {
    if !ok {
      ItemFailedCounts(f, Unset, s, before, mem[data..data + f.dataSize]);
      UnionStale(f, slot, s, before, mem[data..data + f.dataSize]);
    }
  }

  lemma {:induction false} SingularStale(f: Field, slot: Slot, s: seq<byte>, before: seq<byte>, after: seq<byte>, cell: seq<byte>)
    requires LaidField(f) && (f.htype.Required? || f.htype.Optional?) && |before| == |after| == f.dataSize
    requires ItemFailed(f, ItemOf(slot), s, before, after)
    ensures var path := StaleField(f, slot, s);
            path.Some? ==>
              OldInSlot(f, before, after, |ItemsOf(slot)|, path.value) && FreeInSlot(f, before, cell, |ItemsOf(slot)|, path.value)
  {
  }

  lemma {:induction false} SingularHolds(f: Field, slot: Slot, wire: nat, s: seq<byte>, rem: seq<byte>, data: seq<byte>,
                                         cell: seq<byte>)
    requires LaidField(f) && (f.htype.Required? || f.htype.Optional?) && |data| == f.dataSize && |cell| == CellSize(f)
    requires ItemDone(f, ItemOf(slot), s, true, rem, data) && (CellSize(f) == 1 ==> cell == [1])
    ensures var p := ReadField(f, slot, wire, s); p.Done? && rem == p.rest && HoldsSlot(f, data, cell, p.value)
  {
  }

  lemma {:induction false} SingularOutcome(f: Field, slot: Slot, wire: nat, s: seq<byte>, ok: bool, rem: seq<byte>,
                                           was: seq<byte>, mem: seq<byte>, data: nat, cell: int)
    requires LaidField(f) && (f.htype.Required? || f.htype.Optional?) && RoomFor(f, |mem|, data, cell) && |was| == |mem|
    requires Based(f, was[data..data + f.dataSize], ItemOf(slot))
    requires ItemOutcome(f, ItemOf(slot), s, ok, rem, was[data..data + f.dataSize], mem[data..data + f.dataSize])
    requires CellSize(f) == 1 ==> mem[cell] == 1
    ensures SlotOutcome(f, slot, wire, s, ok, rem, was, mem, data, cell)
  {
    if ok {
      SingularHolds(f, slot, wire, s, rem, mem[data..data + f.dataSize], CellPart(mem, cell, CellSize(f)));
    } else {
      ItemFailedCounts(f, ItemOf(slot), s, was[data..data + f.dataSize], mem[data..data + f.dataSize]);
      SingularStale(f, slot, s, was[data..data + f.dataSize], mem[data..data + f.dataSize], CellPart(was, cell, CellSize(f)));
    }
  }

  /** A singular slot's item is what a submessage is decoded on top of. */
  lemma {:induction false} SlotBase(f: Field, data: seq<byte>, cell: seq<byte>, slot: Slot)
    requires LaidField(f) && (f.htype.Required? || f.htype.Optional?) && |data| == f.dataSize && |cell| == CellSize(f)
    requires HoldsSlot(f, data, cell, slot)
    ensures Based(f, data, ItemOf(slot))
  {
    assert Holds(f, data, ItemOf(slot));
    if f.ltype.LSubmessage? {
      assert HoldsAll(f.ltype.fields, data, ItemOf(slot).slots);
    }
  }

  /** The REQUIRED and OPTIONAL branches: has_ is set before the item is decoded on top of the old one. */
  method DecodeSingularAt(stream: IStream, wire: nat, f: Field, mem: array<byte>, data: nat, cell: int, ghost slot: Slot,
                          ghost known: bool)
    returns (ok: bool)
    requires stream.Valid() && DecodableField(f) && LaidField(f) && (f.htype.Required? || f.htype.Optional?)
    requires RoomFor(f, mem.Length, data, cell) && (known ==> MemHolds(f, mem[..], data, cell, slot))
    modifies stream, mem
    ensures stream.Valid() && Forward(ok, old(stream.At()), stream.At())
    ensures ok ==> RecordEnd(f, wire, old(stream.Rem())) == Done((), stream.Rem())
    ensures OnlyAt(f, old(mem[..]), mem[..], data, cell) && (CellSize(f) == 1 ==> mem[cell] == 1)
    ensures TailItem(f, old(mem[data..data + f.dataSize]), mem[data..data + f.dataSize])
    ensures known ==> SlotOutcome(f, slot, wire, old(stream.Rem()), ok, stream.Rem(), old(mem[..]), mem[..], data, cell)
    decreases stream.bytesLeft, 2
  {
    ghost var was, s := mem[..], stream.Rem();
    assert was[data..data + f.dataSize] == mem[data..data + f.dataSize];
    MarkPresent(f, mem, data, cell, slot, known);
    ghost var mid := mem[..];
    ok := DecodeItemAt(stream, f, mem, data, ItemOf(slot), known);
    assert mem[..][data..data + f.dataSize] == mem[data..data + f.dataSize];
    if CellSize(f) == 1 {
      PartKept(mid, mem[..], data, data + f.dataSize, cell, 1);
      assert mid[cell] == mid[cell..cell + 1][0];
    }
    if known {
      SingularOutcome(f, slot, wire, s, ok, stream.Rem(), was, mem[..], data, cell);
    }
  }

  method MarkPresent(f: Field, mem: array<byte>, data: nat, cell: int, ghost slot: Slot, ghost known: bool)
    requires LaidField(f) && (f.htype.Required? || f.htype.Optional?)
    requires RoomFor(f, mem.Length, data, cell) && (known ==> MemHolds(f, mem[..], data, cell, slot))
    modifies mem
    ensures OnlyAt(f, old(mem[..]), mem[..], data, cell) && (CellSize(f) == 1 ==> mem[cell] == 1)
    ensures mem[data..data + f.dataSize] == old(mem[data..data + f.dataSize])
    ensures known ==> Based(f, mem[data..data + f.dataSize], ItemOf(slot))
  {
    ghost var was := mem[..];
    if known {
      SlotBase(f, was[data..data + f.dataSize], CellPart(was, cell, CellSize(f)), slot);
    }
    assert was[data..data + f.dataSize] == mem[data..data + f.dataSize];
    if f.htype.Optional? && f.sizeOffset != 0 {
      Store(mem, cell, [1]);
      PartKept(was, mem[..], cell, cell + 1, data, f.dataSize);
      assert mem[cell] == mem[cell..cell + 1][0];
      assert was[data..data + f.dataSize] == mem[data..data + f.dataSize];
    }
  }

  /** Nothing is written behind the counts inside the entry at these addresses. */
  ghost predicate MemTail(f: Field, a: seq<byte>, b: seq<byte>, data: int, cell: int)
    requires LaidField(f) && RoomFor(f, |a|, data, cell) && |a| == |b|
  {
    TailSlot(f, a[data..data + MemberSize(f)], b[data..data + MemberSize(f)], CellPart(a, cell, CellSize(f)),
             CellPart(b, cell, CellSize(f)))
  }

  /** What a record does to memory, whatever it held: array counts stay in bounds, a union names the member. */
  ghost predicate FieldStep(f: Field, a: seq<byte>, b: seq<byte>, data: int, cell: int)
    requires LaidField(f) && RoomFor(f, |a|, data, cell)
  {
    && OnlyAt(f, a, b, data, cell)
    && (f.htype.Repeated? ==> ArrayStep(f, a, b, data, cell))
    && (f.htype.Oneof? ==> SizeAt(b, cell) == f.tag)
    && MemTail(f, a, b, data, cell)
  }

  /**
   decode_static_field on memory: on success and on failure only the entry's own data and its has_/count/which_
   cell change, and an array count within array_size stays there; from a known slot the result is the specified one.
   */
  method DecodeStaticFieldAt(stream: IStream, wire: nat, f: Field, mem: array<byte>, data: nat, cell: int, ghost slot: Slot,
                             ghost known: bool)
    returns (ok: bool)
    requires stream.Valid() && DecodableField(f) && LaidField(f) && RoomFor(f, mem.Length, data, cell)
    requires known ==> MemHolds(f, mem[..], data, cell, slot)
    modifies stream, mem
    ensures stream.Valid() && Forward(ok, old(stream.At()), stream.At())
    ensures ok ==> RecordEnd(f, wire, old(stream.Rem())) == Done((), stream.Rem())
    ensures FieldStep(f, old(mem[..]), mem[..], data, cell)
    ensures known ==> SlotOutcome(f, slot, wire, old(stream.Rem()), ok, stream.Rem(), old(mem[..]), mem[..], data, cell)
    decreases stream.bytesLeft, 4
  {
    ghost var was := mem[..];
    assert was[data..data + MemberSize(f)] == mem[data..data + MemberSize(f)];
    match f.htype {
      case Required =>
        ok := DecodeSingularAt(stream, wire, f, mem, data, cell, slot, known);
        assert mem[..][data..data + MemberSize(f)] == mem[data..data + MemberSize(f)];
      case Optional =>
        ok := DecodeSingularAt(stream, wire, f, mem, data, cell, slot, known);
        assert mem[..][data..data + MemberSize(f)] == mem[data..data + MemberSize(f)];
      case Oneof =>
        ok := DecodeUnionAt(stream, wire, f, mem, data, cell, slot);
      case Repeated =>
        if wire == WT_STRING && Packable(f.ltype) {
          ok := DecodeRunAt(stream, wire, f, mem, data, cell, slot, known);
        } else {
          ok := DecodeSingleAt(stream, wire, f, mem, data, cell, slot, known);
        }
    }
  }

  // ----- all records

  /** Array counts of a struct. */
  ghost predicate CountsWithin(fields: seq<Field>, bytes: seq<byte>)
    requires Laid(fields, |bytes|)
  {
    forall i :: 0 <= i < |fields| ==> CountWithin(fields, bytes, i)
  }

  ghost predicate CountWithin(fields: seq<Field>, bytes: seq<byte>, i: nat)
    requires Laid(fields, |bytes|) && i < |fields|
  {
    fields[i].htype.Repeated? ==> CountOf(fields, bytes, i) <= fields[i].arraySize
  }

  /** Changing entry p keeps every count within bounds if it keeps its own. */
  lemma CountsKept(fields: seq<Field>, a: seq<byte>, b: seq<byte>, p: nat)
    requires Laid(fields, |a|) && p < |fields| && OnlyEntry(fields, a, b, p)
    requires CountsWithin(fields, a) && (CountWithin(fields, a, p) ==> CountWithin(fields, b, p))
    ensures CountsWithin(fields, b)
  {
    forall i | 0 <= i < |fields| ensures CountWithin(fields, b, i) {
      assert CountWithin(fields, a, i);
      if i != p && fields[i].htype.Repeated? {
        ArrayElsewhere(fields, a, b, p, i);
      }
    }
  }

  /** An array shares no bytes with other entries. */
  lemma ArrayElsewhere(fields: seq<Field>, a: seq<byte>, b: seq<byte>, p: nat, i: nat)
    requires Laid(fields, |a|) && p < |fields| && i < |fields| && i != p && fields[i].htype.Repeated?
    requires OnlyEntry(fields, a, b, p)
    ensures EntrySame(fields, a, b, i)
  {
    if SlotOf(fields, i) == SlotOf(fields, p) { SameCell(fields, a, i, p); }
    EntryBytesKept(fields, a, b, p, i);
  }

  ghost predicate EntrySame(fields: seq<Field>, a: seq<byte>, b: seq<byte>, i: nat)
    requires Laid(fields, |a|) && |a| == |b| && i < |fields|
  {
    assert InStruct(fields, i, |a|);
    DataBytes(fields, a, i) == DataBytes(fields, b, i) && CellBytes(fields, a, i) == CellBytes(fields, b, i)
  }

  /** Entries in none of the slots met have the bytes they had. */
  ghost predicate EntriesKept(fields: seq<Field>, a: seq<byte>, b: seq<byte>, met: set<nat>)
    requires Laid(fields, |a|) && |a| == |b|
  {
    forall i :: 0 <= i < |fields| ==> EntryKeptUnlessMet(fields, a, b, met, i)
  }

  ghost predicate EntryKeptUnlessMet(fields: seq<Field>, a: seq<byte>, b: seq<byte>, met: set<nat>, i: nat)
    requires Laid(fields, |a|) && |a| == |b| && i < |fields|
  {
    NotMet(fields, met, SlotOf(fields, i)) ==> EntrySame(fields, a, b, i)
  }

  lemma EntriesKeptTrans(fields: seq<Field>, a: seq<byte>, b: seq<byte>, c: seq<byte>, x: set<nat>, y: set<nat>)
    requires Laid(fields, |a|) && |a| == |b| == |c| && x <= y
    requires EntriesKept(fields, a, b, x) && EntriesKept(fields, b, c, y)
    ensures EntriesKept(fields, a, c, y)
  {
    forall i | 0 <= i < |fields| ensures EntryKeptUnlessMet(fields, a, c, y, i) {
      assert EntryKeptUnlessMet(fields, a, b, x, i) && EntryKeptUnlessMet(fields, b, c, y, i);
      if NotMet(fields, y, SlotOf(fields, i)) { assert NotMet(fields, x, SlotOf(fields, i)); }
    }
  }

  /**
   Only the struct at `base` changed; array counts within bounds still are; nothing was written behind the counts of
   submessage arrays.
   */
  ghost predicate StructStep(fields: seq<Field>, size: nat, a: seq<byte>, b: seq<byte>, base: nat)
    requires Laid(fields, size) && base + size <= |a|
  {
    && SameOutside(a, b, base, base + size)
    && (CountsWithin(fields, a[base..base + size]) ==> CountsWithin(fields, b[base..base + size]))
    && Tails(fields, a[base..base + size], b[base..base + size])
  }

  lemma StructStepTrans(fields: seq<Field>, size: nat, a: seq<byte>, b: seq<byte>, c: seq<byte>, base: nat)
    requires Laid(fields, size) && base + size <= |a| && |a| == |b|
    requires StructStep(fields, size, a, b, base) && StructStep(fields, size, b, c, base)
    ensures StructStep(fields, size, a, c, base)
  {
    TailsTrans(fields, a[base..base + size], b[base..base + size], c[base..base + size]);
  }

  // ----- one record is a step of the struct

  /** The bytes of entry i represent its slot. */
  lemma {:induction false} SlotInMemory(fields: seq<Field>, mem: seq<byte>, base: nat, size: nat, msg: seq<Slot>, i: nat)
    requires Laid(fields, size) && base + size <= |mem| && i < |fields| && HoldsAll(fields, mem[base..base + size], msg)
    ensures SlotOf(fields, i) < |msg| && LaidField(fields[i])
    ensures var f, d, c := fields[i], base + DataAt(fields, i), base + CellAt(fields, i);
            RoomFor(f, |mem|, d, c) && MemHolds(f, mem, d, c, msg[SlotOf(fields, i)])
  {
    var bytes := mem[base..base + size];
    assert HoldsAt(fields, bytes, msg, i) && InStruct(fields, i, size) && fields[i] in fields;
    assert HoldsEntry(fields, bytes, i, msg[SlotOf(fields, i)]);
    EntryPart(fields, mem, base, size, i);
  }

  /** A record's effect on memory, as an effect on the struct: only entry p, and its array only forward. */
  ghost predicate EntryStep(fields: seq<Field>, a: seq<byte>, b: seq<byte>, p: nat)
    requires Laid(fields, |a|) && p < |fields|
  {
    && OnlyEntry(fields, a, b, p) && InStruct(fields, p, |a|) && fields[p] in fields
    && (fields[p].htype.Oneof? ==> FromLittleEndian(CellBytes(fields, b, p)) == fields[p].tag)
    && (CountWithin(fields, a, p) ==> CountWithin(fields, b, p))
    && TailEntry(fields, a, b, p)
  }

  /** Entry p's cell in the struct, by its address. */
  lemma {:induction false} CellInMemory(fields: seq<Field>, mem: seq<byte>, base: nat, size: nat, p: nat, c: int)
    requires Laid(fields, size) && base + size <= |mem| && p < |fields| && c == base + CellAt(fields, p)
    requires InStruct(fields, p, size) && CellSize(fields[p]) == SIZE_CELL
    ensures 0 <= c && c + SIZE_CELL <= |mem|
    ensures FromLittleEndian(CellBytes(fields, mem[base..base + size], p)) == SizeAt(mem, c)
  {
    SubPart(mem, base, size, CellAt(fields, p), SIZE_CELL);
  }

  /** The cell part: array counts and union members. */
  lemma {:induction false} CellToEntry(fields: seq<Field>, a: seq<byte>, b: seq<byte>, base: nat, size: nat, p: nat, d: int,
                                       c: int)
    requires Laid(fields, size) && base + size <= |a| == |b| && p < |fields| && InStruct(fields, p, size)
    requires c == base + CellAt(fields, p) && RoomFor(fields[p], |a|, d, c)
    requires fields[p].htype.Repeated? ==> ArrayStep(fields[p], a, b, d, c)
    requires fields[p].htype.Oneof? ==> SizeAt(b, c) == fields[p].tag
    ensures var x, y := a[base..base + size], b[base..base + size];
            && (fields[p].htype.Oneof? ==> FromLittleEndian(CellBytes(fields, y, p)) == fields[p].tag)
            && (CountWithin(fields, x, p) ==> CountWithin(fields, y, p))
  {
    if fields[p].htype.Repeated? || fields[p].htype.Oneof? {
      CellInMemory(fields, a, base, size, p, c);
      CellInMemory(fields, b, base, size, p, c);
    }
  }

  /** The data part: what lies behind the counts. */
  lemma {:induction false} DataToEntry(fields: seq<Field>, a: seq<byte>, b: seq<byte>, base: nat, size: nat, p: nat, d: int,
                                       c: int)
    requires Laid(fields, size) && base + size <= |a| == |b| && p < |fields| && InStruct(fields, p, size)
    requires d == base + DataAt(fields, p) && c == base + CellAt(fields, p) && RoomFor(fields[p], |a|, d, c)
    requires LaidField(fields[p]) && MemTail(fields[p], a, b, d, c)
    ensures TailEntry(fields, a[base..base + size], b[base..base + size], p)
  {
    EntryPart(fields, a, base, size, p);
    EntryPart(fields, b, base, size, p);
  }

  lemma {:induction false} FieldToEntry(fields: seq<Field>, a: seq<byte>, b: seq<byte>, base: nat, size: nat, p: nat, d: int,
                                        c: int)
    requires Laid(fields, size) && base + size <= |a| && p < |fields| && LaidField(fields[p])
    requires d == base + DataAt(fields, p) && c == base + CellAt(fields, p) && RoomFor(fields[p], |a|, d, c)
    requires FieldStep(fields[p], a, b, d, c)
    ensures |a| == |b| && SameOutside(a, b, base, base + size)
    ensures EntryStep(fields, a[base..base + size], b[base..base + size], p)
  {
    assert InStruct(fields, p, size) && fields[p] in fields;
    CellToEntry(fields, a, b, base, size, p, d, c);
    DataToEntry(fields, a, b, base, size, p, d, c);
    EntryChanged(fields, a, b, base, size, p);
  }

  /** What lies behind the counts of the other entries. */
  lemma {:induction false} OtherTails(fields: seq<Field>, a: seq<byte>, b: seq<byte>, p: nat, i: nat)
    requires Laid(fields, |a|) && p < |fields| && i < |fields| && i != p && OnlyEntry(fields, a, b, p)
    ensures TailEntry(fields, a, b, i)
  {
    assert InStruct(fields, i, |a|) && fields[i] in fields;
    if SlotOf(fields, i) == SlotOf(fields, p) {
      SameCell(fields, a, i, p);
    } else {
      EntryBytesKept(fields, a, b, p, i);
      TailSlotSame(fields[i], DataBytes(fields, a, i), CellBytes(fields, a, i));
    }
  }

  lemma {:induction false} EntryToStruct(fields: seq<Field>, a: seq<byte>, b: seq<byte>, p: nat)
    requires Laid(fields, |a|) && p < |fields| && EntryStep(fields, a, b, p)
    ensures CountsWithin(fields, a) ==> CountsWithin(fields, b)
    ensures Tails(fields, a, b) && EntriesKept(fields, a, b, {p})
  {
    if CountsWithin(fields, a) { CountsKept(fields, a, b, p); }
    forall i | 0 <= i < |fields| ensures TailEntry(fields, a, b, i) {
      if i != p { OtherTails(fields, a, b, p, i); }
    }
    forall i | 0 <= i < |fields| ensures EntryKeptUnlessMet(fields, a, b, {p}, i) {
      assert p in {p};
      if SlotOf(fields, i) != SlotOf(fields, p) { EntryBytesKept(fields, a, b, p, i); }
    }
  }

  /** How one record fails. */
  ghost predicate FoundFailed(fields: seq<Field>, slot: Slot, p: nat, s: seq<byte>, a: seq<byte>, b: seq<byte>)
    requires Laid(fields, |a|) && |a| == |b| && p < |fields|
  {
    Strands(fields, a, b, Under(p, |ItemsOf(slot)|, StaleField(fields[p], slot, s)))
  }

  /** One record decoded into entry p, on memory that represents msg. */
  ghost predicate FoundDone(fields: seq<Field>, msg: seq<Slot>, wire: nat, p: nat, s: seq<byte>, ok: bool, rem: seq<byte>,
                            a: seq<byte>, b: seq<byte>, next: seq<Slot>)
    requires Laid(fields, |a|) && |a| == |b| && p < |fields| && SlotOf(fields, p) < |msg|
  {
    var f, slot := fields[p], msg[SlotOf(fields, p)];
    var field := ReadField(f, slot, wire, s);
    && ok == field.Done?
    && (ok ==> rem == field.rest && next == msg[SlotOf(fields, p) := field.value] && HoldsAll(fields, b, next))
    && (!ok ==> FoundFailed(fields, slot, p, s, a, b))
  }

  /** Entry p's bytes represent its new slot: the struct represents the message with it. */
  lemma {:induction false} StoredInMemory(fields: seq<Field>, msg: seq<Slot>, p: nat, a: seq<byte>, b: seq<byte>, base: nat,
                                          size: nat, d: int, c: int, slot: Slot)
    requires p < |fields| && d == base + DataAt(fields, p) && c == base + CellAt(fields, p)
    requires Laid(fields, size) && DistinctTags(fields) && base + size <= |a| == |b| && LaidField(fields[p])
    requires HoldsAll(fields, a[base..base + size], msg) && SlotOf(fields, p) < |msg|
    requires EntryStep(fields, a[base..base + size], b[base..base + size], p)
    requires RoomFor(fields[p], |b|, d, c) && MemHolds(fields[p], b, d, c, slot)
    requires fields[p].htype.Oneof? ==> slot.Union? && slot.which == fields[p].tag
    ensures HoldsAll(fields, b[base..base + size], msg[SlotOf(fields, p) := slot])
  {
    HoldsInMemory(fields, b, base, size, p, d, c, slot);
    EntryStored(fields, a[base..base + size], b[base..base + size], msg, p, slot);
  }

  /** A record for a union member leaves it the named one. */
  lemma MemberNamed(f: Field, slot: Slot, wire: nat, s: seq<byte>)
    requires f.htype.Oneof? && ReadField(f, slot, wire, s).Done?
    ensures var next := ReadField(f, slot, wire, s).value; next.Union? && next.which == f.tag
  {
  }

  lemma {:induction false} FoundOk(fields: seq<Field>, msg: seq<Slot>, wire: nat, p: nat, s: seq<byte>, rem: seq<byte>,
                                   a: seq<byte>, b: seq<byte>, base: nat, size: nat, d: int, c: int)
    requires p < |fields| && d == base + DataAt(fields, p) && c == base + CellAt(fields, p)
    requires Laid(fields, size) && DistinctTags(fields) && base + size <= |a|
    requires |a| == |b| && p < |fields| && LaidField(fields[p])
    requires HoldsAll(fields, a[base..base + size], msg) && SlotOf(fields, p) < |msg|
    requires EntryStep(fields, a[base..base + size], b[base..base + size], p)
    requires RoomFor(fields[p], |b|, d, c)
    requires SlotOutcome(fields[p], msg[SlotOf(fields, p)], wire, s, true, rem, a, b, d, c)
    ensures var field := ReadField(fields[p], msg[SlotOf(fields, p)], wire, s);
            field.Done? && rem == field.rest && HoldsAll(fields, b[base..base + size], msg[SlotOf(fields, p) := field.value])
  {
    var slot := msg[SlotOf(fields, p)];
    if fields[p].htype.Oneof? { MemberNamed(fields[p], slot, wire, s); }
    StoredInMemory(fields, msg, p, a, b, base, size, d, c, ReadField(fields[p], slot, wire, s).value);
  }

  lemma {:induction false} FoundFails(fields: seq<Field>, msg: seq<Slot>, wire: nat, p: nat, s: seq<byte>, rem: seq<byte>,
                                      a: seq<byte>, b: seq<byte>, base: nat, size: nat, d: int, c: int)
    requires p < |fields| && d == base + DataAt(fields, p) && c == base + CellAt(fields, p)
    requires Laid(fields, size) && DistinctTags(fields) && base + size <= |a|
    requires |a| == |b| && p < |fields| && LaidField(fields[p])
    requires HoldsAll(fields, a[base..base + size], msg) && SlotOf(fields, p) < |msg|
    requires EntryStep(fields, a[base..base + size], b[base..base + size], p)
    requires RoomFor(fields[p], |b|, d, c)
    requires SlotOutcome(fields[p], msg[SlotOf(fields, p)], wire, s, false, rem, a, b, d, c)
    ensures FoundFailed(fields, msg[SlotOf(fields, p)], p, s, a[base..base + size], b[base..base + size])
  {
    var slot := msg[SlotOf(fields, p)];
    StrandsInMemory(fields, msg, p, a, b, base, size, d, c, |ItemsOf(slot)|, StaleField(fields[p], slot, s));
  }

  lemma {:induction false} StrandsInMemory(fields: seq<Field>, msg: seq<Slot>, p: nat, a: seq<byte>, b: seq<byte>, base: nat,
                                           size: nat, d: int, c: int, item: nat, stale: Option<seq<Hop>>)
    requires p < |fields| && d == base + DataAt(fields, p) && c == base + CellAt(fields, p)
    requires Laid(fields, size) && DistinctTags(fields) && base + size <= |a| == |b| && LaidField(fields[p])
    requires HoldsAll(fields, a[base..base + size], msg)
    requires EntryStep(fields, a[base..base + size], b[base..base + size], p)
    requires RoomFor(fields[p], |b|, d, c) && MemCounts(fields[p], b, d, c, item, stale)
    requires MemStale(fields[p], a, b, d, c, item, stale)
    ensures Strands(fields, a[base..base + size], b[base..base + size], Under(p, item, stale))
  {
    CountsInMemory(fields, b, base, size, p, d, c, item, stale);
    StaleInMemory(fields, a, b, base, size, p, d, c, item, stale);
    HoldsDeep(fields, a[base..base + size], msg);
    CountsStored(fields, a[base..base + size], b[base..base + size], p, item, stale);
  }

  /** A stale entry inside entry p, at its addresses, is one inside the struct. */
  lemma {:induction false} StaleInMemory(fields: seq<Field>, a: seq<byte>, b: seq<byte>, base: nat, size: nat, p: nat, d: int,
                                         c: int, item: nat, stale: Option<seq<Hop>>)
    requires Laid(fields, size) && base + size <= |a| == |b| && p < |fields| && LaidField(fields[p])
    requires d == base + DataAt(fields, p) && c == base + CellAt(fields, p) && InStruct(fields, p, size)
    requires RoomFor(fields[p], |a|, d, c) && MemStale(fields[p], a, b, d, c, item, stale)
    ensures StaleKept(fields, a[base..base + size], b[base..base + size], Under(p, item, stale))
    ensures StaleFree(fields, a[base..base + size], Under(p, item, stale))
  {
    EntryPart(fields, a, base, size, p);
    EntryPart(fields, b, base, size, p);
    if stale.Some? {
      var path := [Hop(p, item)] + stale.value;
      assert path[1..] == stale.value;
      assert OldInEntry(fields, a[base..base + size], b[base..base + size], p, item, stale.value);
      assert FreeInEntry(fields, a[base..base + size], p, item, stale.value);
    }
  }

  lemma {:induction false} CountsInMemory(fields: seq<Field>, mem: seq<byte>, base: nat, size: nat, p: nat, d: int, c: int,
                                          item: nat, stale: Option<seq<Hop>>)
    requires Laid(fields, size) && base + size <= |mem| && p < |fields| && LaidField(fields[p])
    requires d == base + DataAt(fields, p) && c == base + CellAt(fields, p) && InStruct(fields, p, size)
    requires RoomFor(fields[p], |mem|, d, c) && MemCounts(fields[p], mem, d, c, item, stale)
    ensures SlotCounts(fields[p], DataBytes(fields, mem[base..base + size], p), CellBytes(fields, mem[base..base + size], p),
                       item, stale)
  {
    EntryPart(fields, mem, base, size, p);
  }

  /** The bytes at entry p's addresses are its bytes in the struct. */
  lemma {:induction false} HoldsInMemory(fields: seq<Field>, mem: seq<byte>, base: nat, size: nat, p: nat, d: int, c: int,
                                         slot: Slot)
    requires Laid(fields, size) && base + size <= |mem| && p < |fields| && LaidField(fields[p])
    requires d == base + DataAt(fields, p) && c == base + CellAt(fields, p) && InStruct(fields, p, size)
    requires RoomFor(fields[p], |mem|, d, c) && MemHolds(fields[p], mem, d, c, slot)
    ensures HoldsEntry(fields, mem[base..base + size], p, slot)
  {
    EntryPart(fields, mem, base, size, p);
  }

  /** The message after a record for entry p. */
  ghost function After(fields: seq<Field>, msg: seq<Slot>, wire: nat, p: nat, s: seq<byte>): (next: seq<Slot>)
    requires p < |fields| && SlotOf(fields, p) < |msg|
    ensures |next| == |msg|
  {
    match ReadField(fields[p], msg[SlotOf(fields, p)], wire, s)
    case Fail => msg
    case Done(slot, _) => msg[SlotOf(fields, p) := slot]
  }

  lemma {:induction false} FoundOutcome(fields: seq<Field>, msg: seq<Slot>, wire: nat, p: nat, s: seq<byte>, ok: bool,
                                        rem: seq<byte>,
                                        a: seq<byte>, b: seq<byte>, base: nat, size: nat, known: bool, d: int, c: int)
    requires p < |fields| && d == base + DataAt(fields, p) && c == base + CellAt(fields, p)
    requires Laid(fields, size) && DistinctTags(fields) && base + size <= |a| && p < |fields| && LaidField(fields[p])
    requires SlotOf(fields, p) < |msg| && (known ==> HoldsAll(fields, a[base..base + size], msg))
    requires RoomFor(fields[p], |a|, d, c)
    requires FieldStep(fields[p], a, b, d, c)
    requires known ==> SlotOutcome(fields[p], msg[SlotOf(fields, p)], wire, s, ok, rem, a, b, d, c)
    ensures StructStep(fields, size, a, b, base)
    ensures EntriesKept(fields, a[base..base + size], b[base..base + size], {p})
    ensures known ==>
              FoundDone(fields, msg, wire, p, s, ok, rem, a[base..base + size], b[base..base + size],
                        After(fields, msg, wire, p, s))
  {
    FieldToEntry(fields, a, b, base, size, p, d, c);
    EntryToStruct(fields, a[base..base + size], b[base..base + size], p);
    if known && ok {
      FoundOk(fields, msg, wire, p, s, rem, a, b, base, size, d, c);
    } else if known {
      FoundFails(fields, msg, wire, p, s, rem, a, b, base, size, d, c);
    }
  }

  /** The entry the iterator stands at, decoded. */
  method DecodeFoundAt(stream: IStream, wire: nat, iter: FieldIter, size: nat, mem: array<byte>, base: nat,
                       ghost msg: seq<Slot>, ghost known: bool)
    returns (ok: bool, ghost next: seq<Slot>)
    requires stream.Valid() && iter.Valid() && iter.start != [] && iter.destStruct == base
    requires Decodable(iter.start) && Laid(iter.start, size) && base + size <= mem.Length
    requires |msg| == SlotCount(iter.start) && SlotOf(iter.start, iter.pos) < |msg|
    requires known ==> HoldsAll(iter.start, mem[base..base + size], msg)
    modifies stream, mem
    ensures stream.Valid() && Forward(ok, old(stream.At()), stream.At()) && |next| == |msg|
    ensures ok ==> RecordEnd(iter.start[iter.pos], wire, old(stream.Rem())) == Done((), stream.Rem())
    ensures StructStep(iter.start, size, old(mem[..]), mem[..], base)
    ensures EntriesKept(iter.start, old(mem[base..base + size]), mem[base..base + size], {iter.pos})
    ensures known ==>
              FoundDone(iter.start, msg, wire, iter.pos, old(stream.Rem()), ok, stream.Rem(),
                        old(mem[base..base + size]), mem[base..base + size], next)
    decreases stream.bytesLeft, 5
  {
    var fields, p := iter.start, iter.pos;
    var f := fields[p];
    ghost var was, s, slot := mem[..], stream.Rem(), msg[SlotOf(fields, p)];
    assert InStruct(fields, p, size) && f in fields;
    assert was[base..base + size] == mem[base..base + size];
    EntryPart(fields, was, base, size, p);
    if known { SlotInMemory(fields, was, base, size, msg, p); }
    ok := DecodeStaticFieldAt(stream, wire, f, mem, iter.pData, iter.pSize, slot, known);
    FoundOutcome(fields, msg, wire, p, s, ok, stream.Rem(), was, mem[..], base, size, known, iter.pData, iter.pSize);
    assert mem[..][base..base + size] == mem[base..base + size];
    next := After(fields, msg, wire, p, s);
  }

  // ----- the loop

  /** The record loop on a tag and what follows it. */
  lemma LoopTag(fields: seq<Field>, msg: seq<Slot>, seen: set<nat>, s: seq<byte>)
    requires |msg| == SlotCount(fields) && s != [] && ReadTag(s).Tag?
    ensures var t := ReadTag(s);
            && RunLoop(fields, msg, seen, s) == Dispatch(fields, msg, seen, t.wire, t.tag, t.rest)
            && Touched(fields, msg, s) == TouchedRecord(fields, msg, t.wire, t.tag, t.rest)
            && Stale(fields, msg, s) == StaleRecord(fields, msg, t.wire, t.tag, t.rest)
  {
  }

  /** One turn of the loop on memory that represents msg, after the tag. */
  ghost predicate RecordDone(fields: seq<Field>, msg: seq<Slot>, seen: set<nat>, wire: nat, tag: nat, s: seq<byte>,
                             ok: bool, rem: seq<byte>, met: set<nat>, next: seq<Slot>, a: seq<byte>, b: seq<byte>)
    requires Laid(fields, |a|) && |a| == |b| && |msg| == |next| == SlotCount(fields)
  {
    var stale := StaleRecord(fields, msg, wire, tag, s);
    && Dispatch(fields, msg, seen, wire, tag, s) == (if ok then RunLoop(fields, next, met, rem) else Failed)
    && seen + TouchedRecord(fields, msg, wire, tag, s) == met + (if ok then Touched(fields, next, rem) else {})
    && (ok ==> HoldsAll(fields, b, next) && stale == Stale(fields, next, rem))
    && (!ok ==> Strands(fields, a, b, stale))
  }

  lemma {:induction false} FoundRecord(fields: seq<Field>, msg: seq<Slot>, seen: set<nat>, wire: nat, p: nat, s: seq<byte>,
                                       ok: bool, rem: seq<byte>, next: seq<Slot>, a: seq<byte>, b: seq<byte>)
    requires Laid(fields, |a|) && |a| == |b| && |msg| == |next| == SlotCount(fields) && DistinctTags(fields)
    requires p < |fields| && SlotOf(fields, p) < |msg| && FoundDone(fields, msg, wire, p, s, ok, rem, a, b, next)
    ensures RecordDone(fields, msg, seen, wire, fields[p].tag, s, ok, rem, seen + {p}, next, a, b)
  {
    FindIs(fields, p);
  }

  lemma {:induction false} SkippedRecord(fields: seq<Field>, msg: seq<Slot>, seen: set<nat>, wire: nat, tag: nat, s: seq<byte>,
                                         ok: bool, rem: seq<byte>, a: seq<byte>)
    requires Laid(fields, |a|) && |msg| == SlotCount(fields) && HoldsAll(fields, a, msg) && Find(fields, tag).None?
    requires ok == NextRecord(fields, wire, tag, s).Done? && (ok ==> rem == NextRecord(fields, wire, tag, s).rest)
    ensures RecordDone(fields, msg, seen, wire, tag, s, ok, rem, seen, msg, a, a)
  {
    HoldsDeep(fields, a, msg);
  }

  /** One turn of the loop in pb_decode_noinit, after the tag. */
  method DecodeRecordAt(stream: IStream, iter: FieldIter, size: nat, mem: array<byte>, base: nat, wire: nat, tag: nat,
                        words: seq<nat>,
                        ghost seen: set<nat>, ghost msg: seq<Slot>, ghost known: bool)
    returns (ok: bool, fieldsSeen: seq<nat>, ghost met: set<nat>, ghost next: seq<Slot>)
    requires stream.Valid() && iter.Valid() && iter.destStruct == base && Marks(iter.start, seen, words)
    requires Decodable(iter.start) && Laid(iter.start, size) && base + size <= mem.Length
    requires |msg| == SlotCount(iter.start) && (known ==> HoldsAll(iter.start, mem[base..base + size], msg))
    modifies stream, iter, mem
    ensures stream.Valid() && Forward(ok, old(stream.At()), stream.At())
    ensures iter.Valid() && |next| == |msg| && Marks(iter.start, met, fieldsSeen) && seen <= met
    ensures met == seen + NamedBy(iter.start, tag)
    ensures ok ==> NextRecord(iter.start, wire, tag, old(stream.Rem())).Done?
    ensures ok ==> NextRecord(iter.start, wire, tag, old(stream.Rem())).rest == stream.Rem()
    ensures Find(iter.start, tag).None? ==> mem[..] == old(mem[..]) && next == msg
    ensures StructStep(iter.start, size, old(mem[..]), mem[..], base)
    ensures EntriesKept(iter.start, old(mem[base..base + size]), mem[base..base + size], met)
    ensures known ==>
              RecordDone(iter.start, msg, seen, wire, tag, old(stream.Rem()), ok, stream.Rem(), met, next,
                         old(mem[base..base + size]), mem[base..base + size])
    decreases stream.bytesLeft, 6
  {
    fieldsSeen, met, next := words, seen, msg;
    ghost var fields, s, before := iter.start, stream.Rem(), mem[base..base + size];
    var found := iter.Seek(tag);
    if !found || iter.start == [] {
      ok := SkipUnknownAt(stream, fields, wire, tag, found);
      NothingWritten(fields, size, mem[..], base, seen);
      if known { SkippedRecord(fields, msg, seen, wire, tag, s, ok, stream.Rem(), before); }
      return;
    }
    var i := iter.pos;
    MarksNext(fields, seen, words, i);
    if iter.start[i].htype.Required? && iter.requiredFieldIndex < MAX_REQUIRED {
      fieldsSeen := MarkWord(words, iter.requiredFieldIndex);
    }
    met := seen + {i};
    SlotMonotone(fields, i, i);
    ok, next := DecodeFoundAt(stream, wire, iter, size, mem, base, msg, known);
    OnlyMet(fields, before, mem[base..base + size], i, met);
    if known { FoundRecord(fields, msg, seen, wire, i, s, ok, stream.Rem(), next, before, mem[base..base + size]); }
  }

  /** A record for no entry is skipped; the terminator of an empty descriptor reads a varint and rejects data_size 0. */
  method SkipUnknownAt(stream: IStream, ghost fields: seq<Field>, wire: nat, ghost tag: nat, found: bool) returns (ok: bool)
    requires stream.Valid() && Find(fields, tag).None? && found == (fields == [] && tag == 0)
    modifies stream
    ensures stream.Valid() && Forward(ok, old(stream.At()), stream.At())
    ensures ok == NextRecord(fields, wire, tag, old(stream.Rem())).Done?
    ensures ok ==> NextRecord(fields, wire, tag, old(stream.Rem())).rest == stream.Rem()
  {
    if found {
      var value;
      ok, value := stream.DecodeVarint();
      ok := false;
    } else {
      ok := stream.Skip(wire);
    }
  }

  lemma NothingWritten(fields: seq<Field>, size: nat, mem: seq<byte>, base: nat, met: set<nat>)
    requires Laid(fields, size) && base + size <= |mem|
    ensures StructStep(fields, size, mem, mem, base)
    ensures EntriesKept(fields, mem[base..base + size], mem[base..base + size], met)
  {
    var bytes := mem[base..base + size];
    TailsSame(fields, bytes);
    forall p | 0 <= p < |fields| ensures EntryKeptUnlessMet(fields, bytes, bytes, met, p) {
    }
  }

  lemma OnlyMet(fields: seq<Field>, a: seq<byte>, b: seq<byte>, i: nat, met: set<nat>)
    requires Laid(fields, |a|) && |a| == |b| && i in met && EntriesKept(fields, a, b, {i})
    ensures EntriesKept(fields, a, b, met)
  {
    forall k | 0 <= k < |fields| ensures EntryKeptUnlessMet(fields, a, b, met, k) {
      assert EntryKeptUnlessMet(fields, a, b, {i}, k);
      if NotMet(fields, met, SlotOf(fields, k)) { assert NotMet(fields, {i}, SlotOf(fields, k)); }
    }
  }

  /** The check at the end of pb_decode_noinit: seek to the end, count the required fields, compare the words. */
  method CheckRequired(iter: FieldIter, fieldsSeen: seq<nat>) returns (ok: bool)
    requires iter.Valid() && |fieldsSeen| == 2 && CheckWords(fieldsSeen, RequiredCount(iter.start)).Some?
    modifies iter
    ensures iter.Valid()
    ensures CheckWords(fieldsSeen, RequiredCount(iter.start)) == Some(ok)
  {
    var fields := iter.start;
    if fields == [] {
      // req_field_count is 0 and the terminator's tag rules the fixup out.
      return true;
    }
    var reqFieldCount, last, more := iter.requiredFieldIndex, iter.pos, true;
    while more
      invariant iter.Valid() && last < |fields|
      invariant if more then true else last == |fields| - 1 && reqFieldCount == RequiredBefore(fields, last)
      decreases if more then |fields| - iter.pos else 0
    {
      reqFieldCount, last := iter.requiredFieldIndex, iter.pos;
      more := iter.Next();
    }
    if fields[last].htype.Required? {
      reqFieldCount := reqFieldCount + 1;
    }
    ok := CompareWords(fieldsSeen, reqFieldCount);
  }

  /** The whole words, then the remaining bits. */
  method CompareWords(fieldsSeen: seq<nat>, reqFieldCount: nat) returns (ok: bool)
    requires |fieldsSeen| == 2 && CheckWords(fieldsSeen, reqFieldCount).Some?
    ensures CheckWords(fieldsSeen, reqFieldCount) == Some(ok)
  {
    if reqFieldCount == 0 {
      return true;
    }
    for i := 0 to reqFieldCount / 32
      invariant CheckWhole(fieldsSeen, reqFieldCount, 0) == CheckWhole(fieldsSeen, reqFieldCount, i)
    {
      if fieldsSeen[i] != ALL_BITS {
        return false;
      }
    }
    ok := fieldsSeen[reqFieldCount / 32] == ALL_BITS / Pow2(32 - reqFieldCount % 32);
  }

  /** What a run of the loop does to the struct, whatever its bytes were. */
  ghost predicate RunStep(fields: seq<Field>, size: nat, a: seq<byte>, b: seq<byte>, base: nat, met: set<nat>)
    requires Laid(fields, size) && base + size <= |a|
  {
    StructStep(fields, size, a, b, base) && EntriesKept(fields, a[base..base + size], b[base..base + size], met)
  }

  lemma RunStepNext(fields: seq<Field>, size: nat, a: seq<byte>, b: seq<byte>, c: seq<byte>, base: nat, x: set<nat>,
                    y: set<nat>)
    requires Laid(fields, size) && base + size <= |a| && |a| == |b| && x <= y
    requires RunStep(fields, size, a, b, base, x) && RunStep(fields, size, b, c, base, y)
    ensures RunStep(fields, size, a, c, base, y)
  {
    StructStepTrans(fields, size, a, b, c, base);
    EntriesKeptTrans(fields, a[base..base + size], b[base..base + size], c[base..base + size], x, y);
  }

  /** The run on s from msg is the run on rem from now, which the struct represents. */
  ghost predicate Continues(fields: seq<Field>, msg: seq<Slot>, s: seq<byte>, bytes: seq<byte>, now: seq<Slot>,
                            seen: set<nat>, rem: seq<byte>)
    requires Laid(fields, |bytes|) && |msg| == |now| == SlotCount(fields)
  {
    && HoldsAll(fields, bytes, now)
    && RunLoop(fields, msg, {}, s) == RunLoop(fields, now, seen, rem)
    && Touched(fields, msg, s) == seen + Touched(fields, now, rem)
    && Stale(fields, msg, s) == Stale(fields, now, rem)
  }

  /** How a run from msg ended. */
  ghost predicate Ended(fields: seq<Field>, msg: seq<Slot>, s: seq<byte>, was: seq<byte>, bytes: seq<byte>, seen: set<nat>,
                        now: seq<Slot>, ok: bool, rem: seq<byte>)
    requires Laid(fields, |bytes|) && |was| == |bytes| && |msg| == SlotCount(fields)
  {
    && seen == Touched(fields, msg, s)
    && (ok ==> HoldsAll(fields, bytes, now) && Stale(fields, msg, s).None?)
    && (!ok ==> Strands(fields, was, bytes, Stale(fields, msg, s)))
    && Finish(fields, RunLoop(fields, msg, {}, s)) == (if ok && RequiredSeen(fields, seen) then Done(now, rem) else Fail)
  }

  /** One more record. */
  lemma {:induction false} ContinuesNext(fields: seq<Field>, msg: seq<Slot>, s: seq<byte>, a: seq<byte>, b: seq<byte>,
                                         now: seq<Slot>, seen: set<nat>, rem: seq<byte>, left: seq<byte>, met: set<nat>,
                                         next: seq<Slot>)
    requires Laid(fields, |a|) && |a| == |b| && |msg| == |now| == |next| == SlotCount(fields) && rem != [] && ReadTag(rem).Tag?
    requires Continues(fields, msg, s, a, now, seen, rem)
    requires RecordDone(fields, now, seen, ReadTag(rem).wire, ReadTag(rem).tag, ReadTag(rem).rest, true, left, met, next, a, b)
    ensures Continues(fields, msg, s, b, next, met, left)
  {
    LoopTag(fields, now, seen, rem);
  }

  /** A record that fails. */
  lemma {:induction false} ContinuesFails(fields: seq<Field>, msg: seq<Slot>, s: seq<byte>, was: seq<byte>, a: seq<byte>,
                                          b: seq<byte>, now: seq<Slot>, seen: set<nat>, rem: seq<byte>, left: seq<byte>,
                                          met: set<nat>, next: seq<Slot>)
    requires Laid(fields, |a|) && |was| == |a| == |b| && |msg| == |now| == |next| == SlotCount(fields)
    requires rem != [] && ReadTag(rem).Tag? && Continues(fields, msg, s, a, now, seen, rem) && Tails(fields, was, a)
    requires RecordDone(fields, now, seen, ReadTag(rem).wire, ReadTag(rem).tag, ReadTag(rem).rest, false, left, met, next, a, b)
    ensures Ended(fields, msg, s, was, b, met, next, false, left)
  {
    LoopTag(fields, now, seen, rem);
    var stale := Stale(fields, msg, s);
    if stale.Some? { OldSince(fields, was, a, b, stale.value); }
  }

  /** No tag could be read: the loop ends, or the run fails with the struct in order. */
  lemma {:induction false} ContinuesEnd(fields: seq<Field>, msg: seq<Slot>, s: seq<byte>, was: seq<byte>, bytes: seq<byte>,
                                        now: seq<Slot>, seen: set<nat>, rem: seq<byte>)
    requires Laid(fields, |bytes|) && |was| == |bytes| && |msg| == |now| == SlotCount(fields)
    requires Continues(fields, msg, s, bytes, now, seen, rem)
    ensures rem == [] ==> Ended(fields, msg, s, was, bytes, seen, now, true, [])
    ensures rem != [] && ReadTag(rem).Eof? ==> Ended(fields, msg, s, was, bytes, seen, now, true, ReadTag(rem).rest)
    ensures rem != [] && ReadTag(rem).BadTag? ==> forall left :: Ended(fields, msg, s, was, bytes, seen, now, false, left)
  {
    HoldsDeep(fields, bytes, now);
  }

  /** The loop's state: what has been done to memory, and, if that represented msg, that the run continues. */
  ghost predicate Running(fields: seq<Field>, size: nat, base: nat, was: seq<byte>, mem: seq<byte>, seen: set<nat>,
                          now: seq<Slot>,
                          known: bool, msg: seq<Slot>, s: seq<byte>, rem: seq<byte>)
    requires Laid(fields, size) && base + size <= |was| && |msg| == |now| == SlotCount(fields)
  {
    && RunStep(fields, size, was, mem, base, seen) && Named(fields, s) == seen + Named(fields, rem)
    && (known ==> Continues(fields, msg, s, mem[base..base + size], now, seen, rem))
  }

  /** How the loop ended. */
  ghost predicate RunDone(fields: seq<Field>, size: nat, base: nat, was: seq<byte>, mem: seq<byte>, seen: set<nat>,
                          now: seq<Slot>,
                          known: bool, msg: seq<Slot>, s: seq<byte>, ok: bool, rem: seq<byte>)
    requires Laid(fields, size) && base + size <= |was| && |msg| == SlotCount(fields)
  {
    && RunStep(fields, size, was, mem, base, seen)
    && seen <= Named(fields, s) && (ok ==> seen == Named(fields, s))
    && (known ==> Ended(fields, msg, s, was[base..base + size], mem[base..base + size], seen, now, ok, rem))
  }

  lemma {:induction false} NamedNext(fields: seq<Field>, s: seq<byte>, seen: set<nat>, rem: seq<byte>, met: set<nat>,
                                     left: seq<byte>)
    requires rem != [] && ReadTag(rem).Tag? && Named(fields, s) == seen + Named(fields, rem)
    requires met == seen + NamedBy(fields, ReadTag(rem).tag)
    requires var end := NextRecord(fields, ReadTag(rem).wire, ReadTag(rem).tag, ReadTag(rem).rest); end.Done? && end.rest == left
    ensures Named(fields, s) == met + Named(fields, left)
  {
  }

  lemma {:induction false} RunningNext(fields: seq<Field>, size: nat, base: nat, was: seq<byte>, a: seq<byte>, b: seq<byte>,
                                       seen: set<nat>, now: seq<Slot>, known: bool, msg: seq<Slot>, s: seq<byte>, rem: seq<byte>,
                                       left: seq<byte>, met: set<nat>, next: seq<Slot>)
    requires Laid(fields, size) && base + size <= |was| && |msg| == |now| == |next| == SlotCount(fields)
    requires rem != [] && ReadTag(rem).Tag?
    requires Running(fields, size, base, was, a, seen, now, known, msg, s, rem) && RunStep(fields, size, a, b, base, met)
    requires met == seen + NamedBy(fields, ReadTag(rem).tag)
    requires var end := NextRecord(fields, ReadTag(rem).wire, ReadTag(rem).tag, ReadTag(rem).rest); end.Done? && end.rest == left
    requires known ==>
               RecordDone(fields, now, seen, ReadTag(rem).wire, ReadTag(rem).tag, ReadTag(rem).rest, true, left, met, next,
                          a[base..base + size], b[base..base + size])
    ensures Running(fields, size, base, was, b, met, next, known, msg, s, left)
  {
    RunStepNext(fields, size, was, a, b, base, seen, met);
    NamedNext(fields, s, seen, rem, met, left);
    if known {
      ContinuesNext(fields, msg, s, a[base..base + size], b[base..base + size], now, seen, rem, left, met, next);
    }
  }

  lemma {:induction false} RunningFails(fields: seq<Field>, size: nat, base: nat, was: seq<byte>, a: seq<byte>, b: seq<byte>,
                                       seen: set<nat>, now: seq<Slot>, known: bool, msg: seq<Slot>, s: seq<byte>, rem: seq<byte>,
                                       left: seq<byte>, met: set<nat>, next: seq<Slot>)
    requires Laid(fields, size) && base + size <= |was| && |msg| == |now| == |next| == SlotCount(fields)
    requires rem != [] && ReadTag(rem).Tag?
    requires Running(fields, size, base, was, a, seen, now, known, msg, s, rem) && RunStep(fields, size, a, b, base, met)
    requires met == seen + NamedBy(fields, ReadTag(rem).tag)
    requires known ==>
               RecordDone(fields, now, seen, ReadTag(rem).wire, ReadTag(rem).tag, ReadTag(rem).rest, false, left, met, next,
                          a[base..base + size], b[base..base + size])
    ensures RunDone(fields, size, base, was, b, met, next, known, msg, s, false, left)
  {
    RunStepNext(fields, size, was, a, b, base, seen, met);
    if known {
      ContinuesFails(fields, msg, s, was[base..base + size], a[base..base + size], b[base..base + size],
                     now, seen, rem, left, met, next);
    }
  }

  lemma {:induction false} RunningEnd(fields: seq<Field>, size: nat, base: nat, was: seq<byte>, mem: seq<byte>, seen: set<nat>,
                                      now: seq<Slot>, known: bool, msg: seq<Slot>, s: seq<byte>, rem: seq<byte>)
    requires Laid(fields, size) && base + size <= |was| && |msg| == |now| == SlotCount(fields)
    requires Running(fields, size, base, was, mem, seen, now, known, msg, s, rem) && (rem == [] || !ReadTag(rem).Tag?)
    ensures rem == [] ==> RunDone(fields, size, base, was, mem, seen, now, known, msg, s, true, [])
    ensures rem != [] && ReadTag(rem).Eof? ==>
              RunDone(fields, size, base, was, mem, seen, now, known, msg, s, true, ReadTag(rem).rest)
    ensures rem != [] && ReadTag(rem).BadTag? ==>
              forall left :: RunDone(fields, size, base, was, mem, seen, now, known, msg, s, false, left)
  {
    if known { ContinuesEnd(fields, msg, s, was[base..base + size], mem[base..base + size], now, seen, rem); }
  }

  /** The loop of pb_decode_noinit: ends on an error, on eof, or when the input is exhausted. */
  method DecodeRecordsAt(stream: IStream, iter: FieldIter, size: nat, mem: array<byte>, base: nat, ghost msg: seq<Slot>,
                         ghost known: bool)
    returns (ok: bool, fieldsSeen: seq<nat>, ghost seen: set<nat>, ghost now: seq<Slot>)
    requires stream.Valid() && iter.Valid() && iter.destStruct == base
    requires Decodable(iter.start) && Laid(iter.start, size) && base + size <= mem.Length
    requires |msg| == SlotCount(iter.start) && (known ==> HoldsAll(iter.start, mem[base..base + size], msg))
    modifies stream, iter, mem
    ensures stream.Valid() && stream.End() <= old(stream.End()) && (ok ==> stream.End() == old(stream.End()))
    ensures iter.Valid() && Marks(iter.start, seen, fieldsSeen)
    ensures RunDone(iter.start, size, base, old(mem[..]), mem[..], seen, now, known, msg, old(stream.Rem()), ok, stream.Rem())
    decreases stream.bytesLeft, 8
  {
    var fields := iter.start;
    ghost var was, s := mem[..], stream.Rem();
    fieldsSeen, seen, now := [0, 0], {}, msg;
    MarksNothing(fields);
    NothingWritten(fields, size, was, base, {});
    assert was[base..base + size] == mem[base..base + size];
    var more := true;
    ok := true;
    while more && stream.bytesLeft > 0
      invariant stream.Valid() && stream.End() <= old(stream.End()) && (ok ==> stream.End() == old(stream.End()))
      invariant more ==> ok && stream.bytesLeft <= old(stream.bytesLeft)
      invariant iter.Valid() && Marks(fields, seen, fieldsSeen) && |now| == SlotCount(fields)
      invariant more ==> Running(fields, size, base, was, mem[..], seen, now, known, msg, s, stream.Rem())
      invariant !more ==> RunDone(fields, size, base, was, mem[..], seen, now, known, msg, s, ok, stream.Rem())
      decreases more, stream.bytesLeft
    {
      ok, more, fieldsSeen, seen, now := DecodeNextAt(stream, iter, size, mem, base, fieldsSeen, seen, now, was, msg, s, known);
    }
    if more { RunningEnd(fields, size, base, was, mem[..], seen, now, known, msg, s, stream.Rem()); }
  }

  /** One turn of it: `more` tells whether the loop goes on. */
  method DecodeNextAt(stream: IStream, iter: FieldIter, size: nat, mem: array<byte>, base: nat, words: seq<nat>,
                      ghost seen: set<nat>, ghost now: seq<Slot>, ghost was: seq<byte>, ghost msg: seq<Slot>,
                      ghost s: seq<byte>, ghost known: bool)
    returns (ok: bool, more: bool, fieldsSeen: seq<nat>, ghost met: set<nat>, ghost next: seq<Slot>)
    requires stream.Valid() && iter.Valid() && iter.destStruct == base && Marks(iter.start, seen, words)
    requires Decodable(iter.start) && Laid(iter.start, size) && base + size <= mem.Length == |was| && stream.bytesLeft > 0
    requires |msg| == |now| == SlotCount(iter.start)
    requires Running(iter.start, size, base, was, mem[..], seen, now, known, msg, s, stream.Rem())
    modifies stream, iter, mem
    ensures stream.Valid() && Forward(ok, old(stream.At()), stream.At()) && iter.Valid() && Marks(iter.start, met, fieldsSeen)
    ensures |next| == |now| && (more ==> ok && stream.bytesLeft < old(stream.bytesLeft))
    ensures more ==> Running(iter.start, size, base, was, mem[..], met, next, known, msg, s, stream.Rem())
    ensures !more ==> RunDone(iter.start, size, base, was, mem[..], met, next, known, msg, s, ok, stream.Rem())
    decreases stream.bytesLeft, 7
  {
    ghost var fields, before, rem := iter.start, mem[..], stream.Rem();
    assert before[base..base + size] == mem[base..base + size];
    var got, eof, wire, tag := stream.DecodeTag();
    if !got {
      RunningEnd(fields, size, base, was, before, seen, now, known, msg, s, rem);
      return eof, false, words, seen, now;
    }
    ok, fieldsSeen, met, next := DecodeRecordAt(stream, iter, size, mem, base, wire, tag, words, seen, now, known);
    assert mem[..][base..base + size] == mem[base..base + size];
    if ok {
      RunningNext(fields, size, base, was, before, mem[..], seen, now, known, msg, s, rem, stream.Rem(), met, next);
    } else {
      RunningFails(fields, size, base, was, before, mem[..], seen, now, known, msg, s, rem, stream.Rem(), met, next);
    }
    more := ok;
  }

  /**
   pb_decode_noinit on memory. For every input, accepted or not, nothing outside the struct is written, array
   counts that were within array_size stay within it, and entries not met keep their bytes; an entry is met only if a
   record names it, and on success exactly then. From a struct that represents `msg`, the result is the specified one;
   on success the struct represents the specified message, on failure array counts are within bounds at every depth, up
   to an array entry whose length prefix failed, which has its old bytes.
   */
  method DecodeNoInitAt(stream: IStream, fields: seq<Field>, size: nat, mem: array<byte>, base: nat, ghost msg: seq<Slot>,
                        ghost known: bool)
    returns (ok: bool, ghost met: set<nat>)
    requires stream.Valid() && Decodable(fields) && Laid(fields, size) && base + size <= mem.Length
    requires |msg| == SlotCount(fields) && (known ==> HoldsAll(fields, mem[base..base + size], msg))
    modifies stream, mem
    ensures stream.Valid() && stream.End() <= old(stream.End()) && (ok ==> stream.End() == old(stream.End()))
    ensures RunStep(fields, size, old(mem[..]), mem[..], base, met)
    ensures met <= Named(fields, old(stream.Rem())) && (ok ==> met == Named(fields, old(stream.Rem())))
    ensures known ==> met == Touched(fields, msg, old(stream.Rem()))
    ensures known ==>
              Decoded(fields, msg, old(stream.Rem()), ok, stream.Rem(), old(mem[base..base + size]), mem[base..base + size])
    decreases stream.bytesLeft, 9
  {
    var iter := new FieldIter(fields, base);
    var fieldsSeen;
    ghost var now;
    ok, fieldsSeen, met, now := DecodeRecordsAt(stream, iter, size, mem, base, msg, known);
    if ok {
      RequiredCheckIsExact(fields, met, fieldsSeen);
      if known { HoldsDeep(fields, mem[base..base + size], now); }
      ok := CheckRequired(iter, fieldsSeen);
    }
  }

  /** An entry whose slot was not touched still represents its default. */
  lemma {:induction false} UntouchedDefault(fields: seq<Field>, a: seq<byte>, b: seq<byte>, i: nat)
    requires Laid(fields, |a|) && |a| == |b| && i < |fields| && HoldsAll(fields, a, Defaults(fields))
    requires EntrySame(fields, a, b, i)
    ensures HoldsEntry(fields, b, i, DefaultSlot(fields[i]))
  {
    DefaultsAt(fields, i);
    assert HoldsAt(fields, a, Defaults(fields), i);
    assert HoldsEntry(fields, a, i, DefaultSlot(fields[i]));
    assert InStruct(fields, i, |a|);
  }

  /** After pb_decode, accepted or not: entries without a record are at their defaults. */
  ghost predicate RestDefault(fields: seq<Field>, bytes: seq<byte>, s: seq<byte>)
    requires Laid(fields, |bytes|)
  {
    forall i :: 0 <= i < |fields| ==> DefaultUnlessMet(fields, bytes, Touched(fields, Defaults(fields), s), i)
  }

  ghost predicate DefaultUnlessMet(fields: seq<Field>, bytes: seq<byte>, met: set<nat>, i: nat)
    requires Laid(fields, |bytes|) && i < |fields|
  {
    NotMet(fields, met, SlotOf(fields, i)) ==> HoldsEntry(fields, bytes, i, DefaultSlot(fields[i])) && InitAt(fields, bytes, i)
  }

  lemma {:induction false} RestIsDefault(fields: seq<Field>, a: seq<byte>, b: seq<byte>, s: seq<byte>)
    requires Laid(fields, |a|) && |a| == |b| && HoldsAll(fields, a, Defaults(fields))
    requires EntriesKept(fields, a, b, Touched(fields, Defaults(fields), s))
    ensures RestDefault(fields, b, s)
  {
    var met := Touched(fields, Defaults(fields), s);
    forall i | 0 <= i < |fields| ensures DefaultUnlessMet(fields, b, met, i) {
      assert EntryKeptUnlessMet(fields, a, b, met, i);
      if NotMet(fields, met, SlotOf(fields, i)) {
        UntouchedDefault(fields, a, b, i);
        HoldsInitAt(fields, b, i);
      }
    }
  }

  /** How pb_decode ends: `was` before the defaults were set, `mid` after, `bytes` after the records. */
  lemma {:induction false} DecodeEnds(fields: seq<Field>, s: seq<byte>, ok: bool, rem: seq<byte>, was: seq<byte>, mid: seq<byte>,
                                      bytes: seq<byte>)
    requires Laid(fields, |was|) && |was| == |mid| == |bytes| && ArraysKept(fields, was, mid)
    requires HoldsAll(fields, mid, Defaults(fields)) && EntriesKept(fields, mid, bytes, Touched(fields, Defaults(fields), s))
    requires Decoded(fields, Defaults(fields), s, ok, rem, mid, bytes)
    ensures RestDefault(fields, bytes, s)
    ensures ok ==> Deep(fields, bytes)
    ensures !ok ==> RunFailed(fields, Defaults(fields), s, was, bytes)
    ensures !ok ==> (Deep(fields, bytes) <==> StaysDeep(fields, Defaults(fields), s, was))
  {
    RestIsDefault(fields, mid, bytes, s);
    if ok {
      HoldsDeep(fields, bytes, Spec.Decode(fields, s).value);
    } else {
      StaleFromStart(fields, was, mid, bytes, Stale(fields, Defaults(fields), s));
      FailedDeepIff(fields, Defaults(fields), s, was, bytes);
    }
  }

  /**
   pb_decode on memory: whatever the struct held, the result is the specified one; on success the struct's bytes
   represent the specified message. Accepted or not, the rest of memory is as before, entries without a record are
   at their defaults, and array counts are within bounds at every depth, except possibly in an array entry whose
   length prefix could not be read: that entry still has its old bytes. So whether a failed run leaves all counts within
   bounds can be read off the struct before the call.
   */
  method DecodeAt(stream: IStream, fields: seq<Field>, size: nat, mem: array<byte>, base: nat) returns (ok: bool)
    requires stream.Valid() && Decodable(fields) && Laid(fields, size) && base + size <= mem.Length
    modifies stream, mem
    ensures stream.Valid() && stream.End() <= old(stream.End()) && (ok ==> stream.End() == old(stream.End()))
    ensures SameOutside(old(mem[..]), mem[..], base, base + size)
    ensures RestDefault(fields, mem[base..base + size], old(stream.Rem()))
    ensures ok == Spec.Decode(fields, old(stream.Rem())).Done?
    ensures ok ==> Spec.Decode(fields, old(stream.Rem())).rest == stream.Rem()
    ensures ok ==> HoldsAll(fields, mem[base..base + size], Spec.Decode(fields, old(stream.Rem())).value)
    ensures ok ==> Deep(fields, mem[base..base + size])
    ensures !ok ==> RunFailed(fields, Defaults(fields), old(stream.Rem()), old(mem[base..base + size]), mem[base..base + size])
    ensures !ok ==> (Deep(fields, mem[base..base + size]) <==>
                     StaysDeep(fields, Defaults(fields), old(stream.Rem()), old(mem[base..base + size])))
  {
    ghost var was, s, msg := mem[base..base + size], stream.Rem(), Defaults(fields);
    SetDefaultsAt(fields, size, mem, base);
    ghost var mid := mem[base..base + size];
    assert mem[..][base..base + size] == mid;
    ghost var met;
    ok, met := DecodeNoInitAt(stream, fields, size, mem, base, msg, true);
    ghost var bytes := mem[base..base + size];
    assert mem[..][base..base + size] == bytes;
    DecodeEnds(fields, s, ok, stream.Rem(), was, mid, bytes);
  }

  /**
   pb_decode_delimited: exactly the prefix and the declared length are consumed, however early the inner decode stops.
   Without a readable prefix nothing is written; if the inner decode fails, as many bytes are left as are behind the
   declared length.
   */
  method DecodeDelimitedAt(stream: IStream, fields: seq<Field>, size: nat, mem: array<byte>, base: nat) returns (ok: bool)
    requires stream.Valid() && Decodable(fields) && Laid(fields, size) && base + size <= mem.Length
    modifies stream, mem
    ensures stream.Valid() && stream.End() <= old(stream.End()) && (ok ==> stream.End() == old(stream.End()))
    ensures SameOutside(old(mem[..]), mem[..], base, base + size)
    ensures var p := TakeDelimited(old(stream.Rem()));
            && (ok <==> p.Done? && Spec.Decode(fields, p.value).Done?)
            && (ok ==> stream.Rem() == p.rest && HoldsAll(fields, mem[base..base + size], Spec.Decode(fields, p.value).value))
            && (p.Fail? ==> mem[..] == old(mem[..]))
            && (p.Done? ==> stream.bytesLeft == |p.rest|)
            && (p.Done? && !ok ==>
                  RunFailed(fields, Defaults(fields), p.value, old(mem[base..base + size]), mem[base..base + size]))
  {
    var sub;
    ok, sub := stream.MakeSubstream();
    if !ok {
      return;
    }
    ok := DecodeAt(sub, fields, size, mem, base);
    stream.CloseSubstream(sub);
  }
}
