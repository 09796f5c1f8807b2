/**
 What a failed run leaves in an array entry that was counted but never initialised: the bytes that were there before
 the run, or zeros inside a union. Hence whether all counts are within bounds is known before the run.
 */
module StaleEntries {
  import opened Words
  import opened Scalars
  import opened Descriptor
  import opened FieldIterator
  import opened FailedRuns
  import opened StructLayout
  import opened ArrayCounts
  import opened MemoryCells

  // ----- nothing is written behind the counts

  /** The count of an array. */
  ghost function CountOf(fields: seq<Field>, bytes: seq<byte>, p: nat): nat
    requires Laid(fields, |bytes|) && p < |fields| && fields[p].htype.Repeated?
  {
    assert InStruct(fields, p, |bytes|);
    FromLittleEndian(CellBytes(fields, bytes, p))
  }

  /**
   Counts of submessage arrays only grew, and entries behind the new counts have the bytes they had; so it is inside
   submessages that are decoded on top of their old contents.
   */
  ghost predicate Tails(fields: seq<Field>, a: seq<byte>, b: seq<byte>)
    requires Laid(fields, |a|) && |a| == |b|
    decreases fields, 2
  {
    forall p :: 0 <= p < |fields| ==> TailEntry(fields, a, b, p)
  }

  ghost predicate TailEntry(fields: seq<Field>, a: seq<byte>, b: seq<byte>, p: nat)
    requires Laid(fields, |a|) && |a| == |b| && p < |fields|
    decreases fields, 1
  {
    assert InStruct(fields, p, |a|) && fields[p] in fields;
    TailSlot(fields[p], DataBytes(fields, a, p), DataBytes(fields, b, p), CellBytes(fields, a, p), CellBytes(fields, b, p))
  }

  ghost predicate TailSlot(f: Field, x: seq<byte>, y: seq<byte>, cx: seq<byte>, cy: seq<byte>)
    requires LaidField(f) && |x| == |y| == MemberSize(f)
    decreases f, 2
  {
    match f.htype
    case Required => TailItem(f, x, y)
    case Optional => TailItem(f, x, y)
    case Repeated =>
      f.ltype.LSubmessage? ==> FromLittleEndian(cx) <= FromLittleEndian(cy) && TailKept(f, x, y, FromLittleEndian(cy))
    case Oneof => true
  }

  ghost predicate TailItem(f: Field, x: seq<byte>, y: seq<byte>)
    requires LaidField(f) && |x| == |y| == f.dataSize
    decreases f, 1
  {
    f.ltype.LSubmessage? ==> Tails(f.ltype.fields, x, y)
  }

  lemma {:induction false} TailsSame(fields: seq<Field>, a: seq<byte>)
    requires Laid(fields, |a|)
    ensures Tails(fields, a, a)
    decreases fields, 1
  {
    forall p | 0 <= p < |fields| ensures TailEntry(fields, a, a, p) {
      assert InStruct(fields, p, |a|) && fields[p] in fields;
      TailSlotSame(fields[p], DataBytes(fields, a, p), CellBytes(fields, a, p));
    }
  }

  lemma {:induction false} TailSlotSame(f: Field, x: seq<byte>, c: seq<byte>)
    requires LaidField(f) && |x| == MemberSize(f)
    ensures TailSlot(f, x, x, c, c)
    decreases f, 0
  {
    if f.ltype.LSubmessage? && !f.htype.Repeated? && !f.htype.Oneof? { TailsSame(f.ltype.fields, x); }
  }

  lemma {:induction false} TailsTrans(fields: seq<Field>, a: seq<byte>, b: seq<byte>, c: seq<byte>)
    requires Laid(fields, |a|) && |a| == |b| == |c| && Tails(fields, a, b) && Tails(fields, b, c)
    ensures Tails(fields, a, c)
    decreases fields, 1
  {
    forall p | 0 <= p < |fields| ensures TailEntry(fields, a, c, p) {
      assert InStruct(fields, p, |a|) && fields[p] in fields;
      assert TailEntry(fields, a, b, p) && TailEntry(fields, b, c, p);
      TailSlotTrans(fields[p], DataBytes(fields, a, p), DataBytes(fields, b, p), DataBytes(fields, c, p),
                    CellBytes(fields, a, p), CellBytes(fields, b, p), CellBytes(fields, c, p));
    }
  }

  lemma {:induction false} TailSlotTrans(f: Field, x: seq<byte>, y: seq<byte>, z: seq<byte>, cx: seq<byte>, cy: seq<byte>,
                                         cz: seq<byte>)
    requires LaidField(f) && |x| == |y| == |z| == MemberSize(f) && TailSlot(f, x, y, cx, cy) && TailSlot(f, y, z, cy, cz)
    ensures TailSlot(f, x, z, cx, cz)
    decreases f, 0
  {
    if f.ltype.LSubmessage? && !f.htype.Repeated? && !f.htype.Oneof? { TailsTrans(f.ltype.fields, x, y, z); }
  }

  // ----- the entry at the end of a path

  /** The entry the path names holds in b what it held in a; inside a union, whose memory is cleared, zeros. */
  ghost predicate OldAt(fields: seq<Field>, a: seq<byte>, b: seq<byte>, path: seq<Hop>)
    requires Laid(fields, |a|) && |a| == |b|
    decreases fields, 2
  {
    path != [] && path[0].entry < |fields| && OldInEntry(fields, a, b, path[0].entry, path[0].item, path[1..])
  }

  ghost predicate OldInEntry(fields: seq<Field>, a: seq<byte>, b: seq<byte>, p: nat, item: nat, path: seq<Hop>)
    requires Laid(fields, |a|) && |a| == |b| && p < |fields|
    decreases fields, 1
  {
    assert InStruct(fields, p, |a|) && fields[p] in fields;
    OldInSlot(fields[p], DataBytes(fields, a, p), DataBytes(fields, b, p), item, path)
  }

  ghost predicate OldInSlot(f: Field, x: seq<byte>, y: seq<byte>, item: nat, path: seq<Hop>)
    requires LaidField(f) && |x| == |y| == MemberSize(f)
    decreases f, 1
  {
    match f.htype
    case Required => OldInItem(f, x, y, path)
    case Optional => OldInItem(f, x, y, path)
    case Repeated =>
      item < f.arraySize &&
      if path == [] then Nth(f, x, item) == Nth(f, y, item) else OldInItem(f, Nth(f, x, item), Nth(f, y, item), path)
    case Oneof => OldInItem(f, Zeros(f.dataSize), y, path)
  }

  ghost predicate OldInItem(f: Field, x: seq<byte>, y: seq<byte>, path: seq<Hop>)
    requires LaidField(f) && |x| == |y| == f.dataSize
    decreases f, 0
  {
    f.ltype.LSubmessage? && OldAt(f.ltype.fields, x, y, path)
  }

  /** The entry is not among those its array counts, where no array or union is entered before. */
  ghost predicate FreeAt(fields: seq<Field>, a: seq<byte>, path: seq<Hop>)
    requires Laid(fields, |a|)
    decreases fields, 2
  {
    path != [] && path[0].entry < |fields| && FreeInEntry(fields, a, path[0].entry, path[0].item, path[1..])
  }

  ghost predicate FreeInEntry(fields: seq<Field>, a: seq<byte>, p: nat, item: nat, path: seq<Hop>)
    requires Laid(fields, |a|) && p < |fields|
    decreases fields, 1
  {
    assert InStruct(fields, p, |a|) && fields[p] in fields;
    FreeInSlot(fields[p], DataBytes(fields, a, p), CellBytes(fields, a, p), item, path)
  }

  ghost predicate FreeInSlot(f: Field, x: seq<byte>, cell: seq<byte>, item: nat, path: seq<Hop>)
    requires LaidField(f) && |x| == MemberSize(f)
    decreases f, 1
  {
    match f.htype
    case Required => FreeInItem(f, x, path)
    case Optional => FreeInItem(f, x, path)
    case Repeated => f.ltype.LSubmessage? && FromLittleEndian(cell) <= item
    case Oneof => true
  }

  ghost predicate FreeInItem(f: Field, x: seq<byte>, path: seq<Hop>)
    requires LaidField(f) && |x| == f.dataSize
    decreases f, 0
  {
    f.ltype.LSubmessage? && FreeAt(f.ltype.fields, x, path)
  }

  // ----- since when it holds that

  /** Since before a run that wrote nothing behind the counts. */
  lemma {:induction false} OldSince(fields: seq<Field>, a: seq<byte>, b: seq<byte>, c: seq<byte>, path: seq<Hop>)
    requires Laid(fields, |a|) && |a| == |b| == |c| && Tails(fields, a, b)
    requires OldAt(fields, b, c, path) && FreeAt(fields, b, path)
    ensures OldAt(fields, a, c, path) && FreeAt(fields, a, path)
    decreases fields, 1
  {
    var p := path[0].entry;
    assert InStruct(fields, p, |a|) && fields[p] in fields;
    assert TailEntry(fields, a, b, p);
    assert OldInEntry(fields, b, c, p, path[0].item, path[1..]) && FreeInEntry(fields, b, p, path[0].item, path[1..]);
    OldSlotSince(fields[p], DataBytes(fields, a, p), DataBytes(fields, b, p), DataBytes(fields, c, p),
                 CellBytes(fields, a, p), CellBytes(fields, b, p), path[0].item, path[1..]);
    assert OldInEntry(fields, a, c, p, path[0].item, path[1..]) && FreeInEntry(fields, a, p, path[0].item, path[1..]);
  }

  lemma {:induction false} OldSlotSince(f: Field, x: seq<byte>, y: seq<byte>, z: seq<byte>, cx: seq<byte>, cy: seq<byte>,
                                        item: nat, path: seq<Hop>)
    requires LaidField(f) && |x| == |y| == |z| == MemberSize(f) && TailSlot(f, x, y, cx, cy)
    requires OldInSlot(f, y, z, item, path) && FreeInSlot(f, y, cy, item, path)
    ensures OldInSlot(f, x, z, item, path) && FreeInSlot(f, x, cx, item, path)
    decreases f, 0
  {
    match f.htype
    case Required => OldSince(f.ltype.fields, x, y, z, path);
    case Optional => OldSince(f.ltype.fields, x, y, z, path);
    case Repeated => assert Nth(f, x, item) == Nth(f, y, item);
    case Oneof =>
  }

  /** Since before the defaults were set. */
  lemma {:induction false} OldFromStart(fields: seq<Field>, a: seq<byte>, b: seq<byte>, c: seq<byte>, path: seq<Hop>)
    requires Laid(fields, |a|) && |a| == |b| == |c| && ArraysKept(fields, a, b) && OldAt(fields, b, c, path)
    ensures OldAt(fields, a, c, path)
    decreases fields, 1
  {
    var p := path[0].entry;
    assert InStruct(fields, p, |a|) && fields[p] in fields;
    assert ArrayKept(fields, a, b, p) && OldInEntry(fields, b, c, p, path[0].item, path[1..]);
    OldSlotFromStart(fields[p], DataBytes(fields, a, p), DataBytes(fields, b, p), DataBytes(fields, c, p), path[0].item,
                     path[1..]);
    assert OldInEntry(fields, a, c, p, path[0].item, path[1..]);
  }

  lemma {:induction false} OldSlotFromStart(f: Field, x: seq<byte>, y: seq<byte>, z: seq<byte>, item: nat, path: seq<Hop>)
    requires LaidField(f) && |x| == |y| == |z| == MemberSize(f) && ContentKept(f, x, y) && OldInSlot(f, y, z, item, path)
    ensures OldInSlot(f, x, z, item, path)
    decreases f, 0
  {
    if f.htype.Required? || f.htype.Optional? { OldFromStart(f.ltype.fields, x, y, z, path); }
  }

  // ----- what is known before the run

  /** The entry the path names has its counts within bounds; inside a union, whose memory is cleared, it always will. */
  ghost predicate FineAt(fields: seq<Field>, bytes: seq<byte>, path: seq<Hop>)
    requires Laid(fields, |bytes|)
    decreases fields, 2
  {
    path != [] && path[0].entry < |fields| && FineInEntry(fields, bytes, path[0].entry, path[0].item, path[1..])
  }

  ghost predicate FineInEntry(fields: seq<Field>, bytes: seq<byte>, p: nat, item: nat, path: seq<Hop>)
    requires Laid(fields, |bytes|) && p < |fields|
    decreases fields, 1
  {
    assert InStruct(fields, p, |bytes|) && fields[p] in fields;
    FineInSlot(fields[p], DataBytes(fields, bytes, p), item, path)
  }

  ghost predicate FineInSlot(f: Field, data: seq<byte>, item: nat, path: seq<Hop>)
    requires LaidField(f) && |data| == MemberSize(f)
    decreases f, 1
  {
    match f.htype
    case Required => FineInItem(f, data, path)
    case Optional => FineInItem(f, data, path)
    case Repeated =>
      item < f.arraySize &&
      if path == [] then DeepItem(f, Nth(f, data, item)) else FineInItem(f, Nth(f, data, item), path)
    case Oneof => true
  }

  ghost predicate FineInItem(f: Field, bytes: seq<byte>, path: seq<Hop>)
    requires LaidField(f) && |bytes| == f.dataSize
    decreases f, 0
  {
    f.ltype.LSubmessage? && FineAt(f.ltype.fields, bytes, path)
  }

  lemma ZerosPart(n: nat, lo: nat, m: nat)
    requires lo + m <= n
    ensures Zeros(n)[lo..lo + m] == Zeros(m)
  {
  }

  /** Cleared memory has no count out of bounds: arrays are empty and unions name nobody. */
  lemma {:induction false} ZerosDeep(fields: seq<Field>, n: nat)
    requires Laid(fields, n)
    ensures Deep(fields, Zeros(n))
    decreases fields, 1
  {
    forall i | 0 <= i < |fields| ensures DeepEntry(fields, Zeros(n), i) {
      var f := fields[i];
      assert InStruct(fields, i, n) && f in fields;
      ZerosPart(n, DataAt(fields, i), MemberSize(f));
      if CellSize(f) > 0 { ZerosPart(n, CellAt(fields, i), CellSize(f)); }
      assert DataBytes(fields, Zeros(n), i) == Zeros(MemberSize(f)) && CellBytes(fields, Zeros(n), i) == Zeros(CellSize(f));
      ZeroSlotDeep(f);
    }
  }

  lemma {:induction false} ZeroSlotDeep(f: Field)
    requires LaidField(f)
    ensures DeepSlot(f, Zeros(MemberSize(f)), Zeros(CellSize(f)))
    decreases f, 0
  {
    ZeroWord(CellSize(f));
    if f.ltype.LSubmessage? && !f.htype.Repeated? && !f.htype.Oneof? { ZerosDeep(f.ltype.fields, f.dataSize); }
  }

  lemma {:induction false} ZerosFine(fields: seq<Field>, n: nat, path: seq<Hop>)
    requires Laid(fields, n) && Leads(fields, path)
    ensures FineAt(fields, Zeros(n), path)
    decreases fields, 1
  {
    var p, f := path[0].entry, fields[path[0].entry];
    assert InStruct(fields, p, n) && f in fields;
    ZerosPart(n, DataAt(fields, p), MemberSize(f));
    assert DataBytes(fields, Zeros(n), p) == Zeros(MemberSize(f));
    ZeroSlotFine(f, path[0].item, path[1..]);
    assert FineInEntry(fields, Zeros(n), p, path[0].item, path[1..]);
  }

  lemma {:induction false} ZeroSlotFine(f: Field, item: nat, path: seq<Hop>)
    requires LaidField(f) && LeadsFrom(f, item, path)
    ensures FineInSlot(f, Zeros(MemberSize(f)), item, path)
    decreases f, 0
  {
    if f.htype.Repeated? {
      ItemInside(f.dataSize, item, f.arraySize);
      ZerosPart(f.dataSize * f.arraySize, f.dataSize * item, f.dataSize);
      assert Nth(f, Zeros(MemberSize(f)), item) == Zeros(f.dataSize);
    }
    if path != [] { ZerosFine(f.ltype.fields, f.dataSize, path); } else { ZerosDeep(f.ltype.fields, f.dataSize); }
  }

  /** A struct that is in order but for the entry at the end of the path is in order exactly if that entry was before. */
  lemma {:induction false} DeepIff(fields: seq<Field>, a: seq<byte>, b: seq<byte>, path: seq<Hop>)
    requires Laid(fields, |a|) && |a| == |b| && Leads(fields, path) && Loose(fields, b, path) && OldAt(fields, a, b, path)
    ensures Deep(fields, b) <==> FineAt(fields, a, path)
    decreases fields, 1
  {
    var p, item, rest := path[0].entry, path[0].item, path[1..];
    assert InStruct(fields, p, |a|) && fields[p] in fields;
    assert LooseEntry(fields, b, p, item, rest) && OldInEntry(fields, a, b, p, item, rest);
    DeepSlotIff(fields[p], DataBytes(fields, a, p), DataBytes(fields, b, p), CellBytes(fields, b, p), item, rest);
    assert DeepEntry(fields, b, p) <==> FineInEntry(fields, a, p, item, rest);
  }

  lemma {:induction false} DeepSlotIff(f: Field, x: seq<byte>, y: seq<byte>, cell: seq<byte>, item: nat, path: seq<Hop>)
    requires LaidField(f) && |x| == |y| == MemberSize(f) && |cell| == CellSize(f) && LeadsFrom(f, item, path)
    requires LooseSlot(f, y, cell, item, path) && OldInSlot(f, x, y, item, path)
    ensures DeepSlot(f, y, cell) <==> FineInSlot(f, x, item, path)
    decreases f, 0
  {
    match f.htype
    case Required => DeepIff(f.ltype.fields, x, y, path);
    case Optional => DeepIff(f.ltype.fields, x, y, path);
    case Oneof =>
      DeepIff(f.ltype.fields, Zeros(f.dataSize), y, path);
      ZerosFine(f.ltype.fields, f.dataSize, path);
    case Repeated =>
      if path != [] { DeepIff(f.ltype.fields, Nth(f, x, item), Nth(f, y, item), path); }
      assert DeepItems(f, y, item + 1) <==> DeepItem(f, Nth(f, y, item));
  }

  // ----- failed runs

  /** A stale entry has its old bytes. */
  ghost predicate StaleKept(fields: seq<Field>, a: seq<byte>, b: seq<byte>, stale: Option<seq<Hop>>)
    requires Laid(fields, |a|) && |a| == |b|
  {
    stale.Some? ==> OldAt(fields, a, b, stale.value)
  }

  /** A stale entry was behind its array's count. */
  ghost predicate StaleFree(fields: seq<Field>, a: seq<byte>, stale: Option<seq<Hop>>)
    requires Laid(fields, |a|)
  {
    stale.Some? ==> FreeAt(fields, a, stale.value)
  }

  /** Counts are within bounds up to a stale entry, which has its old bytes and was not counted before. */
  ghost predicate Strands(fields: seq<Field>, a: seq<byte>, b: seq<byte>, stale: Option<seq<Hop>>)
    requires Laid(fields, |a|) && |a| == |b|
  {
    Counts(fields, b, stale) && StaleKept(fields, a, b, stale) && StaleFree(fields, a, stale)
  }

  /** After a failed run: counts are within bounds up to a stale entry, and that has its old bytes. */
  ghost predicate RunFailed(fields: seq<Field>, msg: seq<Slot>, s: seq<byte>, a: seq<byte>, b: seq<byte>)
    requires Laid(fields, |a|) && |a| == |b| && |msg| == SlotCount(fields)
  {
    Counts(fields, b, Stale(fields, msg, s)) && StaleKept(fields, a, b, Stale(fields, msg, s))
  }

  /** Known before the run: if it fails, it leaves all counts within bounds. */
  ghost predicate StaysDeep(fields: seq<Field>, msg: seq<Slot>, s: seq<byte>, bytes: seq<byte>)
    requires Laid(fields, |bytes|) && |msg| == SlotCount(fields)
  {
    match Stale(fields, msg, s)
    case None => true
    case Some(path) => FineAt(fields, bytes, path)
  }

  /** After a failed run, counts are within bounds at every depth if and only if that could be known before. */
  lemma {:induction false} FailedDeepIff(fields: seq<Field>, msg: seq<Slot>, s: seq<byte>, a: seq<byte>, b: seq<byte>)
    requires Laid(fields, |a|) && |a| == |b| && |msg| == SlotCount(fields) && RunFailed(fields, msg, s, a, b)
    ensures Deep(fields, b) <==> StaysDeep(fields, msg, s, a)
  {
    var stale := Stale(fields, msg, s);
    if stale.Some? { DeepIff(fields, a, b, stale.value); }
  }

  /** Nothing is written on the way to a stale entry of one of the struct's own arrays: the condition in its simplest case. */
  lemma {:induction false} OwnStaleIff(fields: seq<Field>, msg: seq<Slot>, s: seq<byte>, a: seq<byte>, p: nat, n: nat)
    requires Laid(fields, |a|) && |msg| == SlotCount(fields) && Stale(fields, msg, s) == Some([Hop(p, n)])
    ensures p < |fields| && InStruct(fields, p, |a|) && fields[p].htype.Repeated? && n < fields[p].arraySize
    ensures LaidField(fields[p])
    ensures StaysDeep(fields, msg, s, a) <==> DeepItem(fields[p], Nth(fields[p], DataBytes(fields, a, p), n))
  {
    var path := [Hop(p, n)];
    assert path[1..] == [] && Leads(fields, path) && LeadsFrom(fields[p], n, []);
    assert InStruct(fields, p, |a|) && fields[p] in fields;
    assert FineAt(fields, a, path) <==> FineInEntry(fields, a, p, n, []);
    assert FineInEntry(fields, a, p, n, []) <==> FineInSlot(fields[p], DataBytes(fields, a, p), n, []);
  }
}
