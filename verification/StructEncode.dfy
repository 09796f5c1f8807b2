/** The encoder on raw struct memory: what it reads through the iterator's pointers, and the way back through the decoder. */
module StructEncode {
  import opened Words
  import opened Scalars
  import opened Descriptor
  import opened EncodeSpec
  import opened FieldIterator
  import opened RequiredBits
  import opened StructLayout
  import opened Initialised
  import opened SentRecords
  import opened MemoryCells
  import opened StructMemory
  import opened InputStream
  import opened Delivery
  import opened RoundTrip
  import Encoder

  // ----- loads

  /** The value in a data cell. A byte string whose size word exceeds its buffer loads as nothing, which does not encode. */
  function LoadItem(f: Field, bytes: seq<byte>): Item
    requires LaidField(f) && |bytes| == f.dataSize
    decreases f, 0
  {
    match f.ltype
    case LVarint => Int(SignedOf(f.dataSize, FromLittleEndian(bytes)))
    case LSVarint => Int(SignedOf(f.dataSize, FromLittleEndian(bytes)))
    case LUVarint => Int(FromLittleEndian(bytes))
    case LFixed32 => Int(FromLittleEndian(bytes))
    case LFixed64 => Int(FromLittleEndian(bytes))
    case LBytes =>
      var n := FromLittleEndian(bytes[..BYTES_HEADER]);
      if BYTES_HEADER + n <= |bytes| then Blob(bytes[BYTES_HEADER..BYTES_HEADER + n]) else Unset
    case LString => Text(bytes)
    case LFixedLengthBytes => Blob(bytes)
    case LSubmessage(sub) => Msg(LoadAll(sub, bytes))
  }

  function LoadItems(f: Field, data: seq<byte>, n: nat): (items: seq<Item>)
    requires LaidField(f) && |data| == f.dataSize * f.arraySize && n <= f.arraySize
    ensures |items| == n
    decreases f, 1, n
  {
    if n == 0 then [] else LoadItems(f, data, n - 1) + [LoadItem(f, Nth(f, data, n - 1))]
  }

  /** An entry's slot. A count beyond array_size loads that many unreadable items, which do not encode. */
  function LoadSlot(f: Field, data: seq<byte>, cell: seq<byte>): Slot
    requires LaidField(f) && |data| == MemberSize(f) && |cell| == CellSize(f)
    decreases f, 2
  {
    match f.htype
    case Required => Single(LoadItem(f, data))
    case Optional => if f.sizeOffset == 0 then Single(LoadItem(f, data)) else Opt(cell != [0], LoadItem(f, data))
    case Repeated =>
      var n := FromLittleEndian(cell);
      Arr(if n <= f.arraySize then LoadItems(f, data, n) else seq(n, i => Unset))
    case Oneof =>
      var which := FromLittleEndian(cell);
      Union(which, if which == f.tag then LoadItem(f, data) else Unset)
  }

  /** The cell encode_basic_field reads: at the entry's own size_offset, inside a union as well. */
  function EncoderCell(fields: seq<Field>, bytes: seq<byte>, i: nat): (r: seq<byte>)
    requires Laid(fields, |bytes|) && i < |fields|
    ensures InStruct(fields, i, |bytes|) && r == CellBytes(fields, bytes, i)
  {
    assert InStruct(fields, i, |bytes|) && CellTrue(fields, i);
    var at := DataAt(fields, i) + fields[i].sizeOffset;
    if CellSize(fields[i]) == 0 then [] else bytes[at..at + CellSize(fields[i])]
  }

  function LoadEntry(fields: seq<Field>, bytes: seq<byte>, i: nat): Slot
    requires Laid(fields, |bytes|) && i < |fields|
    decreases fields, 0
  {
    assert InStruct(fields, i, |bytes|) && fields[i] in fields;
    LoadSlot(fields[i], DataBytes(fields, bytes, i), EncoderCell(fields, bytes, i))
  }

  function LoadEntries(fields: seq<Field>, bytes: seq<byte>): (seen: seq<Slot>)
    requires Laid(fields, |bytes|)
    ensures |seen| == |fields|
    decreases fields, 1
  {
    seq(|fields|, i requires 0 <= i < |fields| => LoadEntry(fields, bytes, i))
  }

  /** The slots of a message from its entries' views of them: a union is seen through the member it names. */
  function Assemble(fields: seq<Field>, seen: seq<Slot>, n: nat): (msg: seq<Slot>)
    requires n <= |fields| == |seen|
    ensures |msg| == if n == 0 then 0 else SlotOf(fields, n - 1) + 1
  {
    if n == 0 then []
    else
      var before, slot := Assemble(fields, seen, n - 1), seen[n - 1];
      if !Joined(fields, n - 1) then before + [slot]
      else if slot.Union? && slot.which == fields[n - 1].tag then before[SlotOf(fields, n - 1) := slot]
      else before
  }

  /** The message in a struct. */
  function LoadAll(fields: seq<Field>, bytes: seq<byte>): (msg: seq<Slot>)
    requires Laid(fields, |bytes|)
    ensures |msg| == SlotCount(fields)
    decreases fields, 2
  {
    Assemble(fields, LoadEntries(fields, bytes), |fields|)
  }

  // ----- what is loaded encodes like what the bytes represent

  /** The two items are the same to the encoder. */
  ghost predicate SameItem(f: Field, a: Item, b: Item) {
    && EncodeItem(f, a) == EncodeItem(f, b) && (IsZero(f, a) <==> IsZero(f, b))
    && forall limit :: ItemLengthsBelow(f, a, limit) <==> ItemLengthsBelow(f, b, limit)
  }

  /** The two slots are the same to the encoder of entry f. */
  ghost predicate SameSlot(f: Field, a: Slot, b: Slot) {
    EncodeField(f, a) == EncodeField(f, b) && forall limit :: SlotLengthsBelow(f, a, limit) <==> SlotLengthsBelow(f, b, limit)
  }

  /** A string ends at its first zero, wherever the buffer goes on behind it. */
  lemma {:induction false} SameCString(a: seq<byte>, b: seq<byte>, max: nat)
    requires |b| <= |a| == max && a[..|b|] == b && (|b| < |a| ==> a[|b|] == 0)
    ensures CString(a, max) == CString(b, max)
    decreases max
  {
    if b != [] && b[0] != 0 {
      assert a[0] == a[..|b|][0];
      assert a[1..][..|b| - 1] == a[..|b|][1..];
      SameCString(a[1..], b[1..], max - 1);
    } else if b != [] {
      assert a[0] == a[..|b|][0];
    }
  }

  lemma {:induction false} LoadedLeaf(f: Field, bytes: seq<byte>, item: Item)
    requires LaidField(f) && |bytes| == f.dataSize && Holds(f, bytes, item) && !f.ltype.LSubmessage?
    ensures if f.ltype.LString? then item.Text? && CString(bytes, f.dataSize) == CString(item.bytes, f.dataSize)
            else LoadItem(f, bytes) == item
  {
    if Packable(f.ltype) {
      LoadsBack(f, bytes, item);
    } else if f.ltype.LString? {
      SameCString(bytes, item.bytes, f.dataSize);
    }
  }

  lemma {:induction false} LoadedItem(f: Field, bytes: seq<byte>, item: Item)
    requires LaidField(f) && |bytes| == f.dataSize && Holds(f, bytes, item) && WellFormedField(f)
    ensures SameItem(f, LoadItem(f, bytes), item)
    decreases f, 0
  {
    if f.ltype.LSubmessage? {
      LoadedAll(f.ltype.fields, bytes, item.slots);
    } else {
      LoadedLeaf(f, bytes, item);
    }
  }

  ghost predicate SameItems(f: Field, a: seq<Item>, b: seq<Item>) {
    |a| == |b| && forall k :: 0 <= k < |a| ==> SameItem(f, a[k], b[k])
  }

  lemma {:induction false} LoadedItems(f: Field, data: seq<byte>, items: seq<Item>, n: nat)
    requires LaidField(f) && |data| == f.dataSize * f.arraySize && HoldsItems(f, data, items) && n <= |items|
    requires WellFormedField(f)
    ensures SameItems(f, LoadItems(f, data, n), items[..n])
    ensures Packable(f.ltype) ==> LoadItems(f, data, n) == items[..n]
    decreases f, 1, n
  {
    if n > 0 {
      LoadedItems(f, data, items, n - 1);
      assert HoldsNth(f, data, n - 1, items[n - 1]);
      LoadedItem(f, Nth(f, data, n - 1), items[n - 1]);
      if Packable(f.ltype) { LoadedLeaf(f, Nth(f, data, n - 1), items[n - 1]); }
      assert items[..n] == items[..n - 1] + [items[n - 1]];
    }
  }

  lemma {:induction false} SameRecords(f: Field, a: seq<Item>, b: seq<Item>)
    requires SameItems(f, a, b)
    ensures EncodeRecords(f, a) == EncodeRecords(f, b)
    decreases |a|
  {
    if a != [] {
      assert SameItem(f, a[0], b[0]);
      SameRecords(f, a[1..], b[1..]);
    }
  }

  lemma {:induction false} SameArrays(f: Field, a: seq<Item>, b: seq<Item>)
    requires SameItems(f, a, b) && f.htype.Repeated? && (Packable(f.ltype) ==> a == b)
    ensures SameSlot(f, Arr(a), Arr(b))
  {
    if !Packable(f.ltype) {
      SameRecords(f, a, b);
      forall limit ensures SlotLengthsBelow(f, Arr(a), limit) <==> SlotLengthsBelow(f, Arr(b), limit) {
        SameLengths(f, a, b, limit);
      }
    }
  }

  lemma SameLengths(f: Field, a: seq<Item>, b: seq<Item>, limit: nat)
    requires SameItems(f, a, b)
    ensures (forall x :: x in a ==> ItemLengthsBelow(f, x, limit)) <==> (forall x :: x in b ==> ItemLengthsBelow(f, x, limit))
  {
    if forall x :: x in a ==> ItemLengthsBelow(f, x, limit) {
      forall x | x in b ensures ItemLengthsBelow(f, x, limit) {
        var k :| 0 <= k < |b| && b[k] == x;
        assert a[k] in a && SameItem(f, a[k], b[k]);
      }
    }
    if forall x :: x in b ==> ItemLengthsBelow(f, x, limit) {
      forall x | x in a ensures ItemLengthsBelow(f, x, limit) {
        var k :| 0 <= k < |a| && a[k] == x;
        assert b[k] in b && SameItem(f, a[k], b[k]);
      }
    }
  }

  lemma {:induction false} LoadedSlot(f: Field, data: seq<byte>, cell: seq<byte>, slot: Slot)
    requires LaidField(f) && |data| == MemberSize(f) && |cell| == CellSize(f) && HoldsSlot(f, data, cell, slot)
    requires WellFormedField(f)
    ensures SameSlot(f, LoadSlot(f, data, cell), slot)
    decreases f, 2
  {
    if f.htype.Repeated? {
      assert HoldsItems(f, data, slot.items);
      LoadedItems(f, data, slot.items, |slot.items|);
      assert slot.items[..|slot.items|] == slot.items;
      SameArrays(f, LoadItems(f, data, |slot.items|), slot.items);
    } else if f.htype.Oneof? ==> slot.which == f.tag {
      LoadedItem(f, data, slot.item);
    }
  }

  // ----- unions

  /** Entry i's slot in the message: its own view of it, or a union that names another member. */
  ghost predicate SeenFrom(fields: seq<Field>, view: Slot, msg: seq<Slot>, i: nat)
    requires i < |fields|
  {
    && SlotOf(fields, i) < |msg|
    && var slot := msg[SlotOf(fields, i)];
    if fields[i].htype.Oneof? then
      view.Union? && slot.Union? && slot.which == view.which && (slot.which == fields[i].tag ==> slot == view)
    else slot == view
  }

  /** The members of a union agree on whom it names. */
  ghost predicate Agree(fields: seq<Field>, seen: seq<Slot>, i: nat, p: nat)
    requires i < |fields| == |seen| && p < |fields|
  {
    fields[i].htype.Oneof? && fields[p].htype.Oneof? && SlotOf(fields, i) == SlotOf(fields, p) ==>
      seen[i].Union? && seen[p].Union? && seen[i].which == seen[p].which
  }

  ghost predicate AllAgree(fields: seq<Field>, seen: seq<Slot>)
    requires |fields| == |seen|
  {
    forall i, p :: 0 <= i < |fields| && 0 <= p < |fields| ==> Agree(fields, seen, i, p)
  }

  lemma {:induction false} AssembledAt(fields: seq<Field>, seen: seq<Slot>, n: nat, i: nat)
    requires i < n <= |fields| == |seen| && DistinctTags(fields) && AllAgree(fields, seen)
    ensures SeenFrom(fields, seen[i], Assemble(fields, seen, n), i)
    decreases n
  {
    var p := n - 1;
    if i < p {
      AssembledAt(fields, seen, p, i);
      NextAssembled(fields, seen, p, i);
    } else {
      if Joined(fields, i) { AssembledAt(fields, seen, i, i - 1); }
      LastAssembled(fields, seen, i);
    }
  }

  /** Entry p changes nothing for the entries before it: a mate is overwritten only if the union does not name it. */
  lemma {:induction false} NextAssembled(fields: seq<Field>, seen: seq<Slot>, p: nat, i: nat)
    requires i < p < |fields| == |seen| && DistinctTags(fields) && AllAgree(fields, seen)
    requires SeenFrom(fields, seen[i], Assemble(fields, seen, p), i)
    ensures SeenFrom(fields, seen[i], Assemble(fields, seen, p + 1), i)
  {
    SlotMonotone(fields, i, p);
    assert Agree(fields, seen, i, p);
    if SlotOf(fields, i) == SlotOf(fields, p) {
      SharedSlot(fields, i, p);
      assert fields[i].tag != fields[p].tag;
    }
  }

  lemma {:induction false} LastAssembled(fields: seq<Field>, seen: seq<Slot>, p: nat)
    requires p < |fields| == |seen| && AllAgree(fields, seen)
    requires Joined(fields, p) ==> SeenFrom(fields, seen[p - 1], Assemble(fields, seen, p), p - 1)
    ensures SeenFrom(fields, seen[p], Assemble(fields, seen, p + 1), p)
  {
    assert Agree(fields, seen, p, p);
    if Joined(fields, p) { assert Agree(fields, seen, p - 1, p); }
  }

  lemma EntriesAt(fields: seq<Field>, bytes: seq<byte>, i: nat)
    requires Laid(fields, |bytes|) && i < |fields|
    ensures LoadEntries(fields, bytes)[i] == LoadEntry(fields, bytes, i)
  {
  }

  ghost function WhichOf(fields: seq<Field>, bytes: seq<byte>, i: nat): nat
    requires Laid(fields, |bytes|) && i < |fields|
  {
    assert InStruct(fields, i, |bytes|);
    FromLittleEndian(CellBytes(fields, bytes, i))
  }

  lemma {:induction false} EntrySeen(fields: seq<Field>, bytes: seq<byte>, n: nat)
    requires Laid(fields, |bytes|) && n < |fields|
    ensures var slot := LoadEntry(fields, bytes, n);
            fields[n].htype.Oneof? ==> slot.Union? && slot.which == WhichOf(fields, bytes, n)
  {
  }

  /** Union mates read the same which_ cell. */
  lemma {:induction false} EntriesAgree(fields: seq<Field>, bytes: seq<byte>, i: nat, p: nat)
    requires Laid(fields, |bytes|) && i < |fields| && p < |fields|
    ensures Agree(fields, LoadEntries(fields, bytes), i, p)
  {
    EntriesAt(fields, bytes, i);
    EntriesAt(fields, bytes, p);
    EntrySeen(fields, bytes, i);
    EntrySeen(fields, bytes, p);
    if i != p && SlotOf(fields, i) == SlotOf(fields, p) { SameCell(fields, bytes, i, p); }
  }

  /** Each entry finds its own view in the loaded message, members of a union exactly if it names them. */
  lemma {:induction false} LoadedAt(fields: seq<Field>, bytes: seq<byte>, i: nat)
    requires Laid(fields, |bytes|) && DistinctTags(fields) && i < |fields|
    ensures SeenFrom(fields, LoadEntry(fields, bytes, i), LoadAll(fields, bytes), i)
  {
    var n := |fields|;
    var seen := LoadEntries(fields, bytes);
    forall k, p | 0 <= k < n && 0 <= p < n ensures Agree(fields, seen, k, p) {
      EntriesAgree(fields, bytes, k, p);
    }
    AssembledAt(fields, seen, n, i);
    EntriesAt(fields, bytes, i);
  }

  // ----- the whole struct

  lemma {:induction false} LoadedSlotOf(fields: seq<Field>, bytes: seq<byte>, msg: seq<Slot>, i: nat)
    requires Laid(fields, |bytes|) && HoldsAll(fields, bytes, msg) && WellFormed(fields) && i < |fields|
    ensures SlotOf(fields, i) < |msg| == |LoadAll(fields, bytes)|
    ensures SameSlot(fields[i], LoadAll(fields, bytes)[SlotOf(fields, i)], msg[SlotOf(fields, i)])
    decreases fields, 0
  {
    var f := fields[i];
    SlotMonotone(fields, i, i);
    FieldAt(fields, i);
    LoadedAt(fields, bytes, i);
    EntrySeen(fields, bytes, i);
    assert HoldsAt(fields, bytes, msg, i) && InStruct(fields, i, |bytes|) && f in fields;
    var slot, loaded := msg[SlotOf(fields, i)], LoadAll(fields, bytes)[SlotOf(fields, i)];
    assert HoldsEntry(fields, bytes, i, slot);
    if f.htype.Oneof? && loaded.which != f.tag {
      HeldUnion(fields, bytes, i, slot);
      assert !Present(f, loaded) && !Present(f, slot);
    } else {
      LoadedSlot(f, DataBytes(fields, bytes, i), CellBytes(fields, bytes, i), slot);
    }
  }

  ghost predicate SameSlotsFrom(fields: seq<Field>, a: seq<Slot>, b: seq<Slot>, i: nat)
    requires |a| == |b| == SlotCount(fields) && i <= |fields|
    decreases |fields| - i
  {
    if i == |fields| then true
    else
      SlotMonotone(fields, i, i);
      SameSlot(fields[i], a[SlotOf(fields, i)], b[SlotOf(fields, i)]) && SameSlotsFrom(fields, a, b, i + 1)
  }

  lemma {:induction false} AllSlotsSame(fields: seq<Field>, bytes: seq<byte>, msg: seq<Slot>, i: nat)
    requires Laid(fields, |bytes|) && HoldsAll(fields, bytes, msg) && WellFormed(fields) && i <= |fields|
    ensures SameSlotsFrom(fields, LoadAll(fields, bytes), msg, i)
    decreases fields, 1, |fields| - i
  {
    if i < |fields| {
      LoadedSlotOf(fields, bytes, msg, i);
      AllSlotsSame(fields, bytes, msg, i + 1);
    }
  }

  lemma {:induction false} SameFrom(fields: seq<Field>, a: seq<Slot>, b: seq<Slot>, i: nat)
    requires |a| == |b| == SlotCount(fields) && i <= |fields| && SameSlotsFrom(fields, a, b, i)
    ensures EncodeFrom(fields, a, i) == EncodeFrom(fields, b, i)
    ensures forall limit, j :: i <= j < |fields| ==>
              (EntryLengthsBelow(fields, a, j, limit) <==> EntryLengthsBelow(fields, b, j, limit))
    decreases |fields| - i
  {
    if i < |fields| {
      SlotMonotone(fields, i, i);
      SameFrom(fields, a, b, i + 1);
      forall limit ensures EntryLengthsBelow(fields, a, i, limit) <==> EntryLengthsBelow(fields, b, i, limit) {
      }
    }
  }

  /** The loaded message is, to the encoder, the represented one. */
  lemma {:induction false} LoadedAll(fields: seq<Field>, bytes: seq<byte>, msg: seq<Slot>)
    requires Laid(fields, |bytes|) && HoldsAll(fields, bytes, msg) && WellFormed(fields)
    ensures Encode(fields, LoadAll(fields, bytes)) == Encode(fields, msg)
    ensures forall limit :: LengthsBelow(fields, LoadAll(fields, bytes), limit) <==> LengthsBelow(fields, msg, limit)
    decreases fields, 3
  {
    AllSlotsSame(fields, bytes, msg, 0);
    SameFrom(fields, LoadAll(fields, bytes), msg, 0);
  }

  // ----- implicit presence, on bytes

  lemma {:induction false} ZeroLoads(n: nat, bytes: seq<byte>)
    requires ValidWidth(n) && |bytes| == n
    ensures SignedOf(n, FromLittleEndian(bytes)) == 0 <==> AllZero(bytes)
  {
    ZeroValue(bytes);
    FromLittleEndianBound(bytes);
    Widths();
  }

  /** A field without a has_ cell is left out exactly if its bytes are zero, as far as its type reads them. */
  lemma {:induction false} ImplicitInMemory(f: Field, data: seq<byte>)
    requires WellFormedField(f) && Implicit(f) && LaidField(f) && |data| == f.dataSize
    ensures var e := Encode([f], [LoadSlot(f, data, [])]);
            e == Some([]) <==>
            match f.ltype
            case LVarint | LUVarint | LSVarint | LFixed32 | LFixed64 => AllZero(data)
            case LBytes => AllZero(data[..BYTES_HEADER])
            case LString => data[0] == 0
            case LFixedLengthBytes => data == []
            case LSubmessage(_) => false
  {
    var item := LoadItem(f, data);
    OneSlot(f, Single(item));
    BlankIsZero(f, item);
    ZeroValue(data);
    if f.ltype.LVarint? || f.ltype.LSVarint? { ZeroLoads(f.dataSize, data); }
    if f.ltype.LBytes? { ZeroValue(data[..BYTES_HEADER]); }
  }

  // ----- there and back

  /** pb_encode of a struct in memory into a buffer: what is written is the encoding of the message its bytes represent. */
  method EncodeAt(fields: seq<Field>, size: nat, mem: array<byte>, base: nat, buf: array<byte>, ghost msg: seq<Slot>)
    returns (ok: bool, written: nat)
    requires Laid(fields, size) && WellFormed(fields) && base + size <= mem.Length && mem != buf
    requires HoldsAll(fields, mem[base..base + size], msg) && LengthsBelow(fields, msg, TWO_64)
    modifies buf
    ensures ok <==> Encode(fields, msg).Some? && |Encode(fields, msg).value| <= buf.Length
    ensures ok ==> written == |Encode(fields, msg).value|
    ensures ok ==> buf[..] == Encode(fields, msg).value + old(buf[..])[written..]
  {
    var slots := LoadAll(fields, mem[base..base + size]);
    LoadedAll(fields, mem[base..base + size], msg);
    WellFormed32(fields);
    ok, written := Encoder.EncodeToBuffer(fields, slots, buf);
  }

  lemma {:induction false} WellFormed32(fields: seq<Field>)
    requires WellFormed(fields)
    ensures Encoder.Descriptor32(fields)
    decreases fields, 1
  {
    forall f | f in fields ensures Encoder.Field32(f) {
      WellFormedField32(f);
    }
  }

  lemma {:induction false} WellFormedField32(f: Field)
    requires WellFormedField(f)
    ensures Encoder.Field32(f)
    decreases f, 0
  {
    if f.ltype.LSubmessage? { WellFormed32(f.ltype.fields); }
  }

  /** Lengths below one limit are below a higher one. */
  lemma {:induction false} ItemLengthsGrow(f: Field, item: Item, lo: nat, hi: nat)
    requires ItemLengthsBelow(f, item, lo) && lo <= hi
    ensures ItemLengthsBelow(f, item, hi)
    decreases item, 0
  {
    if f.ltype.LSubmessage? && item.Msg? { LengthsGrow(f.ltype.fields, item.slots, lo, hi); }
  }

  lemma {:induction false} SlotLengthsGrow(f: Field, slot: Slot, lo: nat, hi: nat)
    requires SlotLengthsBelow(f, slot, lo) && lo <= hi
    ensures SlotLengthsBelow(f, slot, hi)
    decreases slot, 1
  {
    if Present(f, slot) {
      if !slot.Arr? {
        ItemLengthsGrow(f, slot.item, lo, hi);
      } else if !Packable(f.ltype) {
        forall x | x in slot.items ensures ItemLengthsBelow(f, x, hi) {
          ItemLengthsGrow(f, x, lo, hi);
        }
      }
    }
  }

  lemma {:induction false} LengthsGrow(fields: seq<Field>, msg: seq<Slot>, lo: nat, hi: nat)
    requires LengthsBelow(fields, msg, lo) && lo <= hi
    ensures LengthsBelow(fields, msg, hi)
    decreases msg, 2
  {
    forall i | 0 <= i < |fields| ensures EntryLengthsBelow(fields, msg, i, hi) {
      assert EntryLengthsBelow(fields, msg, i, lo);
      if SlotOf(fields, i) < |msg| { SlotLengthsGrow(fields[i], msg[SlotOf(fields, i)], lo, hi); }
    }
  }

  /**
   The round trip in memory: encoding a struct whose bytes represent a message and decoding the result into another
   struct, whatever that one held, succeeds exactly if every sent string is terminated, and then its bytes represent
   the canonical form of the message: the message itself exactly if it is normal.
   */
  method RoundTripAt(fields: seq<Field>, size: nat, src: array<byte>, from: nat, dst: array<byte>, to: nat, buf: array<byte>,
                     ghost msg: seq<Slot>)
    returns (encoded: bool, ok: bool)
    requires Laid(fields, size) && WellFormed(fields) && Decodable(fields)
    requires from + size <= src.Length && to + size <= dst.Length && src != buf && dst != buf && src != dst
    requires HoldsAll(fields, src[from..from + size], msg) && Fits(fields, msg) && Short(fields, msg)
    modifies buf, dst
    ensures Encode(fields, msg).Some? && (encoded <==> |Encode(fields, msg).value| <= buf.Length)
    ensures encoded ==> (ok <==> Terminated(fields, msg))
    ensures encoded && ok ==> HoldsAll(fields, dst[to..to + size], Canon(fields, msg))
    ensures encoded && ok ==> (Canon(fields, msg) == msg <==> Normal(fields, msg))
    ensures SameOutside(old(dst[..]), dst[..], to, to + size)
  {
    LengthsGrow(fields, msg, TWO_32, TWO_64);
    DecodeAfterEncode(fields, msg);
    var written;
    encoded, written := EncodeAt(fields, size, src, from, buf, msg);
    ok := false;
    if encoded {
      var stream := new IStream(buf[..written], 0, written);
      assert stream.Rem() == Encode(fields, msg).value;
      ok := DecodeAt(stream, fields, size, dst, to);
      CanonFixed(fields, msg);
    }
  }
}
