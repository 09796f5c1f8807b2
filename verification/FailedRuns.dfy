/** What can be said of a run of the record loop that fails: which entries it touched, and where it left stale memory. */
module FailedRuns {
  import opened Words
  import opened Descriptor
  import opened DecodeSpec

  // ----- entries named

  /** Where an item ends, whatever its cell holds and whether or not the content of a submessage is accepted. */
  function ItemEnd(f: Field, s: seq<byte>): (p: Parse<()>)
    ensures p.Done? ==> |p.rest| <= |s|
  {
    if Packable(f.ltype) then
      match ReadScalar(f, s)
      case Fail => Fail
      case Done(_, r) => Done((), r)
    else
      match TakeDelimited(s)
      case Fail => Fail
      case Done(_, r) => Done((), r)
  }

  /** Where a record for entry f ends. */
  function RecordEnd(f: Field, wire: nat, s: seq<byte>): (p: Parse<()>)
    ensures p.Done? ==> |p.rest| <= |s|
  {
    if f.htype.Repeated? && wire == WT_STRING && Packable(f.ltype) then
      match TakeDelimited(s)
      case Fail => Fail
      case Done(_, r) => Done((), r)
    else ItemEnd(f, s)
  }

  /** Where a record ends, after its tag. */
  function NextRecord(fields: seq<Field>, wire: nat, tag: nat, s: seq<byte>): (p: Parse<()>)
    ensures p.Done? ==> |p.rest| <= |s|
  {
    match Find(fields, tag)
    case None => if fields == [] && tag == 0 then Fail else SkipField(wire, s)
    case Some(i) => RecordEnd(fields[i], wire, s)
  }

  function NamedBy(fields: seq<Field>, tag: nat): set<nat> {
    match Find(fields, tag)
    case None => {}
    case Some(i) => {i}
  }

  /** The entries named by the records of s, up to the first that has no end. */
  function Named(fields: seq<Field>, s: seq<byte>): set<nat>
    decreases |s|
  {
    if s == [] then {}
    else match ReadTag(s)
      case Eof(_) => {}
      case BadTag => {}
      case Tag(tag, wire, rest) =>
        NamedBy(fields, tag) +
        (match NextRecord(fields, wire, tag, rest) case Fail => {} case Done(_, r) => Named(fields, r))
  }

  /** A decoded record ends where any record of its entry ends. */
  lemma {:induction false} DecodedEnd(f: Field, slot: Slot, wire: nat, s: seq<byte>)
    requires ReadField(f, slot, wire, s).Done?
    ensures RecordEnd(f, wire, s) == Done((), ReadField(f, slot, wire, s).rest)
  {
  }

  // ----- entries touched

  /** The entries whose records were decoded, or begun. */
  function Touched(fields: seq<Field>, msg: seq<Slot>, s: seq<byte>): set<nat>
    requires |msg| == SlotCount(fields)
    decreases |s|, 0
  {
    if s == [] then {}
    else match ReadTag(s)
      case Eof(_) => {}
      case BadTag => {}
      case Tag(tag, wire, rest) => TouchedRecord(fields, msg, wire, tag, rest)
  }

  function TouchedRecord(fields: seq<Field>, msg: seq<Slot>, wire: nat, tag: nat, s: seq<byte>): set<nat>
    requires |msg| == SlotCount(fields)
    decreases |s|, 1
  {
    match Find(fields, tag)
    case None =>
      if fields == [] && tag == 0 then {}
      else (match SkipField(wire, s) case Fail => {} case Done(_, r) => Touched(fields, msg, r))
    case Some(i) =>
      SlotMonotone(fields, i, i);
      match ReadField(fields[i], msg[SlotOf(fields, i)], wire, s)
      case Fail => {i}
      case Done(slot, r) => {i} + Touched(fields, msg[SlotOf(fields, i) := slot], r)
  }

  // ----- stale array entries

  /** One step into a struct: a descriptor entry and, if that is an array, one of its items. */
  datatype Hop = Hop(entry: nat, item: nat)

  /** The path leads through submessages to an item of a submessage array. */
  predicate Leads(fields: seq<Field>, path: seq<Hop>)
    decreases path, 1
  {
    path != [] && path[0].entry < |fields| && LeadsFrom(fields[path[0].entry], path[0].item, path[1..])
  }

  predicate LeadsFrom(f: Field, item: nat, path: seq<Hop>)
    decreases path, 2
  {
    && f.ltype.LSubmessage? && (f.htype.Repeated? ==> item < f.arraySize)
    && if path == [] then f.htype.Repeated? else Leads(f.ltype.fields, path)
  }

  /**
   The path to an array entry that was counted but never initialised. decode_static_field raises the count before
   pb_dec_submessage reads the length prefix, so a run that fails at that prefix leaves the entry as it was: the path
   names it, at the end of the submessages being decoded. None for any other failure, and for success.
   */
  function Stale(fields: seq<Field>, msg: seq<Slot>, s: seq<byte>): (path: Option<seq<Hop>>)
    requires |msg| == SlotCount(fields)
    ensures path.Some? ==> Leads(fields, path.value)
    decreases |s|, 0
  {
    if s == [] then None
    else match ReadTag(s)
      case Eof(_) => None
      case BadTag => None
      case Tag(tag, wire, rest) => StaleRecord(fields, msg, wire, tag, rest)
  }

  function StaleRecord(fields: seq<Field>, msg: seq<Slot>, wire: nat, tag: nat, s: seq<byte>): (path: Option<seq<Hop>>)
    requires |msg| == SlotCount(fields)
    ensures path.Some? ==> Leads(fields, path.value)
    decreases |s|, 3
  {
    match Find(fields, tag)
    case None =>
      if fields == [] && tag == 0 then None
      else (match SkipField(wire, s) case Fail => None case Done(_, r) => Stale(fields, msg, r))
    case Some(i) =>
      SlotMonotone(fields, i, i);
      var slot := msg[SlotOf(fields, i)];
      match ReadField(fields[i], slot, wire, s)
      case Fail => Under(i, |ItemsOf(slot)|, StaleField(fields[i], slot, s))
      case Done(next, r) => Stale(fields, msg[SlotOf(fields, i) := next], r)
  }

  /** Only runs that fail leave one. */
  lemma {:induction false} StaleFails(fields: seq<Field>, msg: seq<Slot>, seen: set<nat>, s: seq<byte>)
    requires |msg| == SlotCount(fields) && Stale(fields, msg, s).Some?
    ensures RunLoop(fields, msg, seen, s).Failed?
    decreases |s|
  {
    var t := ReadTag(s);
    match Find(fields, t.tag)
    case None =>
      if SkipField(t.wire, t.rest).Done? { StaleFails(fields, msg, seen, SkipField(t.wire, t.rest).rest); }
    case Some(i) =>
      SlotMonotone(fields, i, i);
      var p := ReadField(fields[i], msg[SlotOf(fields, i)], t.wire, t.rest);
      if p.Done? { StaleFails(fields, msg[SlotOf(fields, i) := p.value], seen + {i}, p.rest); }
  }

  function Under(i: nat, item: nat, path: Option<seq<Hop>>): Option<seq<Hop>> {
    match path
    case None => None
    case Some(p) => Some([Hop(i, item)] + p)
  }

  function StaleField(f: Field, slot: Slot, s: seq<byte>): (path: Option<seq<Hop>>)
    ensures path.Some? ==> LeadsFrom(f, |ItemsOf(slot)|, path.value)
    decreases |s|, 2
  {
    if f.htype.Repeated? && |ItemsOf(slot)| >= f.arraySize then None
    else if f.htype.Repeated? && PrefixFails(f, s) then Some([])
    else StaleItem(f, PriorOf(f, slot), s)
  }

  /** A submessage whose length prefix, or whose declared length, the input does not have. */
  predicate PrefixFails(f: Field, s: seq<byte>) {
    f.ltype.LSubmessage? && TakeDelimited(s).Fail?
  }

  function StaleItem(f: Field, prior: Item, s: seq<byte>): (path: Option<seq<Hop>>)
    ensures path.Some? ==> f.ltype.LSubmessage? && Leads(f.ltype.fields, path.value)
    decreases |s|, 1
  {
    if !f.ltype.LSubmessage? then None
    else match TakeDelimited(s)
      case Fail => None
      case Done(bs, _) => Stale(f.ltype.fields, BaseOf(f.ltype.fields, prior), bs)
  }
}
