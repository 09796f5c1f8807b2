/** What a second merge does to the payment screen: its bills repeat tables, and their counts are filed under other sections. */
module LateBills {
  import opened TableMerge
  import opened OrderBuilder
  import opened OrderArrival
  import opened SplitPayment

  // ----- taps on later bills

  /** The counts of a later merge's bills are keyed by section within that merge, so no first tap on them finds its count. */
  lemma LaterBillsFail(prior: seq<Table>, keys: seq<string>, orders: seq<Order>, i: nat, row: nat)
    requires prior != [] && i < |keys| && forall o :: o in orders ==> Aligned(o)
    ensures TapRowStep(FreshView(prior + Bills(keys, orders)), |prior| + i, row).None?
  {
    assert (prior + Bills(keys, orders))[|prior| + i] == MergedTable(orders, keys[i], i);
  }

  /** Bills keep their places: later events only add bills behind them. */
  lemma {:induction false} BillsStay(orders: seq<Received>, start: seq<string>, events: seq<Event>, k: nat)
    requires Orderly(events, |orders|) && k <= |events|
    ensures Orderly(events[..k], |orders|) && Shown(orders, start, events[..k]) <= Shown(orders, start, events)
    ensures Listed(events[..k]) <= Listed(events) && Tables(start, events[..k]) <= Tables(start, events)
    decreases |events|
  {
    if k < |events| {
      var before := events[..|events| - 1];
      assert before[..k] == events[..k];
      BillsStay(orders, start, before, k);
    } else {
      assert events[..k] == events;
    }
  }

  // ----- bills that repeat a table

  /** The first table ever mentioned; every merge starts with its bill. */
  ghost predicate Mentioned(start: seq<string>, events: seq<Event>, name: string) {
    Tables(start, events) != [] && Tables(start, events)[0] == name
  }

  lemma MentionedNext(start: seq<string>, before: seq<Event>, last: Event, name: string)
    requires Mentioned(start, before, name)
    ensures Mentioned(start, before + [last], name)
  {
    assert (before + [last])[..|before|] == before;
  }

  lemma {:induction false} KnownMentioned(start: seq<string>, events: seq<Event>)
    requires Known(events) != []
    ensures Tables(start, events) != []
    decreases |events|
  {
    var before, last := events[..|events| - 1], events[|events| - 1];
    if !last.Key? { KnownMentioned(start, before); }
  }

  /** Bill i is the first table's. */
  ghost predicate BillAt(fertig: seq<Table>, i: nat, name: string) {
    i < |fertig| && fertig[i].tischnummer == name
  }

  ghost predicate Once(fertig: seq<Table>, name: string) {
    exists i: nat :: BillAt(fertig, i, name)
  }

  ghost predicate Twice(fertig: seq<Table>, name: string) {
    exists i: nat, j: nat :: i < j && BillAt(fertig, i, name) && BillAt(fertig, j, name)
  }

  lemma OnceMore(fertig: seq<Table>, added: seq<Table>, name: string)
    ensures Once(fertig, name) ==> Once(fertig + added, name)
    ensures Twice(fertig, name) ==> Twice(fertig + added, name)
    ensures BillAt(added, 0, name) ==> BillAt(fertig + added, |fertig|, name)
    ensures BillAt(added, 0, name) && Once(fertig, name) ==> Twice(fertig + added, name)
  {
    if Once(fertig, name) {
      var i: nat :| BillAt(fertig, i, name);
      assert BillAt(fertig + added, i, name);
      if BillAt(added, 0, name) { assert BillAt(fertig + added, |fertig|, name); }
    }
    if Twice(fertig, name) {
      var i: nat, j: nat :| i < j && BillAt(fertig, i, name) && BillAt(fertig, j, name);
      assert BillAt(fertig + added, i, name) && BillAt(fertig + added, j, name);
    }
  }

  lemma TwiceUnsafe(fertig: seq<Table>, name: string)
    requires Twice(fertig, name)
    ensures !Safe(FreshView(fertig))
  {
    var i: nat, j: nat :| i < j && BillAt(fertig, i, name) && BillAt(fertig, j, name);
    assert fertig[i].tischnummer == fertig[j].tischnummer;
  }

  /** A merge begins with the first table's bill. */
  lemma AddedBill(orders: seq<Received>, keys: seq<string>, listed: seq<nat>, known: seq<nat>)
    requires AllBelow(listed, |orders|) && AllBelow(known, |orders|) && keys != [] && |listed| < |known|
    ensures BillAt(Added(orders, keys, listed, known), 0, keys[0])
  {
  }

  // ----- after one trigger, after two

  /** What an event adds to the bills. */
  lemma {:induction false} BillsGrow(orders: seq<Received>, start: seq<string>, before: seq<Event>, last: Event, name: string)
    requires Orderly(before + [last], |orders|) && Mentioned(start, before + [last], name)
    ensures Orderly(before, |orders|)
    ensures var a, b := Shown(orders, start, before), Shown(orders, start, before + [last]);
            && (Once(a, name) ==> Once(b, name)) && (Twice(a, name) ==> Twice(b, name))
            && (Triggers(before + [last]) && |Listed(before)| < |Known(before + [last])| ==>
                  Once(b, name) && (Once(a, name) ==> Twice(b, name)))
  {
    var next := before + [last];
    Next(before, last, |orders|);
    ShownNext(orders, start, before, last);
    var a, added := Shown(orders, start, before), Added(orders, Tables(start, next), Listed(before), Known(next));
    if Triggers(next) {
      OnceMore(a, added, name);
      if |Listed(before)| < |Known(next)| {
        AddedBill(orders, Tables(start, next), Listed(before), Known(next));
        assert BillAt(a + added, |a|, name);
      }
    }
  }

  /**
   Once a snapshot has completed the known orders, the first table has a bill; it has two as soon as more orders are
   listed than have arrived.
   */
  lemma {:induction false} BilledOnceOrTwice(orders: seq<Received>, start: seq<string>, events: seq<Event>)
    requires Orderly(events, |orders|) && !Quiet(events)
    ensures Tables(start, events) != [] && Once(Shown(orders, start, events), Tables(start, events)[0])
    ensures |Listed(events)| <= |Arrived(events)| || Twice(Shown(orders, start, events), Tables(start, events)[0])
    decreases |events|
  {
    var before, last := events[..|events| - 1], events[|events| - 1];
    assert before + [last] == events;
    Next(before, last, |orders|);
    if !Quiet(before) {
      BilledOnceOrTwice(orders, start, before);
      MentionedNext(start, before, last, Tables(start, before)[0]);
    } else {
      NothingListed(before);
      KnownMentioned(start, events);
    }
    BillsGrow(orders, start, before, last, Tables(start, events)[0]);
  }

  /** A later trigger bills the first table a second time. */
  lemma {:induction false} LateTrigger(orders: seq<Received>, start: seq<string>, events: seq<Event>)
    requires Orderly(events, |orders|) && Triggers(events) && !FirstTrigger(events)
    ensures Tables(start, events) != [] && Twice(Shown(orders, start, events), Tables(start, events)[0])
  {
    var before, last := events[..|events| - 1], events[|events| - 1];
    assert before + [last] == events;
    Next(before, last, |orders|);
    BilledOnceOrTwice(orders, start, before);
    MentionedNext(start, before, last, Tables(start, before)[0]);
    BillsGrow(orders, start, before, last, Tables(start, events)[0]);
  }
}
