/**
 Orders arrive one by one: first an order's ID with its table, later its snapshot. Whenever every known order has a
 snapshot, all known orders are appended to the list and, at one length of that list, the tables are merged.
 */
module OrderArrival {
  import opened TableMerge
  import opened OrderBuilder

  // ----- what arrives

  /** The ID and table of order o become known; the snapshot of order o is read. */
  datatype Event = Key(o: nat, tisch: string) | Snapshot(o: nat)

  /** Orders known so far (bestellungIDs). */
  function Known(events: seq<Event>): (r: seq<nat>)
    ensures |r| <= |events|
  {
    if events == [] then []
    else
      var last := events[|events| - 1];
      Known(events[..|events| - 1]) + (if last.Key? then [last.o] else [])
  }

  /** Orders whose snapshot has been read. */
  function Arrived(events: seq<Event>): (r: seq<nat>)
    ensures |r| <= |events|
  {
    if events == [] then []
    else
      var last := events[|events| - 1];
      Arrived(events[..|events| - 1]) + (if last.Snapshot? then [last.o] else [])
  }

  /** Every order becomes known once, before its snapshot is read, once. */
  predicate Orderly(events: seq<Event>, n: nat) {
    events == [] ||
    var before, last := events[..|events| - 1], events[|events| - 1];
    && Orderly(before, n)
    && last.o < n
    && (if last.Key? then last.o !in Known(before) else last.o in Known(before) && last.o !in Arrived(before))
  }

  /** The test after each snapshot: as many orders with lists as known orders. */
  predicate Triggers(events: seq<Event>) {
    events != [] && events[|events| - 1].Snapshot? && |Known(events)| == |Arrived(events)|
  }

  /** The list of orders (Bestellungen): every trigger appends all known orders. */
  function Listed(events: seq<Event>): seq<nat> {
    if events == [] then []
    else Listed(events[..|events| - 1]) + (if Triggers(events) then Known(events) else [])
  }

  /** The lists the merge is run on: while a trigger appends, when the list has as many orders as are known. */
  function Merged(events: seq<Event>): seq<seq<nat>> {
    if events == [] then []
    else
      var before := events[..|events| - 1];
      var prior, known := Listed(before), Known(events);
      Merged(before) + (if Triggers(events) && |prior| < |known| then [prior + known[..|known| - |prior|]] else [])
  }

  // ----- when each order is billed once

  /** No snapshot among the events completed the orders known at its time. */
  predicate Quiet(events: seq<Event>) {
    events == [] || (!Triggers(events) && Quiet(events[..|events| - 1]))
  }

  /** None did before the last one. */
  predicate FirstTrigger(events: seq<Event>)
    requires events != []
  {
    Quiet(events[..|events| - 1])
  }

  lemma {:induction false} NothingListed(events: seq<Event>)
    requires Quiet(events)
    ensures Listed(events) == [] && Merged(events) == []
    decreases |events|
  {
    if events != [] { NothingListed(events[..|events| - 1]); }
  }

  lemma {:induction false} SomethingListed(events: seq<Event>)
    requires !Quiet(events)
    ensures Listed(events) != []
    decreases |events|
  {
    if Triggers(events) { TriggerLists(events); } else { SomethingListed(events[..|events| - 1]); }
  }

  lemma {:induction false} TriggerLists(events: seq<Event>)
    requires Triggers(events)
    ensures |Listed(events)| >= |Known(events)| >= 1
  {
  }

  /**
   When the last snapshot completes the orders, each of them has been listed once and merged once, in the order they
   became known, if and only if no earlier snapshot had completed the orders known then.
   */
  lemma {:induction false} OnceIff(events: seq<Event>)
    requires Triggers(events)
    ensures FirstTrigger(events) <==> Listed(events) == Known(events) && Merged(events) == [Known(events)]
    ensures !FirstTrigger(events) ==> |Listed(events)| > |Known(events)|
  {
    var before, known := events[..|events| - 1], Known(events);
    if FirstTrigger(events) {
      NothingListed(before);
      assert [] + known == known && known[..|known|] == known;
    } else {
      SomethingListed(before);
    }
  }

  /** Where the events lead: known and arrived orders, the list, the merges. */
  predicate LeadsTo(events: seq<Event>, n: nat, known: seq<nat>, arrived: seq<nat>, listed: seq<nat>, merged: seq<seq<nat>>) {
    && Orderly(events, n) && Known(events) == known && Arrived(events) == arrived
    && Listed(events) == listed && Merged(events) == merged
  }

  lemma ThenKey(events: seq<Event>, n: nat, known: seq<nat>, arrived: seq<nat>, listed: seq<nat>, merged: seq<seq<nat>>,
                o: nat, t: string)
    requires LeadsTo(events, n, known, arrived, listed, merged) && o < n && o !in known
    ensures LeadsTo(events + [Key(o, t)], n, known + [o], arrived, listed, merged)
  {
    assert (events + [Key(o, t)])[..|events|] == events;
  }

  /** A snapshot that completes the known orders, onto a list that is shorter. */
  lemma ThenTrigger(events: seq<Event>, n: nat, known: seq<nat>, arrived: seq<nat>, listed: seq<nat>, merged: seq<seq<nat>>,
                    o: nat)
    requires LeadsTo(events, n, known, arrived, listed, merged) && o < n && o in known && o !in arrived
    requires |known| == |arrived| + 1 && |listed| < |known|
    ensures Triggers(events + [Snapshot(o)])
    ensures LeadsTo(events + [Snapshot(o)], n, known, arrived + [o], listed + known,
                    merged + [listed + known[..|known| - |listed|]])
  {
    assert (events + [Snapshot(o)])[..|events|] == events;
  }

  lemma FirstOrder(x: nat, s: string, n: nat)
    requires x < n
    ensures LeadsTo([Key(x, s)] + [Snapshot(x)], n, [x], [x], [x], [[x]])
  {
    FirstKey(x, s, n);
    ThenTrigger([Key(x, s)], n, [x], [], [], [], x);
    assert [] + [x] == [x] && [] + [x][..1] == [x] && [] + [[x]] == [[x]];
  }

  lemma FirstKey(x: nat, s: string, n: nat)
    requires x < n
    ensures LeadsTo([Key(x, s)], n, [x], [], [], [])
  {
    var e := [Key(x, s)];
    var before := e[..|e| - 1];
    assert Known(before) == [] && Arrived(before) == [] && Listed(before) == [] && Merged(before) == [] && Orderly(before, n);
  }

  /** An order that arrives after another one was complete: the first is listed and billed twice, the second never billed. */
  lemma LateOrder(x: nat, y: nat, s: string, t: string, n: nat)
    requires x != y && x < n && y < n
    ensures var events := [Key(x, s)] + [Snapshot(x)] + [Key(y, t)] + [Snapshot(y)];
            Orderly(events, n) && Triggers(events) && Listed(events) == [x, x, y] && Merged(events) == [[x], [x, x]]
  {
    FirstOrder(x, s, n);
    var b := [Key(x, s)] + [Snapshot(x)];
    ThenKey(b, n, [x], [x], [x], [[x]], y, t);
    assert [x] + [y] == [x, y];
    ThenTrigger(b + [Key(y, t)], n, [x, y], [x], [x], [[x]], y);
    assert [x] + [x, y][..1] == [x, x] && [x] + [x, y] == [x, x, y] && [[x]] + [[x, x]] == [[x], [x, x]];
  }

  /** One more event. */
  lemma Next(events: seq<Event>, last: Event, n: nat)
    ensures var next := events + [last];
            && Known(next) == (if last.Key? then Known(events) + [last.o] else Known(events))
            && Arrived(next) == (if last.Snapshot? then Arrived(events) + [last.o] else Arrived(events))
            && Listed(next) == (if Triggers(next) then Listed(events) + Known(next) else Listed(events))
            && (Triggers(next) <==> last.Snapshot? && |Known(next)| == |Arrived(next)|)
            && (Orderly(next, n) <==>
                  && Orderly(events, n) && last.o < n
                  && (if last.Key? then last.o !in Known(events) else last.o in Known(events) && last.o !in Arrived(events)))
  {
    assert (events + [last])[..|events|] == events;
  }

  // ----- the lists on the screen

  predicate AllBelow(at: seq<nat>, n: nat) {
    forall k :: 0 <= k < |at| ==> at[k] < n
  }

  /** The named orders, in that order. */
  function Pick(orders: seq<Received>, at: seq<nat>): (r: seq<Received>)
    requires AllBelow(at, |orders|)
    ensures |r| == |at|
  {
    seq(|at|, k requires 0 <= k < |at| => orders[at[k]])
  }

  /** Tables in the order they were first mentioned; those from before a reload stay. */
  function Tables(start: seq<string>, events: seq<Event>): seq<string> {
    if events == [] then start
    else
      var before, last := Tables(start, events[..|events| - 1]), events[|events| - 1];
      if last.Key? && last.tisch !in before then before + [last.tisch] else before
  }

  /** The merge's bills. */
  function Bills(keys: seq<string>, orders: seq<Order>): (r: seq<Table>)
    requires forall o :: o in orders ==> Aligned(o)
    ensures |r| == |keys| && forall i :: 0 <= i < |keys| ==> r[i] == MergedTable(orders, keys[i], i)
  {
    seq(|keys|, i requires 0 <= i < |keys| => MergedTable(orders, keys[i], i))
  }

  lemma {:induction false} InRange(events: seq<Event>, n: nat)
    requires Orderly(events, n)
    ensures AllBelow(Known(events), n) && AllBelow(Listed(events), n)
    ensures forall o :: o in Known(events) ==> o < n
    ensures forall o :: o in Arrived(events) ==> o in Known(events)
    decreases |events|
  {
    if events != [] { InRange(events[..|events| - 1], n); }
  }

  /** All bills shown: each merge appends its own. */
  function Shown(orders: seq<Received>, start: seq<string>, events: seq<Event>): seq<Table>
    requires Orderly(events, |orders|)
    decreases |events|
  {
    if events == [] then []
    else
      var before := events[..|events| - 1];
      var prior, known := Listed(before), Known(events);
      InRange(before, |orders|);
      InRange(events, |orders|);
      Shown(orders, start, before) +
      (if Triggers(events) && |prior| < |known|
       then Bills(Tables(start, events), Built(Pick(orders, prior + known[..|known| - |prior|]))) else [])
  }

  /** The bills a trigger adds. */
  function Added(orders: seq<Received>, keys: seq<string>, listed: seq<nat>, known: seq<nat>): seq<Table>
    requires AllBelow(listed, |orders|) && AllBelow(known, |orders|)
  {
    if |listed| < |known| then Bills(keys, Built(Pick(orders, listed + known[..|known| - |listed|]))) else []
  }

  lemma ShownNext(orders: seq<Received>, start: seq<string>, events: seq<Event>, last: Event)
    requires Orderly(events, |orders|) && Orderly(events + [last], |orders|)
    ensures AllBelow(Listed(events), |orders|) && AllBelow(Known(events + [last]), |orders|)
    ensures var next := events + [last];
            && Tables(start, next) ==
                 (if last.Key? && last.tisch !in Tables(start, events) then Tables(start, events) + [last.tisch]
                  else Tables(start, events))
            && Shown(orders, start, next) ==
                 (if Triggers(next)
                  then Shown(orders, start, events) + Added(orders, Tables(start, next), Listed(events), Known(next))
                  else Shown(orders, start, events))
  {
    InRange(events, |orders|);
    InRange(events + [last], |orders|);
    LastTables(start, events + [last], events, last);
    LastShown(orders, start, events + [last], events);
  }

  lemma LastTables(start: seq<string>, next: seq<Event>, events: seq<Event>, last: Event)
    requires next == events + [last]
    ensures Tables(start, next) ==
            if last.Key? && last.tisch !in Tables(start, events) then Tables(start, events) + [last.tisch]
            else Tables(start, events)
  {
    assert next[..|next| - 1] == events;
  }

  lemma LastShown(orders: seq<Received>, start: seq<string>, next: seq<Event>, events: seq<Event>)
    requires |next| == |events| + 1 && next[..|events|] == events
    requires Orderly(events, |orders|) && Orderly(next, |orders|)
    requires AllBelow(Listed(events), |orders|) && AllBelow(Known(next), |orders|)
    ensures Shown(orders, start, next) ==
            if Triggers(next) then Shown(orders, start, events) + Added(orders, Tables(start, next), Listed(events), Known(next))
            else Shown(orders, start, events)
  {
    assert next[..|next| - 1] == events;
  }

  /** Distinct seqs of the same length, one inside the other, have the same elements. */
  lemma {:induction false} SameElements(a: seq<nat>, b: seq<nat>)
    requires Distinct(a) && Distinct(b) && |a| == |b| && forall x :: x in a ==> x in b
    ensures forall x :: x in b ==> x in a
  {
    var x := Elements(a);
    var y := Elements(b);
    assert x <= y && |y - x| == 0;
    assert y - x == {};
    forall e | e in b ensures e in a {
      assert e in y && e !in y - x;
    }
  }

  lemma {:induction false} Elements(a: seq<nat>) returns (s: set<nat>)
    requires Distinct(a)
    ensures |s| == |a| && forall x :: x in s <==> x in a
  {
    if a == [] {
      s := {};
    } else {
      var before := a[..|a| - 1];
      s := Elements(before);
      s := s + {a[|a| - 1]};
      assert a == before + [a[|a| - 1]];
    }
  }

  lemma {:induction false} EachOnce(events: seq<Event>, n: nat)
    requires Orderly(events, n)
    ensures Distinct(Known(events)) && Distinct(Arrived(events))
    decreases |events|
  {
    if events != [] { EachOnce(events[..|events| - 1], n); }
  }

  /** When a snapshot completes the known orders, all of them have arrived. */
  lemma AllArrived(events: seq<Event>, n: nat)
    requires Orderly(events, n) && Triggers(events)
    ensures forall o :: o in Known(events) ==> o in Arrived(events)
  {
    InRange(events, n);
    EachOnce(events, n);
    SameElements(Arrived(events), Known(events));
  }

  // ----- the dictionaries

  /** Order j's lists are its tree if it has arrived; otherwise it has none. */
  ghost predicate BookAt(b: Books, orders: seq<Received>, arrived: seq<nat>, j: nat)
    requires j < |orders|
  {
    LoadedIn(b, orders[j].id, if j in arrived then orders[j].cats else [])
  }

  ghost predicate BooksAt(b: Books, orders: seq<Received>, arrived: seq<nat>) {
    && |b.kategorien| == |arrived|
    && forall j :: 0 <= j < |orders| ==> BookAt(b, orders, arrived, j)
  }

  lemma BooksNext(a: Books, b: Books, orders: seq<Received>, arrived: seq<nat>, o: nat)
    requires o < |orders| && o !in arrived && orders[o].cats != [] && DistinctIds(orders) && BooksAt(a, orders, arrived)
    requires Without(a, orders[o].id) == Without(b, orders[o].id) && LoadedIn(b, orders[o].id, orders[o].cats)
    ensures BooksAt(b, orders, arrived + [o])
  {
    var id := orders[o].id;
    assert BookAt(a, orders, arrived, o);
    OneMore(a.kategorien, b.kategorien, id);
    forall j | 0 <= j < |orders| ensures BookAt(b, orders, arrived + [o], j) {
      assert BookAt(a, orders, arrived, j);
      if j != o {
        assert orders[j].id != id;
        LoadedKept(a, b, id, orders[j].id, if j in arrived then orders[j].cats else []);
      }
    }
  }

  lemma OneMore<T>(a: map<string, T>, b: map<string, T>, id: string)
    requires a - {id} == b - {id} && id !in a && id in b
    ensures |b| == |a| + 1
  {
    assert a - {id} == a;
    assert b.Keys == a.Keys + {id} by {
      forall k ensures k in b.Keys <==> k in a.Keys + {id} {
        if k != id { KeptAt(a, b, id, k); }
      }
    }
    assert |b.Keys| == |a.Keys| + 1;
  }

  // ----- the lists

  datatype Lists = Lists(
    bestellungIDs: seq<string>, tischnummer: map<string, string>, tische: seq<string>, bestellungen: seq<Order>,
    fertig: seq<Table>)

  ghost predicate ListsAt(l: Lists, orders: seq<Received>, start: seq<string>, events: seq<Event>)
    requires Orderly(events, |orders|)
  {
    InRange(events, |orders|);
    && l.bestellungIDs == IdsOf(Pick(orders, Known(events)))
    && HasTables(l.tischnummer, orders, Arrived(events))
    && l.tische == Tables(start, events)
    && l.bestellungen == Built(Pick(orders, Listed(events)))
    && l.fertig == Shown(orders, start, events)
  }

  ghost predicate HasTables(tischnummer: map<string, string>, orders: seq<Received>, arrived: seq<nat>) {
    forall o :: o in arrived ==> o < |orders| && orders[o].id in tischnummer && tischnummer[orders[o].id] == orders[o].tisch
  }

  lemma ListsAfterKey(a: Lists, b: Lists, orders: seq<Received>, start: seq<string>, events: seq<Event>, o: nat, tisch: string)
    requires Orderly(events, |orders|) && ListsAt(a, orders, start, events) && o < |orders| && o !in Known(events)
    requires b == a.(bestellungIDs := a.bestellungIDs + [orders[o].id],
                     tische := if tisch in a.tische then a.tische else a.tische + [tisch])
    ensures Orderly(events + [Key(o, tisch)], |orders|) && Arrived(events + [Key(o, tisch)]) == Arrived(events)
    ensures ListsAt(b, orders, start, events + [Key(o, tisch)])
  {
    Next(events, Key(o, tisch), |orders|);
    ShownNext(orders, start, events, Key(o, tisch));
    InRange(events, |orders|);
    InRange(events + [Key(o, tisch)], |orders|);
    IdsNext(orders, Known(events), o);
  }

  lemma ListsAfterSnapshot(a: Lists, b: Lists, orders: seq<Received>, start: seq<string>, events: seq<Event>, o: nat)
    requires Orderly(events, |orders|) && ListsAt(a, orders, start, events) && Orderly(events + [Snapshot(o)], |orders|)
    requires b.bestellungIDs == a.bestellungIDs && b.tische == a.tische
    requires HasTables(b.tischnummer, orders, Arrived(events + [Snapshot(o)]))
    requires AllBelow(Known(events), |orders|) && AllBelow(Listed(events), |orders|)
    requires if Triggers(events + [Snapshot(o)]) then
               && b.bestellungen == Built(Pick(orders, Listed(events) + Known(events)))
               && b.fertig == a.fertig + Added(orders, a.tische, Listed(events), Known(events))
             else b.bestellungen == a.bestellungen && b.fertig == a.fertig
    ensures ListsAt(b, orders, start, events + [Snapshot(o)])
  {
    Next(events, Snapshot(o), |orders|);
    ShownNext(orders, start, events, Snapshot(o));
    InRange(events + [Snapshot(o)], |orders|);
  }

  lemma TablesNext(a: map<string, string>, orders: seq<Received>, arrived: seq<nat>, o: nat)
    requires HasTables(a, orders, arrived) && o < |orders|
    requires DistinctIds(orders)
    ensures HasTables(a[orders[o].id := orders[o].tisch], orders, arrived + [o])
  {
    var b := a[orders[o].id := orders[o].tisch];
    forall k | k in arrived + [o] ensures k < |orders| && orders[k].id in b && b[orders[k].id] == orders[k].tisch {
      if k != o { assert k in arrived && orders[k].id != orders[o].id; }
    }
  }

  /** The list while the loop appends. */
  ghost function ListAt(orders: seq<Received>, listed: seq<nat>, known: seq<nat>, i: nat): (r: seq<Order>)
    requires AllBelow(listed, |orders|) && AllBelow(known, |orders|) && i <= |known|
    ensures |r| == |listed| + i && forall o :: o in r ==> Aligned(o)
  {
    Built(Pick(orders, listed + known[..i]))
  }

  lemma ListStep(orders: seq<Received>, listed: seq<nat>, known: seq<nat>, i: nat)
    requires AllBelow(listed, |orders|) && AllBelow(known, |orders|) && i < |known|
    ensures var r := orders[known[i]];
            ListAt(orders, listed, known, i + 1) == ListAt(orders, listed, known, i) + [BuiltOrder(r.id, r.tisch, r.cats)]
  {
    PickNext(orders, listed + known[..i], known[i]);
    assert listed + known[..i] + [known[i]] == listed + known[..i + 1];
  }

  lemma ListEnds(orders: seq<Received>, listed: seq<nat>, known: seq<nat>)
    requires AllBelow(listed, |orders|) && AllBelow(known, |orders|)
    ensures ListAt(orders, listed, known, 0) == Built(Pick(orders, listed))
    ensures ListAt(orders, listed, known, |known|) == Built(Pick(orders, listed + known))
  {
    assert listed + known[..0] == listed && known[..|known|] == known;
  }

  // ----- the view controller

  class OrderList {
    const books: Builder
    var bestellungIDs: seq<string>
    var tischnummer: map<string, string>
    var tische: seq<string>  // the keys of TischnummerIDs
    var bestellungen: seq<Order>
    var fertig: seq<Table>

    ghost function Now(): Lists
      reads this
    {
      Lists(bestellungIDs, tischnummer, tische, bestellungen, fertig)
    }

    /** The lists and dictionaries are what the events lead to. */
    ghost predicate Shows(orders: seq<Received>, start: seq<string>, events: seq<Event>)
      reads this, books
    {
      && Orderly(events, |orders|)
      && BooksAt(books.Now(), orders, Arrived(events))
      && ListsAt(Now(), orders, start, events)
    }

    constructor ()
      ensures fresh(books)
    {
      books := new Builder();
      bestellungIDs, tischnummer, tische, bestellungen, fertig := [], map[], [], [], [];
    }

    /** reload: the tables' keys are not cleared. */
    method Reload(ghost orders: seq<Received>)
      modifies this, books
      ensures Shows(orders, old(tische), []) && tische == old(tische)
    {
      books.Reload();
      bestellungIDs, tischnummer, bestellungen, fertig := [], map[], [], [];
      forall j | 0 <= j < |orders| ensures BookAt(books.Now(), orders, [], j) {
      }
    }

    /** An order's ID and table become known. */
    method KeyArrived(id: string, tisch: string, ghost o: nat, ghost orders: seq<Received>, ghost start: seq<string>,
                      ghost events: seq<Event>)
      requires Shows(orders, start, events) && o < |orders| && orders[o].id == id && o !in Known(events)
      modifies this
      ensures Shows(orders, start, events + [Key(o, tisch)])
    {
      ghost var before := Now();
      bestellungIDs := bestellungIDs + [id];
      if tisch !in tische {
        tische := tische + [tisch];
      }
      ListsAfterKey(before, Now(), orders, start, events, o, tisch);
    }

    /** The arguments of setSectionsKellnerBestellung, read from the dictionaries. */
    method ReadOrder(id: string, ghost r: Received) returns (o: Order)
      requires r.id == id && r.cats != [] && LoadedIn(books.Now(), id, r.cats)
      requires id in tischnummer && tischnummer[id] == r.tisch
      ensures o == BuiltOrder(r.id, r.tisch, r.cats)
    {
      o := Order(id, tischnummer[id], books.kategorien[id], books.unterkategorien[id], books.namen[id], books.preise[id],
                 books.mengen[id], books.ids[id], books.kommentare[id], books.liter[id], books.expanded2[id]);
    }

    /** A snapshot is read; if it completes the known orders, all of them are appended, and at one point merged. */
    method SnapshotArrived(r: Received, ghost o: nat, ghost orders: seq<Received>, ghost start: seq<string>,
                           ghost events: seq<Event>)
      requires Shows(orders, start, events) && DistinctIds(orders)
      requires o < |orders| && orders[o] == r && o in Known(events) && o !in Arrived(events)
      requires forall x :: x in orders ==> Proper(x.cats) && x.cats != []
      modifies this, books
      ensures Shows(orders, start, events + [Snapshot(o)])
    {
      ghost var before := Now();
      InRange(events, |orders|);
      ReadArrived(r, o, orders, events);
      Complete(o, orders, events);
      ListsAfterSnapshot(before, Now(), orders, start, events, o);
    }

    /** Its table and its lists are entered into the dictionaries. */
    method ReadArrived(r: Received, ghost o: nat, ghost orders: seq<Received>, ghost events: seq<Event>)
      requires Orderly(events, |orders|) && DistinctIds(orders)
      requires BooksAt(books.Now(), orders, Arrived(events)) && HasTables(tischnummer, orders, Arrived(events))
      requires o < |orders| && orders[o] == r && o in Known(events) && o !in Arrived(events)
      requires forall x :: x in orders ==> Proper(x.cats) && x.cats != []
      modifies this`tischnummer, books
      ensures Orderly(events + [Snapshot(o)], |orders|)
      ensures BooksAt(books.Now(), orders, Arrived(events + [Snapshot(o)]))
      ensures HasTables(tischnummer, orders, Arrived(events + [Snapshot(o)]))
    {
      Next(events, Snapshot(o), |orders|);
      ReadSnapshot(r, o, orders, Arrived(events));
      TablesNext(tischnummer, orders, Arrived(events), o);
      tischnummer := tischnummer[r.id := r.tisch];
    }

    /** The test after each snapshot. */
    method Complete(ghost o: nat, ghost orders: seq<Received>, ghost events: seq<Event>)
      requires Orderly(events + [Snapshot(o)], |orders|) && AllBelow(Known(events), |orders|)
      requires AllBelow(Listed(events), |orders|)
      requires BooksAt(books.Now(), orders, Arrived(events + [Snapshot(o)]))
      requires HasTables(tischnummer, orders, Arrived(events + [Snapshot(o)])) && forall x :: x in orders ==> x.cats != []
      requires bestellungIDs == IdsOf(Pick(orders, Known(events))) && bestellungen == Built(Pick(orders, Listed(events)))
      modifies this`bestellungen, this`fertig
      ensures if Triggers(events + [Snapshot(o)]) then
                && bestellungen == Built(Pick(orders, Listed(events) + Known(events)))
                && fertig == old(fertig) + Added(orders, tische, Listed(events), Known(events))
              else bestellungen == old(bestellungen) && fertig == old(fertig)
    {
      Next(events, Snapshot(o), |orders|);
      if |bestellungIDs| == |books.kategorien| {
        AllReady(orders, events, o);
        AppendAll(orders, Known(events), Listed(events));
      }
    }

    /** The lists of one more order. */
    method ReadSnapshot(r: Received, ghost o: nat, ghost orders: seq<Received>, ghost arrived: seq<nat>)
      requires o < |orders| && orders[o] == r && o !in arrived && DistinctIds(orders) && Proper(r.cats) && r.cats != []
      requires BooksAt(books.Now(), orders, arrived)
      modifies books
      ensures BooksAt(books.Now(), orders, arrived + [o])
    {
      ghost var before := books.Now();
      assert BookAt(before, orders, arrived, o);
      books.LoadedIs(r.id, []);
      books.LoadOrder(r.id, r.cats);
      books.LoadedIs(r.id, r.cats);
      BooksNext(before, books.Now(), orders, arrived, o);
    }

    /** When the snapshot completes the known orders, all of them can be read. */
    lemma AllReady(orders: seq<Received>, events: seq<Event>, o: nat)
      requires Orderly(events + [Snapshot(o)], |orders|) && Triggers(events + [Snapshot(o)])
      requires BooksAt(books.Now(), orders, Arrived(events + [Snapshot(o)]))
      requires HasTables(tischnummer, orders, Arrived(events + [Snapshot(o)]))
      requires (forall x :: x in orders ==> x.cats != []) && AllBelow(Known(events), |orders|)
      ensures forall k :: 0 <= k < |Known(events)| ==> ReadyAt(orders, Known(events)[k])
    {
      var next, known := events + [Snapshot(o)], Known(events);
      Next(events, Snapshot(o), |orders|);
      AllArrived(next, |orders|);
      forall k | 0 <= k < |known| ensures ReadyAt(orders, known[k]) {
        assert known[k] in known && BookAt(books.Now(), orders, Arrived(next), known[k]) && orders[known[k]] in orders;
      }
    }

    /** Order k can be read from the dictionaries. */
    ghost predicate ReadyAt(orders: seq<Received>, k: nat)
      requires k < |orders|
      reads this`tischnummer, books
    {
      var r := orders[k];
      r.cats != [] && LoadedIn(books.Now(), r.id, r.cats) && r.id in tischnummer && tischnummer[r.id] == r.tisch
    }

    /** The loop over the known orders, with the merge inside it. */
    method AppendAll(ghost orders: seq<Received>, ghost known: seq<nat>, ghost listed: seq<nat>)
      requires AllBelow(known, |orders|) && AllBelow(listed, |orders|)
      requires forall k :: 0 <= k < |known| ==> ReadyAt(orders, known[k])
      requires bestellungIDs == IdsOf(Pick(orders, known)) && bestellungen == Built(Pick(orders, listed))
      modifies this`bestellungen, this`fertig
      ensures bestellungen == Built(Pick(orders, listed + known))
      ensures fertig == old(fertig) + Added(orders, tische, listed, known)
    {
      ghost var added := Added(orders, tische, listed, known);
      ListEnds(orders, listed, known);
      for i := 0 to |bestellungIDs|
        invariant forall k :: 0 <= k < |known| ==> ReadyAt(orders, known[k])
        invariant bestellungen == ListAt(orders, listed, known, i)
        invariant fertig == old(fertig) + (if |listed| + i < |known| then [] else added)
      {
        assert ReadyAt(orders, known[i]);
        ListStep(orders, listed, known, i);
        AppendOne(i, orders[known[i]]);
        assert |listed| + i + 1 == |known| ==> Bills(tische, bestellungen) == added;
      }
    }

    /** One order is appended; when the list has as many orders as are known, the tables are merged. */
    method AppendOne(i: nat, ghost r: Received)
      requires i < |bestellungIDs| && bestellungIDs[i] == r.id && r.cats != [] && LoadedIn(books.Now(), r.id, r.cats)
      requires r.id in tischnummer && tischnummer[r.id] == r.tisch && forall o :: o in bestellungen ==> Aligned(o)
      modifies this`bestellungen, this`fertig
      ensures bestellungen == old(bestellungen) + [BuiltOrder(r.id, r.tisch, r.cats)]
      ensures forall o :: o in bestellungen ==> Aligned(o)
      ensures fertig == old(fertig) + (if |bestellungen| == |bestellungIDs| then Bills(tische, bestellungen) else [])
    {
      var o := ReadOrder(bestellungIDs[i], r);
      BuiltOrderIsAligned(r.id, r.tisch, r.cats);
      bestellungen := bestellungen + [o];
      if |bestellungen| == |bestellungIDs| {
        var bills := Merge(tische, bestellungen);
        assert bills == Bills(tische, bestellungen);
        fertig := fertig + bills;
      }
    }
  }

  lemma IdsNext(orders: seq<Received>, at: seq<nat>, o: nat)
    requires o < |orders| && AllBelow(at, |orders|)
    ensures IdsOf(Pick(orders, at + [o])) == IdsOf(Pick(orders, at)) + [orders[o].id]
  {
    assert Pick(orders, at + [o]) == Pick(orders, at) + [orders[o]];
  }

  lemma PickNext(orders: seq<Received>, at: seq<nat>, o: nat)
    requires o < |orders| && AllBelow(at, |orders|)
    ensures Built(Pick(orders, at + [o])) == Built(Pick(orders, at)) + [BuiltOrder(orders[o].id, orders[o].tisch, orders[o].cats)]
  {
    assert Pick(orders, at + [o]) == Pick(orders, at) + [orders[o]];
  }
}
