/** From snapshots to bills to payment: what the builder, the merge and the payment screen guarantee together. */
module OrderFlow {
  import opened TableMerge
  import opened OrderBuilder
  import opened OrderArrival
  import opened SplitPayment
  import opened LateBills

  // ----- the items of a tree, in order

  function SubEntries(subs: seq<Sub>): seq<Entry> {
    if subs == [] then [] else subs[0].items + SubEntries(subs[1..])
  }

  function Entries(cats: seq<Category>): seq<Entry> {
    if cats == [] then [] else SubEntries(cats[0].subs) + Entries(cats[1..])
  }

  lemma {:induction false} FlatSub<T>(subs: seq<Sub>, f: Entry -> T)
    ensures Concat(SubColumn(subs, f)) == ItemColumn(SubEntries(subs), f)
  {
    if subs != [] {
      FlatSub(subs[1..], f);
      assert SubColumn(subs, f)[1..] == SubColumn(subs[1..], f);
      assert ItemColumn(SubEntries(subs), f) == ItemColumn(subs[0].items, f) + ItemColumn(SubEntries(subs[1..]), f);
    }
  }

  /** Flattening a column of the tree lists that attribute of its items. */
  lemma {:induction false} FlatColumn<T>(cats: seq<Category>, f: Entry -> T)
    ensures Flat(Column(cats, f)) == ItemColumn(Entries(cats), f)
  {
    if cats != [] {
      FlatSub(cats[0].subs, f);
      FlatColumn(cats[1..], f);
      assert Column(cats, f)[1..] == Column(cats[1..], f);
      assert ItemColumn(Entries(cats), f) ==
             ItemColumn(SubEntries(cats[0].subs), f) + ItemColumn(Entries(cats[1..]), f);
    }
  }

  /** An item's row: behind all items of earlier categories, and of earlier lists of its own. */
  function Row(cats: seq<Category>, k: nat, u: nat, i: nat): nat
    requires InTree(cats, k, u, i)
  {
    if k > 0 then |SubEntries(cats[0].subs)| + Row(cats[1..], k - 1, u, i) else SubRow(cats[0].subs, u, i)
  }

  function SubRow(subs: seq<Sub>, u: nat, i: nat): nat
    requires u < |subs|
  {
    if u > 0 then |subs[0].items| + SubRow(subs[1..], u - 1, i) else i
  }

  lemma {:induction false} SubRowHolds(subs: seq<Sub>, u: nat, i: nat)
    requires u < |subs| && i < |subs[u].items|
    ensures SubRow(subs, u, i) < |SubEntries(subs)| && SubEntries(subs)[SubRow(subs, u, i)] == subs[u].items[i]
    decreases u
  {
    if u > 0 { SubRowHolds(subs[1..], u - 1, i); }
  }

  /** Every item of the tree has its row, in the order of the tree. */
  lemma {:induction false} RowHolds(cats: seq<Category>, k: nat, u: nat, i: nat)
    requires InTree(cats, k, u, i)
    ensures Row(cats, k, u, i) < |Entries(cats)| && Entries(cats)[Row(cats, k, u, i)] == cats[k].subs[u].items[i]
    decreases k
  {
    if k > 0 { RowHolds(cats[1..], k - 1, u, i); } else { SubRowHolds(cats[0].subs, u, i); }
  }

  // ----- the bills

  /** Everything ordered at a table in the first n orders, in order. */
  function TableEntries(orders: seq<Received>, tisch: string, n: nat): seq<Entry>
    requires n <= |orders|
  {
    if n == 0 then []
    else if orders[n - 1].tisch == tisch then TableEntries(orders, tisch, n - 1) + Entries(orders[n - 1].cats)
    else TableEntries(orders, tisch, n - 1)
  }

  /** One order's share of the table's items. */
  function Share(o: Received, tisch: string): seq<Entry> {
    if o.tisch == tisch then Entries(o.cats) else []
  }

  /** The table's items are its orders' items, first orders first, and items in the order of their tree. */
  lemma {:induction false} EntriesInOrder(orders: seq<Received>, tisch: string, n: nat)
    requires 0 < n <= |orders|
    ensures TableEntries(orders, tisch, n) == Share(orders[0], tisch) + TableEntries(orders[1..], tisch, n - 1)
    decreases n
  {
    if n == 1 {
      assert Share(orders[0], tisch) + [] == Share(orders[0], tisch);
      assert [] + Entries(orders[0].cats) == Entries(orders[0].cats);
    } else {
      EntriesInOrder(orders, tisch, n - 1);
      assert orders[1..][n - 2] == orders[n - 1];
      var a, b, c := Share(orders[0], tisch), TableEntries(orders[1..], tisch, n - 2), Entries(orders[n - 1].cats);
      assert a + b + c == a + (b + c);
    }
  }

  lemma ColumnOfBoth<T>(a: seq<Entry>, b: seq<Entry>, f: Entry -> T)
    ensures ItemColumn(a + b, f) == ItemColumn(a, f) + ItemColumn(b, f)
  {
  }

  /** Row by row, a table's bill holds name, price and quantity of exactly the items ordered there. */
  lemma {:induction false} BillIsTheOrders(orders: seq<Received>, tisch: string, n: nat)
    requires n <= |orders|
    ensures var rows, es := RowsUpTo(Built(orders), tisch, n), TableEntries(orders, tisch, n);
            && rows.items == ItemColumn(es, ItemName)
            && rows.preis == ItemColumn(es, ItemPreis)
            && rows.menge == ItemColumn(es, ItemMenge)
  {
    if n > 0 {
      BillIsTheOrders(orders, tisch, n - 1);
      var cats, before := orders[n - 1].cats, TableEntries(orders, tisch, n - 1);
      assert Built(orders)[n - 1] == BuiltOrder(orders[n - 1].id, orders[n - 1].tisch, cats);
      FlatColumn(cats, ItemName);
      FlatColumn(cats, ItemPreis);
      FlatColumn(cats, ItemMenge);
      ColumnOfBoth(before, Entries(cats), ItemName);
      ColumnOfBoth(before, Entries(cats), ItemPreis);
      ColumnOfBoth(before, Entries(cats), ItemMenge);
    }
  }

  // ----- the orders on a bill

  /** One of the first n orders is the table's and has the ID. */
  predicate HasId(orders: seq<Received>, tisch: string, n: nat, id: string)
    requires n <= |orders|
  {
    n > 0 && ((orders[n - 1].tisch == tisch && orders[n - 1].id == id) || HasId(orders, tisch, n - 1, id))
  }

  /** No later one of the table's first n orders has the same ID. */
  predicate LastOfId(orders: seq<Received>, tisch: string, n: nat, i: nat)
    requires i < n <= |orders|
  {
    i == n - 1 || (LastOfId(orders, tisch, n - 1, i) && !(orders[n - 1].tisch == tisch && orders[n - 1].id == orders[i].id))
  }

  /** Order i's item IDs, in the order of its rows. */
  predicate IdsOfOrder(ids: map<string, seq<string>>, orders: seq<Received>, i: nat)
    requires i < |orders|
  {
    var o := orders[i];
    o.id in ids && ids[o.id] == ItemColumn(Entries(o.cats), ItemId)
  }

  /** The bill names exactly the table's orders, and under each the IDs of its items. */
  ghost predicate IdsRight(ids: map<string, seq<string>>, orders: seq<Received>, tisch: string, n: nat)
    requires n <= |orders|
  {
    && (forall id :: id in ids <==> HasId(orders, tisch, n, id))
    && (forall i :: 0 <= i < n && orders[i].tisch == tisch && LastOfId(orders, tisch, n, i) ==> IdsOfOrder(ids, orders, i))
  }

  lemma {:induction false} NextIds(a: map<string, seq<string>>, b: map<string, seq<string>>, orders: seq<Received>, tisch: string,
                                   n: nat, o: Received)
    requires 0 < n <= |orders| && IdsRight(a, orders, tisch, n - 1) && orders[n - 1] == o
    requires b == if o.tisch == tisch then a[o.id := ItemColumn(Entries(o.cats), ItemId)] else a
    ensures IdsRight(b, orders, tisch, n)
  {
    forall id ensures id in b <==> HasId(orders, tisch, n, id) {
      assert id in a <==> HasId(orders, tisch, n - 1, id);
    }
    forall i | 0 <= i < n && orders[i].tisch == tisch && LastOfId(orders, tisch, n, i) ensures IdsOfOrder(b, orders, i) {
      if i < n - 1 { assert IdsOfOrder(a, orders, i); }
    }
  }

  /** The merge files each order's item IDs under the order. */
  lemma {:induction false} BillNamesOrders(orders: seq<Received>, tisch: string, n: nat)
    requires n <= |orders|
    ensures IdsRight(IdsUpTo(Built(orders), tisch, n), orders, tisch, n)
    decreases n
  {
    if n > 0 {
      BillNamesOrders(orders, tisch, n - 1);
      var o := orders[n - 1];
      assert Built(orders)[n - 1] == BuiltOrder(o.id, o.tisch, o.cats);
      FlatColumn(o.cats, ItemId);
      NextIds(IdsUpTo(Built(orders), tisch, n - 1), IdsUpTo(Built(orders), tisch, n), orders, tisch, n, o);
    }
  }

  /** With distinct order IDs: every order of the table, and no other, with the IDs of its own items, row by row. */
  lemma DistinctOrders(orders: seq<Received>, keys: seq<string>, s: nat, i: nat)
    requires DistinctIds(orders) && s < |keys| && i < |orders|
    ensures var ids := Bills(keys, Built(orders))[s].bestellungID;
            && (orders[i].id in ids <==> orders[i].tisch == keys[s])
            && (orders[i].tisch == keys[s] ==> ids[orders[i].id] == ItemColumn(Entries(orders[i].cats), ItemId))
  {
    var ids, n := Bills(keys, Built(orders))[s].bestellungID, |orders|;
    BillNamesOrders(orders, keys[s], n);
    assert ids == IdsUpTo(Built(orders), keys[s], n);
    DistinctIsLast(orders, keys[s], n, i);
    assert orders[i].id in ids <==> HasId(orders, keys[s], n, orders[i].id);
    if orders[i].tisch == keys[s] { assert IdsOfOrder(ids, orders, i); }
  }

  lemma {:induction false} DistinctIsLast(orders: seq<Received>, tisch: string, n: nat, i: nat)
    requires DistinctIds(orders) && n <= |orders| && i < |orders|
    ensures HasId(orders, tisch, n, orders[i].id) <==> i < n && orders[i].tisch == tisch
    ensures i < n ==> LastOfId(orders, tisch, n, i)
    decreases n
  {
    if n > 0 {
      DistinctIsLast(orders, tisch, n - 1, i);
      if i != n - 1 { assert orders[i].id != orders[n - 1].id; }
    }
  }

  /** No item was ordered a negative number of times. */
  predicate Counted(orders: seq<Received>) {
    forall o, e :: o in orders && e in Entries(o.cats) ==> e.menge >= 0
  }

  lemma TreeCounted(cats: seq<Category>, x: int)
    requires (forall e :: e in Entries(cats) ==> e.menge >= 0) && x in Flat(Column(cats, ItemMenge))
    ensures x >= 0
  {
    FlatColumn(cats, ItemMenge);
    var i :| 0 <= i < |Entries(cats)| && ItemColumn(Entries(cats), ItemMenge)[i] == x;
    var e := Entries(cats)[i];
    assert e in Entries(cats) && x == ItemMenge(e) == e.menge;
  }

  lemma QuantitiesCounted(orders: seq<Received>)
    requires Counted(orders)
    ensures forall o, x :: o in Built(orders) && x in Flat(o.menge) ==> x >= 0
  {
    forall o, x | o in Built(orders) && x in Flat(o.menge) ensures x >= 0 {
      var i :| 0 <= i < |orders| && Built(orders)[i] == o;
      var r := orders[i];
      assert r in orders && o.menge == Column(r.cats, ItemMenge);
      TreeCounted(r.cats, x);
    }
  }

  // ----- labels

  /** No group and no list of the order occurs twice. */
  predicate Unambiguous(r: Received) {
    var items := Column(r.cats, ItemName);
    Distinct(items) && forall k :: 0 <= k < |items| ==> Distinct(items[k])
  }

  /** All rows of the order get their own category and subcategory. */
  predicate OwnLabels(o: Order)
    requires Aligned(o)
  {
    Kats(o) == OwnKats(o) && UKats(o) == OwnUKats(o)
  }

  /** An order's rows carry their own labels exactly if the order is unambiguous. */
  lemma {:induction false} OrderLabels(r: Received)
    requires Proper(r.cats)
    ensures Aligned(BuiltOrder(r.id, r.tisch, r.cats))
    ensures OwnLabels(BuiltOrder(r.id, r.tisch, r.cats)) <==> Unambiguous(r)
  {
    var o := BuiltOrder(r.id, r.tisch, r.cats);
    BuiltOrderIsAligned(r.id, r.tisch, r.cats);
    ProperIsFilled(r);
    RowLabelsRightIff(o);
  }

  lemma {:induction false} ProperIsFilled(r: Received)
    requires Proper(r.cats)
    ensures var o := BuiltOrder(r.id, r.tisch, r.cats);
            Filled(o) && Distinct(o.kategorie) && forall k :: 0 <= k < |o.items| ==> Distinct(o.unterkategorie[k])
  {
    var o := BuiltOrder(r.id, r.tisch, r.cats);
    forall k | 0 <= k < |o.items| ensures o.items[k] != [] && Distinct(o.unterkategorie[k]) {
      assert r.cats[k] in r.cats;
      assert o.items[k] == SubColumn(r.cats[k].subs, ItemName) && o.unterkategorie[k] == SubKeys(r.cats[k].subs);
    }
    forall k, u | 0 <= k < |o.items| && 0 <= u < |o.items[k]| ensures o.items[k][u] != [] {
      assert r.cats[k] in r.cats;
      assert o.items[k] == SubColumn(r.cats[k].subs, ItemName);
      assert r.cats[k].subs[u] in r.cats[k].subs;
      assert o.items[k][u] == ItemColumn(r.cats[k].subs[u].items, ItemName);
    }
  }

  /** The labels a table's rows should carry. */
  function TableKats(orders: seq<Order>, tisch: string, n: nat): (r: seq<string>)
    requires n <= |orders| && forall o :: o in orders ==> Aligned(o)
    ensures |r| == |RowsUpTo(orders, tisch, n).kategorie|
  {
    if n == 0 then []
    else
      assert orders[n - 1] in orders;
      if orders[n - 1].tischnummer == tisch then TableKats(orders, tisch, n - 1) + OwnKats(orders[n - 1])
      else TableKats(orders, tisch, n - 1)
  }

  function TableUKats(orders: seq<Order>, tisch: string, n: nat): (r: seq<string>)
    requires n <= |orders| && forall o :: o in orders ==> Aligned(o)
    ensures |r| == |RowsUpTo(orders, tisch, n).unterkategorie|
  {
    if n == 0 then []
    else
      assert orders[n - 1] in orders;
      if orders[n - 1].tischnummer == tisch then TableUKats(orders, tisch, n - 1) + OwnUKats(orders[n - 1])
      else TableUKats(orders, tisch, n - 1)
  }

  /** The table's orders among the first n are unambiguous. */
  predicate TableUnambiguous(orders: seq<Received>, tisch: string, n: nat)
    requires n <= |orders|
  {
    forall i :: 0 <= i < n && orders[i].tisch == tisch ==> Unambiguous(orders[i])
  }

  /** All rows of the table's bill carry their own category and subcategory. */
  ghost predicate BillLabelled(orders: seq<Order>, tisch: string, n: nat)
    requires n <= |orders| && forall o :: o in orders ==> Aligned(o)
  {
    var rows := RowsUpTo(orders, tisch, n);
    rows.kategorie == TableKats(orders, tisch, n) && rows.unterkategorie == TableUKats(orders, tisch, n)
  }

  /** One more order at the table: the labels are right exactly if they were and the order's are. */
  lemma {:induction false} NextLabels(orders: seq<Order>, tisch: string, n: nat, o: Order)
    requires 0 < n <= |orders| && (forall x :: x in orders ==> Aligned(x)) && orders[n - 1] == o && Aligned(o)
    ensures if o.tischnummer == tisch then
              BillLabelled(orders, tisch, n) <==>
              BillLabelled(orders, tisch, n - 1) && OwnLabels(o)
            else BillLabelled(orders, tisch, n) <==> BillLabelled(orders, tisch, n - 1)
  {
    if o.tischnummer == tisch {
      var rows := RowsUpTo(orders, tisch, n - 1);
      SameParts(rows.kategorie, Kats(o), TableKats(orders, tisch, n - 1), OwnKats(o));
      SameParts(rows.unterkategorie, UKats(o), TableUKats(orders, tisch, n - 1), OwnUKats(o));
    }
  }

  /** The table's orders among the first n are marked. */
  ghost predicate AllMarked(orders: seq<Order>, marks: seq<bool>, tisch: string, n: nat)
    requires n <= |orders| == |marks|
  {
    forall i :: 0 <= i < n && orders[i].tischnummer == tisch ==> marks[i]
  }

  /** Of the first n orders, those are marked that get their own labels. */
  ghost predicate Marked(orders: seq<Order>, marks: seq<bool>, n: nat)
    requires n <= |orders| == |marks| && forall o :: o in orders ==> Aligned(o)
  {
    n == 0 || (Marked(orders, marks, n - 1) && (assert orders[n - 1] in orders; marks[n - 1] <==> OwnLabels(orders[n - 1])))
  }

  lemma {:induction false} NextLabelled(orders: seq<Order>, marks: seq<bool>, tisch: string, n: nat, o: Order, own: bool)
    requires 0 < n <= |orders| == |marks| && (forall x :: x in orders ==> Aligned(x)) && orders[n - 1] == o && Aligned(o)
    requires marks[n - 1] == own && (own <==> OwnLabels(o))
    requires BillLabelled(orders, tisch, n - 1) <==> AllMarked(orders, marks, tisch, n - 1)
    ensures BillLabelled(orders, tisch, n) <==> AllMarked(orders, marks, tisch, n)
  {
    NextLabels(orders, tisch, n, o);
  }

  /** With the orders marked that get their own labels: a bill does exactly if all its orders are marked. */
  lemma {:induction false} LabelledIff(orders: seq<Order>, marks: seq<bool>, tisch: string, n: nat)
    requires n <= |orders| == |marks| && forall o :: o in orders ==> Aligned(o)
    requires Marked(orders, marks, n)
    ensures BillLabelled(orders, tisch, n) <==> AllMarked(orders, marks, tisch, n)
    decreases n
  {
    if n > 0 {
      LabelledIff(orders, marks, tisch, n - 1);
      assert orders[n - 1] in orders;
      NextLabelled(orders, marks, tisch, n, orders[n - 1], marks[n - 1]);
    }
  }

  lemma {:induction false} BuiltLabels(orders: seq<Received>, i: nat)
    requires i < |orders| && forall o :: o in orders ==> Proper(o.cats)
    ensures var o := Built(orders)[i];
            o.tischnummer == orders[i].tisch && Aligned(o) && (OwnLabels(o) <==> Unambiguous(orders[i]))
  {
    var r := orders[i];
    assert r in orders && Built(orders)[i] == BuiltOrder(r.id, r.tisch, r.cats);
    OrderLabels(r);
  }

  lemma {:induction false} MarkedUpTo(orders: seq<Order>, marks: seq<bool>, n: nat)
    requires n <= |orders| == |marks| && forall o :: o in orders ==> Aligned(o)
    requires forall i :: 0 <= i < |orders| ==> (marks[i] <==> OwnLabels(orders[i]))
    ensures Marked(orders, marks, n)
  {
    if n > 0 { MarkedUpTo(orders, marks, n - 1); }
  }

  /** A bill's rows all carry their own category and subcategory exactly if each of its orders is unambiguous. */
  lemma {:induction false} BillLabels(orders: seq<Received>, tisch: string, n: nat)
    requires n <= |orders| && forall o :: o in orders ==> Proper(o.cats)
    ensures BillLabelled(Built(orders), tisch, n) <==> TableUnambiguous(orders, tisch, n)
  {
    var marks := seq(|orders|, i requires 0 <= i < |orders| => Unambiguous(orders[i]));
    forall i | 0 <= i < |orders| ensures Built(orders)[i].tischnummer == orders[i].tisch && Aligned(Built(orders)[i])
                                      && (marks[i] <==> OwnLabels(Built(orders)[i])) {
      BuiltLabels(orders, i);
    }
    MarkedUpTo(Built(orders), marks, n);
    LabelledIff(Built(orders), marks, tisch, n);
  }

  // ----- from arrival to payment

  lemma {:induction false} NothingShown(orders: seq<Received>, start: seq<string>, events: seq<Event>)
    requires Orderly(events, |orders|) && Quiet(events)
    ensures Shown(orders, start, events) == []
    decreases |events|
  {
    if events != [] { NothingShown(orders, start, events[..|events| - 1]); }
  }

  /** After a first trigger, every known order is listed once, and the bills are those of one merge. */
  lemma {:induction false} FirstBills(orders: seq<Received>, start: seq<string>, events: seq<Event>)
    requires Orderly(events, |orders|) && Triggers(events) && FirstTrigger(events)
    ensures AllBelow(Known(events), |orders|) && Listed(events) == Known(events)
    ensures Shown(orders, start, events) == Bills(Tables(start, events), Built(Pick(orders, Known(events))))
  {
    var before, last := events[..|events| - 1], events[|events| - 1];
    assert before + [last] == events;
    FirstShown(orders, start, before, last);
  }

  lemma {:induction false} FirstShown(orders: seq<Received>, start: seq<string>, before: seq<Event>, last: Event)
    requires Orderly(before + [last], |orders|) && Triggers(before + [last]) && Quiet(before)
    ensures AllBelow(Known(before + [last]), |orders|) && Listed(before + [last]) == Known(before + [last])
    ensures Shown(orders, start, before + [last]) ==
            Bills(Tables(start, before + [last]), Built(Pick(orders, Known(before + [last]))))
  {
    var known := Known(before + [last]);
    Next(before, last, |orders|);
    NothingListed(before);
    NothingShown(orders, start, before);
    InRange(before + [last], |orders|);
    ShownNext(orders, start, before, last);
    assert [] + known[..|known|] == known && [] + known == known;
  }

  lemma {:induction false} TablesDistinct(start: seq<string>, events: seq<Event>)
    requires Distinct(start)
    ensures Distinct(Tables(start, events))
    decreases |events|
  {
    if events != [] { TablesDistinct(start, events[..|events| - 1]); }
  }

  /** A table's bill: name, price and quantity of exactly the items ordered there, row by row, and its orders' item IDs. */
  ghost predicate BillRight(t: Table, orders: seq<Received>) {
    var es := TableEntries(orders, t.tischnummer, |orders|);
    && t.items == ItemColumn(es, ItemName) && t.preis == ItemColumn(es, ItemPreis) && t.menge == ItemColumn(es, ItemMenge)
    && IdsRight(t.bestellungID, orders, t.tischnummer, |orders|) && t.itemsID == []
  }

  /** What holds of the bills when the payment screen starts on them. */
  ghost predicate ReadyToPay(fertig: seq<Table>, orders: seq<Received>) {
    && Safe(FreshView(fertig))
    && (forall t :: t in fertig ==> BillRight(t, orders))
    && forall actions :: Possible(FreshView(fertig), actions) ==> RunsThrough(fertig, actions)
  }

  /** A run fails exactly if its first action taps a table without a name; otherwise 0 <= paid <= ordered, and so on. */
  ghost predicate RunsThrough(fertig: seq<Table>, actions: seq<Action>)
    requires Possible(FreshView(fertig), actions)
  {
    var end := Run(FreshView(fertig), actions);
    && (end.None? <==> actions != [] && actions[0].TapRow? && fertig[actions[0].section].tischnummer == "")
    && (end.Some? ==> Safe(end.value))
  }

  lemma {:induction false} BillsReady(orders: seq<Received>, keys: seq<string>)
    requires Counted(orders) && Distinct(keys)
    ensures ReadyToPay(Bills(keys, Built(orders)), orders)
  {
    var fertig := Bills(keys, Built(orders));
    QuantitiesCounted(orders);
    FreshMergeSafe(keys, Built(orders), fertig);
    forall t | t in fertig ensures BillRight(t, orders) {
      var i :| 0 <= i < |fertig| && fertig[i] == t;
      BillIsTheOrders(orders, keys[i], |orders|);
      BillNamesOrders(orders, keys[i], |orders|);
    }
    forall actions | Possible(FreshView(fertig), actions) ensures RunsThrough(fertig, actions) {
      RunSafe(FreshView(fertig), actions);
    }
  }

  lemma CountedPick(orders: seq<Received>, at: seq<nat>)
    requires Counted(orders) && AllBelow(at, |orders|)
    ensures Counted(Pick(orders, at))
  {
    forall o, e | o in Pick(orders, at) && e in Entries(o.cats) ensures e.menge >= 0 {
      assert o in orders;
    }
  }

  // ----- whose bills there are

  /** Each order is announced with its own table. */
  predicate OwnTables(events: seq<Event>, orders: seq<Received>) {
    forall k :: 0 <= k < |events| && events[k].Key? ==> events[k].o < |orders| && events[k].tisch == orders[events[k].o].tisch
  }

  /** Exactly one bill is the table's. */
  ghost predicate OneBill(fertig: seq<Table>, tisch: string) {
    exists i: nat :: BillAt(fertig, i, tisch) && forall j: nat :: BillAt(fertig, j, tisch) ==> j == i
  }

  lemma {:induction false} OneBillIff(keys: seq<string>, orders: seq<Order>, tisch: string)
    requires Distinct(keys) && forall o :: o in orders ==> Aligned(o)
    ensures OneBill(Bills(keys, orders), tisch) <==> tisch in keys
  {
    var fertig := Bills(keys, orders);
    if tisch in keys {
      var i: nat :| i < |keys| && keys[i] == tisch;
      assert BillAt(fertig, i, tisch);
    }
  }

  /** Quantity on all bills. */
  function BilledTotal(fertig: seq<Table>): int {
    if fertig == [] then 0 else Sum(fertig[0].menge) + BilledTotal(fertig[1..])
  }

  /** Quantity in all orders. */
  function OrderedTotal(orders: seq<Received>): int {
    if orders == [] then 0
    else OrderedTotal(orders[..|orders| - 1]) + Sum(ItemColumn(Entries(orders[|orders| - 1].cats), ItemMenge))
  }

  lemma {:induction false} BilledIs(fertig: seq<Table>, orders: seq<Order>, keys: seq<string>)
    requires |fertig| == |keys| && forall o :: o in orders ==> Aligned(o)
    requires forall i :: 0 <= i < |keys| ==> fertig[i].menge == RowsUpTo(orders, keys[i], |orders|).menge
    ensures BilledTotal(fertig) == BilledUpTo(orders, keys, |orders|)
    decreases |keys|
  {
    if keys != [] { BilledIs(fertig[1..], orders, keys[1..]); }
  }

  lemma {:induction false} OrderedIs(orders: seq<Received>, keys: seq<string>, n: nat)
    requires n <= |orders| && forall o :: o in orders ==> o.tisch in keys
    ensures OrderedUpTo(Built(orders), keys, n) == OrderedTotal(orders[..n])
    decreases n
  {
    if n > 0 {
      OrderedIs(orders, keys, n - 1);
      var r := orders[n - 1];
      assert orders[..n][..n - 1] == orders[..n - 1] && r in orders;
      assert Built(orders)[n - 1] == BuiltOrder(r.id, r.tisch, r.cats);
      FlatColumn(r.cats, ItemMenge);
    }
  }

  /** Every order's table has exactly one bill, and as much is billed in all as was ordered in all. */
  ghost predicate AllBilled(fertig: seq<Table>, orders: seq<Received>) {
    (forall o :: o in orders ==> OneBill(fertig, o.tisch)) && BilledTotal(fertig) == OrderedTotal(orders)
  }

  lemma {:induction false} MergeBillsAll(orders: seq<Received>, keys: seq<string>)
    requires Distinct(keys) && forall o :: o in orders ==> o.tisch in keys
    ensures AllBilled(Bills(keys, Built(orders)), orders)
  {
    var os := Built(orders);
    forall o | o in orders ensures OneBill(Bills(keys, os), o.tisch) {
      OneBillIff(keys, os, o.tisch);
    }
    BilledIs(Bills(keys, os), os, keys);
    QuantityConserved(os, keys, |os|);
    OrderedIs(orders, keys, |orders|);
    assert orders[..|orders|] == orders;
  }

  lemma {:induction false} KnownTables(orders: seq<Received>, start: seq<string>, events: seq<Event>)
    requires Orderly(events, |orders|) && OwnTables(events, orders)
    ensures forall o :: o in Known(events) ==> o < |orders| && orders[o].tisch in Tables(start, events)
    decreases |events|
  {
    if events != [] {
      var before, last := events[..|events| - 1], events[|events| - 1];
      KnownTables(orders, start, before);
      assert last.Key? ==> last.tisch == orders[last.o].tisch;
    }
  }

  /** The known orders' tables are among those merged. */
  lemma {:induction false} ServedBillsAll(orders: seq<Received>, events: seq<Event>, start: seq<string>)
    requires Orderly(events, |orders|) && Distinct(start) && Triggers(events) && FirstTrigger(events)
    requires OwnTables(events, orders)
    ensures AllBelow(Known(events), |orders|)
    ensures AllBilled(Shown(orders, start, events), Pick(orders, Known(events)))
  {
    FirstBills(orders, start, events);
    TablesDistinct(start, events);
    KnownTables(orders, start, events);
    var known, keys := Pick(orders, Known(events)), Tables(start, events);
    forall o | o in known ensures o.tisch in keys {
      var k: nat :| k < |known| && known[k] == o;
      assert Known(events)[k] in Known(events);
    }
    MergeBillsAll(known, keys);
  }

  lemma {:induction false} ServedReady(orders: seq<Received>, events: seq<Event>, start: seq<string>)
    requires Orderly(events, |orders|) && Counted(orders) && Distinct(start) && Triggers(events) && FirstTrigger(events)
    ensures AllBelow(Known(events), |orders|) && Listed(events) == Known(events)
    ensures ReadyToPay(Shown(orders, start, events), Pick(orders, Known(events)))
  {
    FirstBills(orders, start, events);
    TablesDistinct(start, events);
    CountedPick(orders, Known(events));
    BillsReady(Pick(orders, Known(events)), Tables(start, events));
  }

  /** The payment screen starts in its invariant exactly if no earlier snapshot had completed the orders known then. */
  lemma {:induction false} SafeIffFirst(orders: seq<Received>, events: seq<Event>, start: seq<string>)
    requires Orderly(events, |orders|) && Counted(orders) && Distinct(start) && Triggers(events)
    ensures Safe(FreshView(Shown(orders, start, events))) <==> FirstTrigger(events)
  {
    if FirstTrigger(events) {
      ServedReady(orders, events, start);
    } else {
      LateTrigger(orders, start, events);
      TwiceUnsafe(Shown(orders, start, events), Tables(start, events)[0]);
    }
  }

  // ----- the view controller, from a reload on

  /** What the lists are good for after the events. */
  ghost predicate Served(l: Lists, orders: seq<Received>, events: seq<Event>)
    requires AllBelow(Known(events), |orders|)
  {
    var known := Pick(orders, Known(events));
    Triggers(events) ==>
      && (Safe(FreshView(l.fertig)) <==> FirstTrigger(events))
      && (FirstTrigger(events) ==> l.bestellungen == Built(known) && ReadyToPay(l.fertig, known))
      && (FirstTrigger(events) && OwnTables(events, orders) ==> AllBilled(l.fertig, known))
  }

  lemma {:induction false} ListsServe(l: Lists, orders: seq<Received>, start: seq<string>, events: seq<Event>)
    requires Orderly(events, |orders|) && Counted(orders) && Distinct(start) && ListsAt(l, orders, start, events)
    ensures AllBelow(Known(events), |orders|) && Served(l, orders, events)
  {
    InRange(events, |orders|);
    if Triggers(events) {
      SafeIffFirst(orders, events, start);
      if FirstTrigger(events) {
        ServedReady(orders, events, start);
        if OwnTables(events, orders) { ServedBillsAll(orders, events, start); }
      }
    }
  }

  /**
   A reload, then the orders as they arrive, in any order of events: the lists are what the events lead to. If the
   last snapshot completes the known orders, the payment screen can start on the bills exactly if it is the first to do
   so; then each order is listed once, each table's bill is exactly what was ordered there, and, if orders are announced
   with their own tables, each of these has exactly one bill and everything ordered is billed.
   */
  method Serve(list: OrderList, orders: seq<Received>, events: seq<Event>)
    requires DistinctIds(orders) && (forall o :: o in orders ==> Proper(o.cats) && o.cats != [])
    requires Orderly(events, |orders|) && Counted(orders) && Distinct(list.tische)
    modifies list, list.books
    ensures list.Shows(orders, old(list.tische), events)
    ensures AllBelow(Known(events), |orders|) && Served(list.Now(), orders, events)
  {
    ghost var start := list.tische;
    ServeAll(list, orders, events, start);
    ListsServe(list.Now(), orders, start, events);
  }

  /** The events in their order. */
  method ServeAll(list: OrderList, orders: seq<Received>, events: seq<Event>, ghost start: seq<string>)
    requires DistinctIds(orders) && (forall o :: o in orders ==> Proper(o.cats) && o.cats != [])
    requires Orderly(events, |orders|) && start == list.tische
    modifies list, list.books
    ensures list.Shows(orders, start, events)
    decreases |events|
  {
    if events == [] {
      list.Reload(orders);
    } else {
      var before, last := events[..|events| - 1], events[|events| - 1];
      assert before + [last] == events;
      ServeAll(list, orders, before, start);
      ServeNext(list, orders, before, last, start);
    }
  }

  /** One more event. */
  method ServeNext(list: OrderList, orders: seq<Received>, ghost before: seq<Event>, e: Event, ghost start: seq<string>)
    requires DistinctIds(orders) && (forall o :: o in orders ==> Proper(o.cats) && o.cats != [])
    requires Orderly(before + [e], |orders|) && list.Shows(orders, start, before)
    modifies list, list.books
    ensures list.Shows(orders, start, before + [e])
  {
    Next(before, e, |orders|);
    match e
    case Key(o, tisch) => list.KeyArrived(orders[o].id, tisch, o, orders, start, before);
    case Snapshot(o) => list.SnapshotArrived(orders[o], o, orders, start, before);
  }
}
