/** BestellungenZusammenführen: all finished orders of a table become one bill with flat rows. */
module TableMerge {
  import opened Words

  /** KellnerTVSection, without sender, time and extras. */
  datatype Order = Order(
    bestellungID: string, tischnummer: string, kategorie: seq<string>, unterkategorie: seq<seq<string>>,
    items: seq<seq<seq<string>>>, preis: seq<seq<seq<real>>>, menge: seq<seq<seq<int>>>, itemsID: seq<seq<seq<string>>>,
    kommentar: seq<seq<seq<string>>>, liter: seq<seq<seq<string>>>, expanded2: seq<seq<bool>>)

  /** BestellungFertig. */
  datatype Table = Table(
    bestellungID: map<string, seq<string>>, tischnummer: string, kategorie: seq<string>, unterkategorie: seq<string>,
    items: seq<string>, preis: seq<real>, menge: seq<int>, itemsID: seq<string>, bezahltMenge: map<int, seq<int>>)

  // ----- flattening

  function Concat<T>(xss: seq<seq<T>>): seq<T> {
    if xss == [] then [] else xss[0] + Concat(xss[1..])
  }

  function Flat<T>(cube: seq<seq<seq<T>>>): seq<T> {
    if cube == [] then [] else Concat(cube[0]) + Flat(cube[1..])
  }

  lemma {:induction false} ConcatSnoc<T>(xss: seq<seq<T>>, n: nat)
    requires n < |xss|
    ensures Concat(xss[..n + 1]) == Concat(xss[..n]) + xss[n]
    decreases n
  {
    if n == 0 {
      assert xss[..1][1..] == [];
      assert xss[..1][0] + [] == xss[0];
    } else {
      ConcatSnoc(xss[1..], n - 1);
      assert xss[..n + 1][1..] == xss[1..][..n] && xss[..n][1..] == xss[1..][..n - 1];
    }
  }

  lemma {:induction false} FlatSnoc<T>(cube: seq<seq<seq<T>>>, n: nat)
    requires n < |cube|
    ensures Flat(cube[..n + 1]) == Flat(cube[..n]) + Concat(cube[n])
    decreases n
  {
    if n == 0 {
      assert cube[..1][1..] == [];
      assert Concat(cube[0]) + [] == Concat(cube[0]);
    } else {
      FlatSnoc(cube[1..], n - 1);
      assert cube[..n + 1][1..] == cube[1..][..n] && cube[..n][1..] == cube[1..][..n - 1];
    }
  }

  // ----- shape

  /** Two nested lists of the same shape. */
  predicate SameShape<S, T>(a: seq<seq<seq<S>>>, b: seq<seq<seq<T>>>) {
    |a| == |b| && forall k :: 0 <= k < |a| ==> SameRows(a[k], b[k])
  }

  predicate SameRows<S, T>(a: seq<seq<S>>, b: seq<seq<T>>) {
    |a| == |b| && forall u :: 0 <= u < |a| ==> |a[u]| == |b[u]|
  }

  /** There is a category name per group and a subcategory name per list. */
  predicate Labelled(o: Order) {
    && |o.kategorie| == |o.unterkategorie| == |o.items|
    && forall k :: 0 <= k < |o.items| ==> |o.unterkategorie[k]| == |o.items[k]|
  }

  /** All columns of an order agree in shape, as the order builder leaves them. */
  predicate Aligned(o: Order) {
    && Labelled(o)
    && SameShape(o.items, o.preis) && SameShape(o.items, o.menge) && SameShape(o.items, o.itemsID)
  }

  lemma {:induction false} ConcatLength<S, T>(a: seq<seq<S>>, b: seq<seq<T>>)
    requires SameRows(a, b)
    ensures |Concat(a)| == |Concat(b)|
  {
    if a != [] {
      assert SameRows(a[1..], b[1..]);
      ConcatLength(a[1..], b[1..]);
    }
  }

  lemma {:induction false} FlatLength<S, T>(a: seq<seq<seq<S>>>, b: seq<seq<seq<T>>>)
    requires SameShape(a, b)
    ensures |Flat(a)| == |Flat(b)|
  {
    if a != [] {
      ConcatLength(a[0], b[0]);
      FlatLength(a[1..], b[1..]);
    }
  }

  // ----- row labels, looked up with index(of:)

  /** Array.index(of:): the first equal element. */
  function IndexOf<T(==)>(xs: seq<T>, x: T): (i: nat)
    requires x in xs
    ensures i < |xs| && xs[i] == x && forall j :: 0 <= j < i ==> xs[j] != x
  {
    if xs[0] == x then 0 else 1 + IndexOf(xs[1..], x)
  }

  function Repeat<T>(x: T, n: nat): (r: seq<T>)
    ensures |r| == n && forall i :: 0 <= i < n ==> r[i] == x
  {
    seq(n, i => x)
  }

  /** The category label of group k, as the code looks it up: by the position of an equal group. */
  function KatLabel(o: Order, k: nat): string
    requires Labelled(o) && k < |o.items|
  {
    o.kategorie[IndexOf(o.items, o.items[k])]
  }

  /** The subcategory label of list u in group k, looked up the same way twice. */
  function UKatLabel(o: Order, k: nat, u: nat): string
    requires Labelled(o) && k < |o.items| && u < |o.items[k]|
  {
    o.unterkategorie[IndexOf(o.items, o.items[k])][IndexOf(o.items[k], o.items[k][u])]
  }

  /** Labels of the first u lists of group k, one per row. */
  function GroupKats(o: Order, k: nat, u: nat): seq<string>
    requires Labelled(o) && k < |o.items| && u <= |o.items[k]|
  {
    if u == 0 then [] else GroupKats(o, k, u - 1) + Repeat(KatLabel(o, k), |o.items[k][u - 1]|)
  }

  function GroupUKats(o: Order, k: nat, u: nat): seq<string>
    requires Labelled(o) && k < |o.items| && u <= |o.items[k]|
  {
    if u == 0 then [] else GroupUKats(o, k, u - 1) + Repeat(UKatLabel(o, k, u - 1), |o.items[k][u - 1]|)
  }

  function KatsUpTo(o: Order, k: nat): seq<string>
    requires Labelled(o) && k <= |o.items|
  {
    if k == 0 then [] else KatsUpTo(o, k - 1) + GroupKats(o, k - 1, |o.items[k - 1]|)
  }

  function UKatsUpTo(o: Order, k: nat): seq<string>
    requires Labelled(o) && k <= |o.items|
  {
    if k == 0 then [] else UKatsUpTo(o, k - 1) + GroupUKats(o, k - 1, |o.items[k - 1]|)
  }

  function Kats(o: Order): seq<string>
    requires Labelled(o)
  {
    KatsUpTo(o, |o.items|)
  }

  function UKats(o: Order): seq<string>
    requires Labelled(o)
  {
    UKatsUpTo(o, |o.items|)
  }

  lemma {:induction false} GroupLabelLengths(o: Order, k: nat, u: nat)
    requires Labelled(o) && k < |o.items| && u <= |o.items[k]|
    ensures |GroupKats(o, k, u)| == |GroupUKats(o, k, u)| == |Concat(o.items[k][..u])|
    decreases u
  {
    if u > 0 {
      GroupLabelLengths(o, k, u - 1);
      ConcatSnoc(o.items[k], u - 1);
    }
  }

  /** One label of each kind per row. */
  lemma {:induction false} LabelLengths(o: Order, k: nat)
    requires Labelled(o) && k <= |o.items|
    ensures |KatsUpTo(o, k)| == |UKatsUpTo(o, k)| == |Flat(o.items[..k])|
    decreases k
  {
    if k > 0 {
      LabelLengths(o, k - 1);
      var group := o.items[k - 1];
      GroupLabelLengths(o, k - 1, |group|);
      assert group[..|group|] == group;
      FlatSnoc(o.items, k - 1);
    }
  }

  /** The labels are the row's own categories. */
  predicate LabelsRight(o: Order)
    requires Labelled(o)
  {
    && (forall k :: 0 <= k < |o.items| ==> KatLabel(o, k) == o.kategorie[k])
    && (forall k, u :: 0 <= k < |o.items| && 0 <= u < |o.items[k]| ==> UKatLabel(o, k, u) == o.unterkategorie[k][u])
  }

  predicate Distinct<T(==)>(xs: seq<T>) {
    forall i, j :: 0 <= i < j < |xs| ==> xs[i] != xs[j]
  }

  /** Looking rows up by equality labels them correctly exactly when no group and no list occurs twice. */
  lemma {:induction false} LabelsRightIff(o: Order)
    requires Labelled(o) && Distinct(o.kategorie) && forall k :: 0 <= k < |o.items| ==> Distinct(o.unterkategorie[k])
    ensures LabelsRight(o) <==> Distinct(o.items) && forall k :: 0 <= k < |o.items| ==> Distinct(o.items[k])
  {
    if LabelsRight(o) {
      forall i, j | 0 <= i < j < |o.items| ensures o.items[i] != o.items[j] {
        assert KatLabel(o, j) == o.kategorie[j];
      }
      forall k | 0 <= k < |o.items| ensures Distinct(o.items[k]) {
        assert KatLabel(o, k) == o.kategorie[k];
        assert IndexOf(o.items, o.items[k]) == k;
        forall i, j | 0 <= i < j < |o.items[k]| ensures o.items[k][i] != o.items[k][j] {
          assert UKatLabel(o, k, j) == o.unterkategorie[k][j];
        }
      }
    }
  }

  // ----- labels row by row

  /** The labels the rows should carry: each group's own category, each list's own subcategory. */
  function OwnGroupKats(o: Order, k: nat, u: nat): (r: seq<string>)
    requires Labelled(o) && k < |o.items| && u <= |o.items[k]|
    ensures |r| == |GroupKats(o, k, u)|
  {
    if u == 0 then [] else OwnGroupKats(o, k, u - 1) + Repeat(o.kategorie[k], |o.items[k][u - 1]|)
  }

  function OwnGroupUKats(o: Order, k: nat, u: nat): (r: seq<string>)
    requires Labelled(o) && k < |o.items| && u <= |o.items[k]|
    ensures |r| == |GroupUKats(o, k, u)|
  {
    if u == 0 then [] else OwnGroupUKats(o, k, u - 1) + Repeat(o.unterkategorie[k][u - 1], |o.items[k][u - 1]|)
  }

  function OwnKatsUpTo(o: Order, k: nat): (r: seq<string>)
    requires Labelled(o) && k <= |o.items|
    ensures |r| == |KatsUpTo(o, k)|
  {
    if k == 0 then [] else OwnKatsUpTo(o, k - 1) + OwnGroupKats(o, k - 1, |o.items[k - 1]|)
  }

  function OwnUKatsUpTo(o: Order, k: nat): (r: seq<string>)
    requires Labelled(o) && k <= |o.items|
    ensures |r| == |UKatsUpTo(o, k)|
  {
    if k == 0 then [] else OwnUKatsUpTo(o, k - 1) + OwnGroupUKats(o, k - 1, |o.items[k - 1]|)
  }

  function OwnKats(o: Order): (r: seq<string>)
    requires Labelled(o)
    ensures |r| == |Kats(o)|
  {
    OwnKatsUpTo(o, |o.items|)
  }

  function OwnUKats(o: Order): (r: seq<string>)
    requires Labelled(o)
    ensures |r| == |UKats(o)|
  {
    OwnUKatsUpTo(o, |o.items|)
  }

  /** No group and no list is empty. */
  predicate Filled(o: Order) {
    && (forall k :: 0 <= k < |o.items| ==> o.items[k] != [])
    && (forall k, u :: 0 <= k < |o.items| && 0 <= u < |o.items[k]| ==> o.items[k][u] != [])
  }

  /** Concatenations of parts of equal lengths agree exactly if the parts do. */
  lemma SameParts<T>(a: seq<T>, b: seq<T>, c: seq<T>, d: seq<T>)
    requires |a| == |c| && |b| == |d|
    ensures a + b == c + d <==> a == c && b == d
  {
    if a + b == c + d {
      assert (a + b)[..|a|] == a && (a + b)[|a|..] == b;
      assert (c + d)[..|c|] == c && (c + d)[|c|..] == d;
    }
  }

  lemma SameRepeats<T>(x: T, y: T, n: nat)
    requires n > 0
    ensures Repeat(x, n) == Repeat(y, n) <==> x == y
  {
    assert Repeat(x, n)[0] == x && Repeat(y, n)[0] == y;
  }

  lemma {:induction false} GroupKatsRight(o: Order, k: nat, u: nat)
    requires Labelled(o) && Filled(o) && k < |o.items| && u <= |o.items[k]|
    ensures GroupKats(o, k, u) == OwnGroupKats(o, k, u) <==> u == 0 || KatLabel(o, k) == o.kategorie[k]
    decreases u
  {
    if u > 0 {
      GroupKatsRight(o, k, u - 1);
      var n := |o.items[k][u - 1]|;
      SameRepeats(KatLabel(o, k), o.kategorie[k], n);
      SameParts(GroupKats(o, k, u - 1), Repeat(KatLabel(o, k), n), OwnGroupKats(o, k, u - 1), Repeat(o.kategorie[k], n));
    }
  }

  lemma {:induction false} GroupUKatsRight(o: Order, k: nat, u: nat)
    requires Labelled(o) && Filled(o) && k < |o.items| && u <= |o.items[k]|
    ensures GroupUKats(o, k, u) == OwnGroupUKats(o, k, u) <==> UKatsRight(o, k, u)
    decreases u
  {
    if u > 0 {
      GroupUKatsRight(o, k, u - 1);
      var n, x, y := |o.items[k][u - 1]|, UKatLabel(o, k, u - 1), o.unterkategorie[k][u - 1];
      SameRepeats(x, y, n);
      SameParts(GroupUKats(o, k, u - 1), Repeat(x, n), OwnGroupUKats(o, k, u - 1), Repeat(y, n));
    }
  }

  predicate KatRight(o: Order, k: nat)
    requires Labelled(o) && k < |o.items|
  {
    KatLabel(o, k) == o.kategorie[k]
  }

  predicate KatsRight(o: Order, k: nat)
    requires Labelled(o) && k <= |o.items|
  {
    k == 0 || (KatsRight(o, k - 1) && KatRight(o, k - 1))
  }

  predicate UKatsRight(o: Order, k: nat, u: nat)
    requires Labelled(o) && k < |o.items| && u <= |o.items[k]|
  {
    forall v :: 0 <= v < u ==> UKatLabel(o, k, v) == o.unterkategorie[k][v]
  }

  predicate AllUKatsRight(o: Order, k: nat)
    requires Labelled(o) && k <= |o.items|
  {
    k == 0 || (AllUKatsRight(o, k - 1) && UKatsRight(o, k - 1, |o.items[k - 1]|))
  }

  lemma {:induction false} KatsRightUpTo(o: Order, k: nat)
    requires Labelled(o) && Filled(o) && k <= |o.items|
    ensures KatsUpTo(o, k) == OwnKatsUpTo(o, k) <==> KatsRight(o, k)
    decreases k
  {
    if k > 0 {
      KatsRightUpTo(o, k - 1);
      var j, n := k - 1, |o.items[k - 1]|;
      assert n > 0;
      GroupKatsRight(o, j, n);
      SameParts(KatsUpTo(o, j), GroupKats(o, j, n), OwnKatsUpTo(o, j), OwnGroupKats(o, j, n));
    }
  }

  /** Over the first k groups. */
  predicate UKatsAgree(o: Order, k: nat)
    requires Labelled(o) && k <= |o.items|
  {
    UKatsUpTo(o, k) == OwnUKatsUpTo(o, k) <==> AllUKatsRight(o, k)
  }

  lemma {:induction false} UKatsRightUpTo(o: Order, k: nat)
    requires Labelled(o) && Filled(o) && k <= |o.items|
    ensures UKatsAgree(o, k)
    decreases k
  {
    if k > 0 {
      UKatsRightUpTo(o, k - 1);
      UKatsRightStep(o, k - 1, |o.items[k - 1]|);
    }
  }

  lemma {:induction false} UKatsRightStep(o: Order, j: nat, n: nat)
    requires Labelled(o) && Filled(o) && j < |o.items| && n == |o.items[j]| && UKatsAgree(o, j)
    ensures UKatsAgree(o, j + 1)
  {
    GroupUKatsRight(o, j, n);
    UKatsRightNext(o, j, UKatsUpTo(o, j), GroupUKats(o, j, n), OwnUKatsUpTo(o, j), OwnGroupUKats(o, j, n));
  }

  lemma {:induction false} UKatsRightNext(o: Order, j: nat, a: seq<string>, b: seq<string>, c: seq<string>, d: seq<string>)
    requires Labelled(o) && j < |o.items| && |a| == |c| && |b| == |d|
    requires (a == c <==> AllUKatsRight(o, j)) && (b == d <==> UKatsRight(o, j, |o.items[j]|))
    ensures a + b == c + d <==> AllUKatsRight(o, j + 1)
  {
    SameParts(a, b, c, d);
  }

  lemma {:induction false} EachRight(o: Order, k: nat)
    requires Labelled(o) && k <= |o.items|
    ensures KatsRight(o, k) <==> forall j :: 0 <= j < k ==> KatRight(o, j)
    ensures AllUKatsRight(o, k) <==> forall j :: 0 <= j < k ==> UKatsRight(o, j, |o.items[j]|)
    decreases k
  {
    if k > 0 { EachRight(o, k - 1); }
  }

  lemma {:induction false} RightIsLabelsRight(o: Order)
    requires Labelled(o)
    ensures LabelsRight(o) <==> KatsRight(o, |o.items|) && AllUKatsRight(o, |o.items|)
  {
    EachRight(o, |o.items|);
    if KatsRight(o, |o.items|) && AllUKatsRight(o, |o.items|) {
      forall k | 0 <= k < |o.items| ensures KatLabel(o, k) == o.kategorie[k] {
        assert KatRight(o, k);
      }
      forall k, u | 0 <= k < |o.items| && 0 <= u < |o.items[k]| ensures UKatLabel(o, k, u) == o.unterkategorie[k][u] {
        assert UKatsRight(o, k, |o.items[k]|);
      }
    }
  }

  /** The rows of an order carry their own categories and subcategories exactly when no group and no list occurs twice. */
  lemma {:induction false} RowLabelsRightIff(o: Order)
    requires Labelled(o) && Filled(o)
    requires Distinct(o.kategorie) && forall k :: 0 <= k < |o.items| ==> Distinct(o.unterkategorie[k])
    ensures Kats(o) == OwnKats(o) && UKats(o) == OwnUKats(o) <==>
            Distinct(o.items) && forall k :: 0 <= k < |o.items| ==> Distinct(o.items[k])
  {
    KatsRightUpTo(o, |o.items|);
    UKatsRightUpTo(o, |o.items|);
    RightIsLabelsRight(o);
    LabelsRightIff(o);
  }

  /** Two categories with the same dishes: the second one's rows get the first one's name. */
  lemma TwinsAreMislabelled()
    ensures var o := Order("b1", "7", ["Drinks", "Desserts"], [["Hot"], ["Cold"]],
                           [[["Coffee"]], [["Coffee"]]], [[[2.0]], [[3.0]]], [[[1]], [[1]]], [[["x"]], [["y"]]],
                           [[[""]], [[""]]], [[[""]], [[""]]], [[true], [true]]);
            Aligned(o) && Kats(o) == ["Drinks", "Drinks"]
  {
    var o := Order("b1", "7", ["Drinks", "Desserts"], [["Hot"], ["Cold"]],
                   [[["Coffee"]], [["Coffee"]]], [[[2.0]], [[3.0]]], [[[1]], [[1]]], [[["x"]], [["y"]]], [[[""]], [[""]]],
                   [[[""]], [[""]]], [[true], [true]]);
    assert KatLabel(o, 0) == "Drinks" && KatLabel(o, 1) == "Drinks";
    assert GroupKats(o, 0, 1) == GroupKats(o, 0, 0) + Repeat("Drinks", 1) == ["Drinks"];
    assert GroupKats(o, 1, 1) == GroupKats(o, 1, 0) + Repeat("Drinks", 1) == ["Drinks"];
    assert KatsUpTo(o, 1) == KatsUpTo(o, 0) + GroupKats(o, 0, 1) == ["Drinks"];
    assert KatsUpTo(o, 2) == KatsUpTo(o, 1) + GroupKats(o, 1, 1);
  }

  // ----- one table's rows

  /** The flat columns of a bill, row by row. */
  datatype Rows = Rows(kategorie: seq<string>, unterkategorie: seq<string>, items: seq<string>, preis: seq<real>, menge: seq<int>)

  const NO_ROWS := Rows([], [], [], [], [])

  function Join(a: Rows, b: Rows): Rows {
    Rows(a.kategorie + b.kategorie, a.unterkategorie + b.unterkategorie, a.items + b.items, a.preis + b.preis, a.menge + b.menge)
  }

  function OrderRows(o: Order): Rows
    requires Aligned(o)
  {
    Rows(Kats(o), UKats(o), Flat(o.items), Flat(o.preis), Flat(o.menge))
  }

  /** The rows of the first n orders that belong to the table. */
  function RowsUpTo(orders: seq<Order>, tisch: string, n: nat): Rows
    requires n <= |orders| && forall o :: o in orders ==> Aligned(o)
  {
    if n == 0 then NO_ROWS
    else if orders[n - 1].tischnummer == tisch then Join(RowsUpTo(orders, tisch, n - 1), OrderRows(orders[n - 1]))
    else RowsUpTo(orders, tisch, n - 1)
  }

  function IdsUpTo(orders: seq<Order>, tisch: string, n: nat): map<string, seq<string>>
    requires n <= |orders|
  {
    if n == 0 then map[]
    else if orders[n - 1].tischnummer == tisch then
      IdsUpTo(orders, tisch, n - 1)[orders[n - 1].bestellungID := Flat(orders[n - 1].itemsID)]
    else IdsUpTo(orders, tisch, n - 1)
  }

  /** Do any of the first n orders belong to the table? */
  predicate HasOrder(orders: seq<Order>, tisch: string, n: nat)
    requires n <= |orders|
  {
    n > 0 && (orders[n - 1].tischnummer == tisch || HasOrder(orders, tisch, n - 1))
  }

  /** The bill of one table, at its place in the list. Its own itemsID column is always passed empty. */
  function MergedTable(orders: seq<Order>, tisch: string, section: nat): Table
    requires forall o :: o in orders ==> Aligned(o)
  {
    var r := RowsUpTo(orders, tisch, |orders|);
    Table(IdsUpTo(orders, tisch, |orders|), tisch, r.kategorie, r.unterkategorie, r.items, r.preis, r.menge, [],
          if HasOrder(orders, tisch, |orders|) then map[section := Zeros(|r.menge|)] else map[])
  }

  predicate Level(r: Rows) {
    |r.kategorie| == |r.unterkategorie| == |r.items| == |r.preis| == |r.menge|
  }

  /** Every row of a bill has all its columns. */
  lemma {:induction false} RowsAreLevel(orders: seq<Order>, tisch: string, n: nat)
    requires n <= |orders| && forall o :: o in orders ==> Aligned(o)
    ensures Level(RowsUpTo(orders, tisch, n))
  {
    if n > 0 {
      RowsAreLevel(orders, tisch, n - 1);
      var o := orders[n - 1];
      assert o in orders;
      LabelLengths(o, |o.items|);
      assert o.items[..|o.items|] == o.items;
      FlatLength(o.items, o.preis);
      FlatLength(o.items, o.menge);
    }
  }

  // ----- conservation

  function Sum(xs: seq<int>): int {
    if xs == [] then 0 else xs[0] + Sum(xs[1..])
  }

  lemma {:induction false} SumAppend(a: seq<int>, b: seq<int>)
    ensures Sum(a + b) == Sum(a) + Sum(b)
  {
    if a == [] {
      assert a + b == b;
    } else {
      SumAppend(a[1..], b);
      assert (a + b)[1..] == a[1..] + b;
    }
  }

  /** Quantity ordered in the first n orders, at tables among the keys. */
  function OrderedUpTo(orders: seq<Order>, keys: seq<string>, n: nat): int
    requires n <= |orders|
  {
    if n == 0 then 0
    else OrderedUpTo(orders, keys, n - 1) + (if orders[n - 1].tischnummer in keys then Sum(Flat(orders[n - 1].menge)) else 0)
  }

  /** Quantity billed on all tables, from the first n orders. */
  function BilledUpTo(orders: seq<Order>, keys: seq<string>, n: nat): int
    requires n <= |orders| && forall o :: o in orders ==> Aligned(o)
  {
    if keys == [] then 0
    else Sum(RowsUpTo(orders, keys[0], n).menge) + BilledUpTo(orders, keys[1..], n)
  }

  /** One more order reaches exactly the bill of its own table. */
  lemma {:induction false} BilledNext(orders: seq<Order>, keys: seq<string>, n: nat)
    requires n < |orders| && (forall o :: o in orders ==> Aligned(o)) && Distinct(keys)
    ensures BilledUpTo(orders, keys, n + 1) ==
            BilledUpTo(orders, keys, n) + (if orders[n].tischnummer in keys then Sum(Flat(orders[n].menge)) else 0)
    decreases |keys|
  {
    if keys != [] {
      BilledNext(orders, keys[1..], n);
      SumAppend(RowsUpTo(orders, keys[0], n).menge, Flat(orders[n].menge));
      assert keys == [keys[0]] + keys[1..];
      assert forall j :: 0 < j < |keys| ==> keys[j] != keys[0];
    }
  }

  /** Every order of a listed table is billed exactly once: the quantities add up. */
  lemma {:induction false} QuantityConserved(orders: seq<Order>, keys: seq<string>, n: nat)
    requires n <= |orders| && (forall o :: o in orders ==> Aligned(o)) && Distinct(keys)
    ensures BilledUpTo(orders, keys, n) == OrderedUpTo(orders, keys, n)
    decreases n
  {
    if n == 0 {
      NothingBilled(orders, keys);
    } else {
      QuantityConserved(orders, keys, n - 1);
      BilledNext(orders, keys, n - 1);
    }
  }

  lemma {:induction false} NothingBilled(orders: seq<Order>, keys: seq<string>)
    requires forall o :: o in orders ==> Aligned(o)
    ensures BilledUpTo(orders, keys, 0) == 0
    decreases |keys|
  {
    if keys != [] { NothingBilled(orders, keys[1..]); }
  }

  // ----- the merge as it runs

  /** The double loops that append one nested column to an accumulator. */
  method AppendCube<T>(acc: seq<T>, cube: seq<seq<seq<T>>>) returns (out: seq<T>)
    ensures out == acc + Flat(cube)
  {
    out := acc;
    for k := 0 to |cube|
      invariant out == acc + Flat(cube[..k])
    {
      for u := 0 to |cube[k]|
        invariant out == acc + Flat(cube[..k]) + Concat(cube[k][..u])
      {
        ConcatSnoc(cube[k], u);
        out := out + cube[k][u];
      }
      assert cube[k][..|cube[k]|] == cube[k];
      FlatSnoc(cube, k);
    }
    assert cube[..|cube|] == cube;
  }

  /** The innermost loop: the two labels of list u, once per row. */
  method LabelList(kats: seq<string>, ukats: seq<string>, o: Order, k: nat, u: nat) returns (kats': seq<string>,
                   ukats': seq<string>)
    requires Labelled(o) && k < |o.items| && u < |o.items[k]|
    ensures kats' == kats + Repeat(KatLabel(o, k), |o.items[k][u]|)
    ensures ukats' == ukats + Repeat(UKatLabel(o, k, u), |o.items[k][u]|)
  {
    kats', ukats' := kats, ukats;
    for i := 0 to |o.items[k][u]|
      invariant kats' == kats + Repeat(KatLabel(o, k), i)
      invariant ukats' == ukats + Repeat(UKatLabel(o, k, u), i)
    {
      ukats' := ukats' + [UKatLabel(o, k, u)];
      kats' := kats' + [KatLabel(o, k)];
    }
  }

  method LabelGroup(kats: seq<string>, ukats: seq<string>, o: Order, k: nat) returns (kats': seq<string>, ukats': seq<string>)
    requires Labelled(o) && k < |o.items|
    ensures kats' == kats + GroupKats(o, k, |o.items[k]|)
    ensures ukats' == ukats + GroupUKats(o, k, |o.items[k]|)
  {
    kats', ukats' := kats, ukats;
    for u := 0 to |o.items[k]|
      invariant kats' == kats + GroupKats(o, k, u)
      invariant ukats' == ukats + GroupUKats(o, k, u)
    {
      kats', ukats' := LabelList(kats', ukats', o, k, u);
    }
  }

  /** The item loop: every row gets the labels found by index(of:). */
  method AppendLabels(kats: seq<string>, ukats: seq<string>, o: Order) returns (kats': seq<string>, ukats': seq<string>)
    requires Labelled(o)
    ensures kats' == kats + Kats(o) && ukats' == ukats + UKats(o)
  {
    kats', ukats' := kats, ukats;
    for k := 0 to |o.items|
      invariant kats' == kats + KatsUpTo(o, k)
      invariant ukats' == ukats + UKatsUpTo(o, k)
    {
      kats', ukats' := LabelGroup(kats', ukats', o, k);
    }
  }

  method AppendOrder(acc: Rows, o: Order) returns (out: Rows)
    requires Aligned(o)
    ensures out == Join(acc, OrderRows(o))
  {
    var items := AppendCube(acc.items, o.items);
    var kats, ukats := AppendLabels(acc.kategorie, acc.unterkategorie, o);
    var preis := AppendCube(acc.preis, o.preis);
    var menge := AppendCube(acc.menge, o.menge);
    out := Rows(kats, ukats, items, preis, menge);
  }

  /** One table: every order is tested, matching ones are appended column by column. */
  method MergeOne(orders: seq<Order>, tisch: string, section: nat) returns (t: Table)
    requires forall o :: o in orders ==> Aligned(o)
    ensures t == MergedTable(orders, tisch, section)
  {
    var acc, ids := NO_ROWS, map[];
    var mengeBezahlt: seq<int>, bezahlt: map<int, seq<int>> := [], map[];
    for n := 0 to |orders|
      invariant acc == RowsUpTo(orders, tisch, n)
      invariant ids == IdsUpTo(orders, tisch, n)
      invariant mengeBezahlt == Zeros(|acc.menge|)
      invariant bezahlt == if HasOrder(orders, tisch, n) then map[section := mengeBezahlt] else map[]
    {
      var o := orders[n];
      if o.tischnummer == tisch {
        var more := AppendOrder(acc, o);
        mengeBezahlt := mengeBezahlt + Zeros(|more.menge| - |acc.menge|);
        acc := more;
        var alleItemsID := AppendCube([], o.itemsID);
        assert alleItemsID == Flat(o.itemsID);
        ids := ids[o.bestellungID := alleItemsID];
        bezahlt := bezahlt[section := mengeBezahlt];
      }
    }
    t := Table(ids, tisch, acc.kategorie, acc.unterkategorie, acc.items, acc.preis, acc.menge, [], bezahlt);
  }

  /** BestellungenZusammenführen: one bill per table key, in key order. */
  method Merge(keys: seq<string>, orders: seq<Order>) returns (fertig: seq<Table>)
    requires forall o :: o in orders ==> Aligned(o)
    ensures |fertig| == |keys|
    ensures forall i :: 0 <= i < |keys| ==> fertig[i] == MergedTable(orders, keys[i], i)
  {
    fertig := [];
    for section := 0 to |keys|
      invariant |fertig| == section
      invariant forall i :: 0 <= i < section ==> fertig[i] == MergedTable(orders, keys[i], i)
    {
      var t := MergeOne(orders, keys[section], section);
      fertig := fertig + [t];
    }
  }
}
