/** What is selected on the payment screen: every action's effect on the counts, and the effect of repeated taps. */
module PaymentCounts {
  import opened Words
  import opened TableMerge
  import opened OrderBuilder
  import opened OrderArrival
  import opened SplitPayment

  function Min(a: int, b: int): int { if a <= b then a else b }
  function Max(a: int, b: int): int { if a >= b then a else b }

  /** The selected counts of a table's rows; the bills of a merge file them under the table's section. */
  function Selected(t: Table, section: int): seq<int> {
    if section in t.bezahltMenge then t.bezahltMenge[section] else []
  }

  /** The table in section s is the one on the bill. */
  predicate OnBill(v: View, s: nat) {
    s < |v.fertig| && v.bezahlen != [] && v.tischnummerBezahlen == v.fertig[s].tischnummer
  }

  /** The counts before a tap on section s: the bill's if the table is on it, otherwise the list's. */
  function Before(v: View, s: nat): seq<int>
    requires s < |v.fertig|
  {
    Selected(if OnBill(v, s) then v.bezahlen[0] else v.fertig[s], s)
  }

  /** The screen shows the bill of section s with these counts, and all else is as in v. */
  predicate ShowsBill(v: View, w: View, s: nat, counts: seq<int>) {
    && s < |v.fertig| && w.fertig == v.fertig && |w.bezahlen| == 1
    && w.tischnummerBezahlen == v.fertig[s].tischnummer
    && w.bezahlen[0] == v.fertig[s].(bezahltMenge := w.bezahlen[0].bezahltMenge)
    && s in w.bezahlen[0].bezahltMenge && w.bezahlen[0].bezahltMenge[s] == counts
  }

  /** A tap on a row selects one more of it, up to what was ordered; no other row changes. */
  lemma TapCounts(v: View, s: nat, r: nat)
    requires Safe(v) && Enabled(v, TapRow(s, r)) && Apply(v, TapRow(s, r)).Some?
    ensures var had, menge := Before(v, s), v.fertig[s].menge;
            && |had| == |menge| && r < |had|
            && ShowsBill(v, Apply(v, TapRow(s, r)).value, s, had[r := Min(had[r] + 1, menge[r])])
  {
    StepSafe(v, TapRow(s, r));
    TapRowSafe(v, s, r);
    RedrawSafe(TapRowStep(v, s, r).value, s);
  }

  /** Pay-all selects all that was ordered, on the bill and in the list. */
  lemma PayAllCounts(v: View, s: nat)
    requires Safe(v) && Enabled(v, PayAll(s))
    ensures Apply(v, PayAll(s)).Some?
    ensures var w, t := Apply(v, PayAll(s)).value, v.fertig[s];
            var full := t.(bezahltMenge := t.bezahltMenge[s := t.menge]);
            w.fertig == v.fertig[s := full] && w.bezahlen == [full] && w.tischnummerBezahlen == t.tischnummer
  {
    PayAllSafe(v, s);
    RedrawSafe(PayAllStep(v, s).value, s);
  }

  /** A tap on the bill selects one less of the row, down to none; no other row changes. */
  lemma UnpayCounts(v: View, r: nat)
    requires Safe(v) && Enabled(v, TapBill(r))
    ensures Apply(v, TapBill(r)).Some?
    ensures var s, had := v.trueSection, Selected(v.bezahlen[0], v.trueSection);
            && 0 <= s < |v.fertig| && OnBill(v, s) && r < |had|
            && ShowsBill(v, Apply(v, TapBill(r)).value, s, had[r := Max(had[r] - 1, 0)])
  {
    TapBillSafe(v, r);
    RedrawSafe(TapBillStep(v, r).value, v.trueSection);
    var s :| 0 <= s < |v.fertig| && BillOf(v, s) && v.trueSection == s;
  }

  // ----- repeated taps

  function Taps(s: nat, r: nat, k: nat): seq<Action> {
    if k == 0 then [] else [TapRow(s, r)] + Taps(s, r, k - 1)
  }

  /** The bill of section s is that table's, with counts between nothing and everything. */
  lemma BillCounts(v: View, s: nat)
    requires Safe(v) && OnBill(v, s)
    ensures BillOf(v, s)
    ensures v.fertig[s].items != [] ==> CountsOk(Before(v, s), v.fertig[s].menge)
    ensures v.fertig[s].items != [] ==> ShowsBill(v, v, s, Before(v, s))
  {
    var i :| 0 <= i < |v.fertig| && BillOf(v, i);
    assert v.fertig[i].tischnummer == v.fertig[s].tischnummer;
    assert i == s;
  }

  /** One more and then k more. */
  lemma Raised(had: seq<int>, r: nat, limit: int, k: nat)
    requires r < |had| && had[r] <= limit
    ensures var next := had[r := Min(had[r] + 1, limit)];
            next[r := Min(next[r] + k, limit)] == had[r := Min(had[r] + (k + 1), limit)]
  {
  }

  /** The bill that a first step shows is the one the next step finds. */
  lemma ThenShows(v: View, w: View, u: View, s: nat, a: seq<int>, b: seq<int>)
    requires ShowsBill(v, w, s, a)
    ensures OnBill(w, s) && Before(w, s) == a
    ensures ShowsBill(w, u, s, b) ==> ShowsBill(v, u, s, b)
  {
  }

  lemma FirstTap(v: View, s: nat, r: nat, k: nat, w: View)
    requires k >= 1 && Enabled(v, TapRow(s, r)) && Apply(v, TapRow(s, r)) == Some(w)
    ensures Run(v, Taps(s, r, k)) == Run(w, Taps(s, r, k - 1))
    ensures Possible(w, Taps(s, r, k - 1)) ==> Possible(v, Taps(s, r, k))
  {
    assert Taps(s, r, k)[0] == TapRow(s, r) && Taps(s, r, k)[1..] == Taps(s, r, k - 1);
  }

  /** k taps lead from v to `end`, and that shows what they should have selected. */
  ghost predicate Selects(v: View, s: nat, r: nat, k: nat, end: Option<View>) {
    && s < |v.fertig| && r < |Before(v, s)| == |v.fertig[s].menge| && end.Some?
    && ShowsBill(v, end.value, s, Before(v, s)[r := Min(Before(v, s)[r] + k, v.fertig[s].menge[r])])
  }

  /** k taps on a row of the table on the bill. */
  lemma {:induction false} MoreTaps(v: View, s: nat, r: nat, k: nat, end: Option<View>)
    requires Safe(v) && Enabled(v, TapRow(s, r)) && OnBill(v, s) && end == Run(v, Taps(s, r, k))
    ensures Possible(v, Taps(s, r, k)) && Selects(v, s, r, k, end)
    decreases k, 0
  {
    BillCounts(v, s);
    if k == 0 {
      var had, menge := Before(v, s), v.fertig[s].menge;
      assert had[r := Min(had[r], menge[r])] == had;
    } else {
      TapsFrom(v, s, r, k, end);
    }
  }

  /** A tap, and then more on the bill it shows. */
  lemma {:induction false} TapsFrom(v: View, s: nat, r: nat, k: nat, end: Option<View>)
    requires Safe(v) && Enabled(v, TapRow(s, r)) && !Crashes(v, TapRow(s, r)) && k >= 1 && end == Run(v, Taps(s, r, k))
    ensures Possible(v, Taps(s, r, k)) && Selects(v, s, r, k, end)
    decreases k - 1, 1
  {
    var w, next := AfterTap(v, s, r);
    FirstTap(v, s, r, k, w);
    MoreTaps(w, s, r, k - 1, end);
    ThenSelects(v, w, s, r, k, end, next);
  }

  lemma ThenSelects(v: View, w: View, s: nat, r: nat, k: nat, end: Option<View>, next: seq<int>)
    requires k >= 1 && s < |v.fertig| && r < |Before(v, s)| == |v.fertig[s].menge| && Before(v, s)[r] <= v.fertig[s].menge[r]
    requires next == Before(v, s)[r := Min(Before(v, s)[r] + 1, v.fertig[s].menge[r])]
    requires ShowsBill(v, w, s, next) && Selects(w, s, r, k - 1, end)
    ensures Selects(v, s, r, k, end)
  {
    var limit := v.fertig[s].menge[r];
    ThenShows(v, w, end.value, s, next, next[r := Min(next[r] + (k - 1), limit)]);
    Raised(Before(v, s), r, limit, k - 1);
  }

  lemma {:induction false} AfterTap(v: View, s: nat, r: nat) returns (w: View, next: seq<int>)
    requires Safe(v) && Enabled(v, TapRow(s, r)) && !Crashes(v, TapRow(s, r))
    ensures Apply(v, TapRow(s, r)) == Some(w) && Safe(w) && Enabled(w, TapRow(s, r)) && OnBill(w, s)
    ensures |Before(v, s)| == |v.fertig[s].menge| && r < |Before(v, s)| && Before(v, s)[r] <= v.fertig[s].menge[r]
    ensures next == Before(v, s)[r := Min(Before(v, s)[r] + 1, v.fertig[s].menge[r])]
    ensures ShowsBill(v, w, s, next) && Before(w, s) == next
  {
    StepSafe(v, TapRow(s, r));
    TapCounts(v, s, r);
    w := Apply(v, TapRow(s, r)).value;
    next := Before(v, s)[r := Min(Before(v, s)[r] + 1, v.fertig[s].menge[r])];
    ThenShows(v, w, w, s, next, next);
    AtMostOrdered(v, s, r);
  }

  lemma AtMostOrdered(v: View, s: nat, r: nat)
    requires Safe(v) && s < |v.fertig| && r < |Before(v, s)| == |v.fertig[s].menge|
    requires v.fertig[s].items != []
    ensures Before(v, s)[r] <= v.fertig[s].menge[r]
  {
    if OnBill(v, s) {
      BillCounts(v, s);
    } else {
      assert TableOk(v.fertig[s], s);
    }
  }

  /** On the bills of a fresh merge nothing is selected. */
  lemma {:induction false} FreshCounts(keys: seq<string>, orders: seq<Order>, s: nat, r: nat)
    requires (forall o :: o in orders ==> Aligned(o)) && s < |keys|
    requires Enabled(FreshView(Bills(keys, orders)), TapRow(s, r))
    ensures var t := Bills(keys, orders)[s];
            && |Selected(t, s)| == |t.menge| && r < |t.menge|
            && forall i :: 0 <= i < |t.menge| ==> Selected(t, s)[i] == 0
  {
    RowsAreLevel(orders, keys[s], |orders|);
    var t := Bills(keys, orders)[s];
    assert t == MergedTable(orders, keys[s], s);
    if !HasOrder(orders, keys[s], |orders|) { NoOrderNoRows(orders, keys[s], |orders|); }
  }

  lemma {:induction false} NoOrderNoRows(orders: seq<Order>, tisch: string, n: nat)
    requires n <= |orders| && (forall o :: o in orders ==> Aligned(o)) && !HasOrder(orders, tisch, n)
    ensures RowsUpTo(orders, tisch, n) == NO_ROWS
  {
    if n > 0 { NoOrderNoRows(orders, tisch, n - 1); }
  }

  /** From a safe screen, k taps on a row select k more of it, up to what was ordered, and nothing else. */
  lemma TapsCount(v: View, s: nat, r: nat, k: nat)
    requires Safe(v) && Enabled(v, TapRow(s, r)) && k >= 1 && v.fertig[s].tischnummer != ""
    ensures Possible(v, Taps(s, r, k)) && Selects(v, s, r, k, Run(v, Taps(s, r, k)))
  {
    TapsFrom(v, s, r, k, Run(v, Taps(s, r, k)));
  }

  /** After a fresh merge, k taps on one row select min(k, ordered) of it and nothing else. */
  lemma {:induction false} FreshTaps(keys: seq<string>, orders: seq<Order>, s: nat, r: nat, k: nat)
    requires (forall o :: o in orders ==> Aligned(o)) && Distinct(keys)
    requires forall o, x :: o in orders && x in Flat(o.menge) ==> x >= 0
    requires s < |keys| && keys[s] != "" && k >= 1
    requires Enabled(FreshView(Bills(keys, orders)), TapRow(s, r))
    ensures var v := FreshView(Bills(keys, orders));
            && Run(v, Taps(s, r, k)).Some? && |Run(v, Taps(s, r, k)).value.bezahlen| == 1
            && var t, counts := v.fertig[s], Selected(Run(v, Taps(s, r, k)).value.bezahlen[0], s);
            && |counts| == |t.menge|
            && forall i :: 0 <= i < |counts| ==> counts[i] == if i == r then Min(k, t.menge[r]) else 0
  {
    var fertig := Bills(keys, orders);
    FreshMergeSafe(keys, orders, fertig);
    FreshCounts(keys, orders, s, r);
    TapsCount(FreshView(fertig), s, r, k);
  }
}
