/** Choosing what to pay: row taps, "select all" and un-paying, over every run of the screen. */
module SplitPayment {
  import opened Words
  import opened TableMerge

  /** The payment fields of the view controller. */
  datatype View = View(fertig: seq<Table>, bezahlen: seq<Table>, tischnummerBezahlen: string, trueSection: int)

  datatype Action = TapRow(section: nat, row: nat) | PayAll(section: nat) | TapBill(row: nat)

  /** What the screen lets the user touch: rows and footers that are shown. */
  predicate Enabled(v: View, a: Action) {
    match a
    case TapRow(section, row) => section < |v.fertig| && row < |v.fertig[section].items|
    case PayAll(section) => section < |v.fertig|
    case TapBill(row) => |v.bezahlen| > 0 && row < |v.bezahlen[0].items|
  }

  // ----- one action; None is a crash (an index out of range or a missing dictionary entry)

  /** The count of a row, when dictionary entry and row exist. */
  predicate HasCount(t: Table, section: int, row: nat) {
    section in t.bezahltMenge && row < |t.bezahltMenge[section]|
  }

  function SetCount(t: Table, section: int, row: nat, n: int): Table
    requires HasCount(t, section, row)
  {
    t.(bezahltMenge := t.bezahltMenge[section := t.bezahltMenge[section][row := n]])
  }

  /** didSelectRowAt on the table list. */
  function TapRowStep(v: View, section: nat, row: nat): Option<View> {
    if section >= |v.fertig| then None
    else
      var bezahlen := if v.fertig[section].tischnummer != v.tischnummerBezahlen then [v.fertig[section]] else v.bezahlen;
      if bezahlen == [] || !HasCount(bezahlen[0], section, row) || row >= |bezahlen[0].menge| then None
      else
        var b, n := bezahlen[0], bezahlen[0].bezahltMenge[section][row];
        var next := SetCount(b, section, row, if n < b.menge[row] then n + 1 else n);
        Some(v.(bezahlen := bezahlen[0 := next], tischnummerBezahlen := b.tischnummer))
  }

  /** allesBezahlen. */
  function PayAllStep(v: View, section: nat): Option<View> {
    if section >= |v.fertig| then None
    else
      var t := v.fertig[section].(bezahltMenge := v.fertig[section].bezahltMenge[section := v.fertig[section].menge]);
      Some(v.(fertig := v.fertig[section := t], bezahlen := [t], tischnummerBezahlen := t.tischnummer))
  }

  /** didSelectRowAt on the bill. */
  function TapBillStep(v: View, row: nat): Option<View> {
    if v.bezahlen == [] || !HasCount(v.bezahlen[0], v.trueSection, row) then None
    else
      var n := v.bezahlen[0].bezahltMenge[v.trueSection][row];
      var next := SetCount(v.bezahlen[0], v.trueSection, row, if n > 0 then n - 1 else n);
      Some(v.(bezahlen := v.bezahlen[0 := next]))
  }

  /** The last section whose table has the given name; the old value if there is none. */
  function LastNamed(fertig: seq<Table>, name: string, otherwise: int): int {
    if fertig == [] then otherwise
    else if fertig[|fertig| - 1].tischnummer == name then |fertig| - 1
    else LastNamed(fertig[..|fertig| - 1], name, otherwise)
  }

  /** reloadData on the bill: every row is drawn, which looks its section up again and reads its count. */
  function Redraw(v: View): Option<View> {
    if v.bezahlen == [] || v.bezahlen[0].items == [] then Some(v)
    else
      var w := v.(trueSection := LastNamed(v.fertig, v.tischnummerBezahlen, v.trueSection));
      if HasCount(w.bezahlen[0], w.trueSection, |w.bezahlen[0].items| - 1) then Some(w) else None
  }

  function Step(v: View, a: Action): Option<View> {
    match a
    case TapRow(section, row) => TapRowStep(v, section, row)
    case PayAll(section) => PayAllStep(v, section)
    case TapBill(row) => TapBillStep(v, row)
  }

  /** An action and the redraw that follows it. */
  function Apply(v: View, a: Action): Option<View> {
    match Step(v, a)
    case None => None
    case Some(w) => Redraw(w)
  }

  function Run(v: View, actions: seq<Action>): Option<View>
    decreases |actions|
  {
    if actions == [] then Some(v)
    else match Apply(v, actions[0])
      case None => None
      case Some(w) => Run(w, actions[1..])
  }

  /** Every action is one the screen offers at its time. */
  predicate Possible(v: View, actions: seq<Action>)
    decreases |actions|
  {
    actions == [] ||
    (Enabled(v, actions[0]) && (Apply(v, actions[0]).Some? ==> Possible(Apply(v, actions[0]).value, actions[1..])))
  }

  // ----- the invariant

  /** Rows agree in number and every row has between nothing and everything paid. */
  predicate TableOk(t: Table, section: nat) {
    && |t.items| == |t.menge|
    && (t.items != [] ==> section in t.bezahltMenge)
    && (section in t.bezahltMenge ==> CountsOk(t.bezahltMenge[section], t.menge))
    && (forall n :: n in t.menge ==> n >= 0)
  }

  predicate CountsOk(paid: seq<int>, menge: seq<int>) {
    |paid| == |menge| && forall r :: 0 <= r < |paid| ==> 0 <= paid[r] <= menge[r]
  }

  predicate ListOk(fertig: seq<Table>) {
    && (forall i :: 0 <= i < |fertig| ==> TableOk(fertig[i], i))
    && (forall i, j :: 0 <= i < j < |fertig| ==> fertig[i].tischnummer != fertig[j].tischnummer)
  }

  /** The bill is that of the table in section s, except for the counts. */
  predicate BillOf(v: View, s: nat) {
    && s < |v.fertig| && |v.bezahlen| == 1
    && var b := v.bezahlen[0];
    && b == v.fertig[s].(bezahltMenge := b.bezahltMenge)
    && b.tischnummer == v.tischnummerBezahlen
    && TableOk(b, s)
  }

  predicate Safe(v: View) {
    && ListOk(v.fertig)
    && if v.bezahlen == [] then v.tischnummerBezahlen == ""
       else exists s :: 0 <= s < |v.fertig| && BillOf(v, s) && (v.bezahlen[0].items != [] ==> v.trueSection == s)
  }

  /** The one action that fails: before anything is selected, a tap on a table without a name selects nothing. */
  predicate Crashes(v: View, a: Action) {
    v.bezahlen == [] && a.TapRow? && a.section < |v.fertig| && v.fertig[a.section].tischnummer == ""
  }

  // ----- every step keeps it

  lemma {:induction false} LastNamedIs(fertig: seq<Table>, s: nat, otherwise: int)
    requires s < |fertig| && forall i, j :: 0 <= i < j < |fertig| ==> fertig[i].tischnummer != fertig[j].tischnummer
    ensures LastNamed(fertig, fertig[s].tischnummer, otherwise) == s
    decreases |fertig|
  {
    var n := |fertig| - 1;
    if s < n {
      assert fertig[n].tischnummer != fertig[s].tischnummer;
      LastNamedIs(fertig[..n], s, otherwise);
    }
  }

  /** Redrawing a bill of section s finds that section and every row's count. */
  lemma RedrawSafe(v: View, s: nat)
    requires ListOk(v.fertig) && BillOf(v, s)
    ensures Redraw(v).Some? && Safe(Redraw(v).value) && Redraw(v).value.bezahlen != []
  {
    LastNamedIs(v.fertig, s, v.trueSection);
    var w := Redraw(v).value;
    assert BillOf(w, s);
  }

  lemma SetCountOk(t: Table, s: nat, row: nat, n: int)
    requires TableOk(t, s) && HasCount(t, s, row) && 0 <= n <= t.menge[row]
    ensures TableOk(SetCount(t, s, row, n), s)
  {
    var u := SetCount(t, s, row, n);
    assert CountsOk(u.bezahltMenge[s], u.menge);
  }

  lemma TapRowSafe(v: View, section: nat, row: nat)
    requires Safe(v) && Enabled(v, TapRow(section, row)) && !Crashes(v, TapRow(section, row))
    ensures var w := TapRowStep(v, section, row);
            w.Some? && ListOk(w.value.fertig) && BillOf(w.value, section)
  {
    var t := v.fertig[section];
    if t.tischnummer == v.tischnummerBezahlen {
      var s :| 0 <= s < |v.fertig| && BillOf(v, s);
      assert s == section;
      SetCountOk(v.bezahlen[0], section, row, NextCount(v.bezahlen[0], section, row));
    } else {
      SetCountOk(t, section, row, NextCount(t, section, row));
    }
  }

  function NextCount(t: Table, section: int, row: nat): int
    requires HasCount(t, section, row) && row < |t.menge|
  {
    var n := t.bezahltMenge[section][row];
    if n < t.menge[row] then n + 1 else n
  }

  lemma PayAllSafe(v: View, section: nat)
    requires Safe(v) && Enabled(v, PayAll(section))
    ensures var w := PayAllStep(v, section);
            w.Some? && ListOk(w.value.fertig) && BillOf(w.value, section)
  {
    var w := PayAllStep(v, section).value;
    var t := w.fertig[section];
    forall r | 0 <= r < |t.menge| ensures 0 <= t.menge[r] { assert t.menge[r] in t.menge; }
    assert CountsOk(t.bezahltMenge[section], t.menge);
    assert TableOk(t, section);
  }

  lemma TapBillSafe(v: View, row: nat)
    requires Safe(v) && Enabled(v, TapBill(row))
    ensures var w := TapBillStep(v, row);
            w.Some? && ListOk(w.value.fertig) && BillOf(w.value, v.trueSection)
  {
    var s :| 0 <= s < |v.fertig| && BillOf(v, s) && v.trueSection == s;
    var n := v.bezahlen[0].bezahltMenge[s][row];
    SetCountOk(v.bezahlen[0], s, row, if n > 0 then n - 1 else n);
  }

  /** An action the screen offers fails exactly in that case; otherwise it keeps the invariant and a table is selected. */
  lemma StepSafe(v: View, a: Action)
    requires Safe(v) && Enabled(v, a)
    ensures Apply(v, a).None? <==> Crashes(v, a)
    ensures !Crashes(v, a) ==> Safe(Apply(v, a).value) && Apply(v, a).value.bezahlen != []
  {
    if !Crashes(v, a) {
      match a
      case TapRow(section, row) =>
        TapRowSafe(v, section, row);
        RedrawSafe(TapRowStep(v, section, row).value, section);
      case PayAll(section) =>
        PayAllSafe(v, section);
        RedrawSafe(PayAllStep(v, section).value, section);
      case TapBill(row) =>
        TapBillSafe(v, row);
        RedrawSafe(TapBillStep(v, row).value, v.trueSection);
    }
  }

  /**
   Over every run between reloads: it fails exactly if its first action does; otherwise 0 <= paid <= ordered on every
   row, and the bill is the selected table's.
   */
  lemma {:induction false} RunSafe(v: View, actions: seq<Action>)
    requires Safe(v) && Possible(v, actions)
    ensures Run(v, actions).None? <==> actions != [] && Crashes(v, actions[0])
    ensures Run(v, actions).Some? ==> Safe(Run(v, actions).value)
    decreases |actions|
  {
    if actions != [] {
      StepSafe(v, actions[0]);
      if !Crashes(v, actions[0]) {
        RunSafe(Apply(v, actions[0]).value, actions[1..]);
      }
    }
  }

  // ----- where runs start

  /** The screen right after a merge. */
  function FreshView(fertig: seq<Table>): View {
    View(fertig, [], "", 0)
  }

  lemma {:induction false} QuantitiesKept(orders: seq<Order>, tisch: string, n: nat)
    requires n <= |orders| && forall o :: o in orders ==> Aligned(o)
    requires forall o, x :: o in orders && x in Flat(o.menge) ==> x >= 0
    ensures forall x :: x in RowsUpTo(orders, tisch, n).menge ==> x >= 0
    ensures !HasOrder(orders, tisch, n) ==> RowsUpTo(orders, tisch, n) == NO_ROWS
  {
    if n > 0 {
      QuantitiesKept(orders, tisch, n - 1);
      assert orders[n - 1] in orders;
    }
  }

  /** A fresh merge of distinct tables with no negative quantity is a safe start. */
  lemma FreshMergeSafe(keys: seq<string>, orders: seq<Order>, fertig: seq<Table>)
    requires (forall o :: o in orders ==> Aligned(o)) && Distinct(keys)
    requires forall o, x :: o in orders && x in Flat(o.menge) ==> x >= 0
    requires |fertig| == |keys| && forall i :: 0 <= i < |keys| ==> fertig[i] == MergedTable(orders, keys[i], i)
    ensures Safe(FreshView(fertig))
  {
    forall i | 0 <= i < |fertig| ensures TableOk(fertig[i], i) {
      RowsAreLevel(orders, keys[i], |orders|);
      QuantitiesKept(orders, keys[i], |orders|);
      var t := fertig[i];
      forall r | 0 <= r < |t.menge| ensures 0 <= t.menge[r] { assert t.menge[r] in t.menge; }
    }
  }

  /** From a fresh merge, a run fails exactly if its first action taps a row of a table without a name. */
  lemma FreshRun(keys: seq<string>, orders: seq<Order>, fertig: seq<Table>, actions: seq<Action>)
    requires (forall o :: o in orders ==> Aligned(o)) && Distinct(keys)
    requires forall o, x :: o in orders && x in Flat(o.menge) ==> x >= 0
    requires |fertig| == |keys| && forall i :: 0 <= i < |keys| ==> fertig[i] == MergedTable(orders, keys[i], i)
    requires Possible(FreshView(fertig), actions)
    ensures Run(FreshView(fertig), actions).None? <==>
            actions != [] && actions[0].TapRow? && keys[actions[0].section] == ""
    ensures Run(FreshView(fertig), actions).Some? ==> Safe(Run(FreshView(fertig), actions).value)
  {
    FreshMergeSafe(keys, orders, fertig);
    RunSafe(FreshView(fertig), actions);
  }

  /** On a fresh screen a first tap fails exactly on a table with an empty name. */
  lemma FirstTapCrashes(v: View, section: nat, row: nat)
    requires v.bezahlen == [] && v.tischnummerBezahlen == "" && Enabled(v, TapRow(section, row))
    requires TableOk(v.fertig[section], section)
    ensures TapRowStep(v, section, row).None? <==> v.fertig[section].tischnummer == ""
  {
  }

  /** Such a screen: one table without a name, one coffee, one tap. */
  lemma NamelessTableCrashes()
    ensures var t := Table(map[], "", ["Drinks"], ["Hot"], ["Coffee"], [2.0], [1], [], map[0 := [0]]);
            var v, a := FreshView([t]), TapRow(0, 0);
            Safe(v) && Possible(v, [a]) && Run(v, [a]).None?
  {
    var t := Table(map[], "", ["Drinks"], ["Hot"], ["Coffee"], [2.0], [1], [], map[0 := [0]]);
    var v, a := FreshView([t]), TapRow(0, 0);
    assert TableOk(t, 0);
    assert Safe(v) && Crashes(v, a);
    StepSafe(v, a);
  }

  // ----- the view controller

  class PaymentScreen {
    var fertig: seq<Table>
    var bezahlen: seq<Table>
    var tischnummerBezahlen: string
    var trueSection: int

    ghost function Now(): View
      reads this
    {
      View(fertig, bezahlen, tischnummerBezahlen, trueSection)
    }

    constructor (fertig: seq<Table>)
      ensures Now() == FreshView(fertig)
    {
      this.fertig, bezahlen, tischnummerBezahlen, trueSection := fertig, [], "", 0;
    }

    /** cellForRowAt on the bill, for every row: the section search runs over all tables each time. */
    method RedrawBill()
      requires Redraw(Now()).Some?
      modifies this`trueSection
      ensures Now() == Redraw(old(Now())).value
    {
      if |bezahlen| > 0 {
        ghost var start := trueSection;
        for row := 0 to |bezahlen[0].items|
          invariant trueSection == if row == 0 then start else LastNamed(fertig, tischnummerBezahlen, start)
        {
          ghost var before := trueSection;
          for i := 0 to |fertig|
            invariant trueSection == LastNamed(fertig[..i], tischnummerBezahlen, before)
          {
            assert fertig[..i + 1][..i] == fertig[..i];
            if fertig[i].tischnummer == tischnummerBezahlen {
              trueSection := i;
            }
          }
          assert fertig[..|fertig|] == fertig;
          LastNamedTwice(fertig, tischnummerBezahlen, start);
          var paid := bezahlen[0].bezahltMenge[trueSection][row];
        }
      }
    }

    /** One more of a row, as long as fewer are selected than were ordered. */
    method Increment(section: nat, row: nat)
      requires |bezahlen| == 1 && HasCount(bezahlen[0], section, row) && row < |bezahlen[0].menge|
      modifies this`bezahlen
      ensures bezahlen == old(bezahlen)[0 := SetCount(old(bezahlen)[0], section, row, NextCount(old(bezahlen)[0], section, row))]
    {
      var bm := bezahlen[0].bezahltMenge[section];
      if bm[row] < bezahlen[0].menge[row] {
        bm := bm[row := bm[row] + 1];
      }
      assert bm == bm[row := bm[row]];
      bezahlen := bezahlen[0 := bezahlen[0].(bezahltMenge := bezahlen[0].bezahltMenge[section := bm])];
    }

    /** didSelectRowAt on the table list. */
    method SelectRow(section: nat, row: nat)
      requires Safe(Now()) && Enabled(Now(), TapRow(section, row)) && !Crashes(Now(), TapRow(section, row))
      modifies this
      ensures Apply(old(Now()), TapRow(section, row)) == Some(Now()) && Safe(Now())
    {
      ghost var v := Now();
      StepSafe(v, TapRow(section, row));
      if fertig[section].tischnummer != tischnummerBezahlen {
        bezahlen := [fertig[section]];
      }
      Increment(section, row);
      tischnummerBezahlen := bezahlen[0].tischnummer;
      assert Some(Now()) == TapRowStep(v, section, row);
      RedrawBill();
    }

    /** allesBezahlen. */
    method SelectAll(section: nat)
      requires Safe(Now()) && Enabled(Now(), PayAll(section))
      modifies this
      ensures Apply(old(Now()), PayAll(section)) == Some(Now()) && Safe(Now())
    {
      ghost var v := Now();
      StepSafe(v, PayAll(section));
      var t := fertig[section];
      fertig := fertig[section := t.(bezahltMenge := t.bezahltMenge[section := t.menge])];
      bezahlen := [fertig[section]];
      tischnummerBezahlen := fertig[section].tischnummer;
      RedrawBill();
    }

    /** didSelectRowAt on the bill. */
    method Unpay(row: nat)
      requires Safe(Now()) && Enabled(Now(), TapBill(row))
      modifies this
      ensures Apply(old(Now()), TapBill(row)) == Some(Now()) && Safe(Now())
    {
      ghost var v := Now();
      StepSafe(v, TapBill(row));
      var bm := bezahlen[0].bezahltMenge[trueSection];
      if bm[row] > 0 {
        bm := bm[row := bm[row] - 1];
      }
      assert bm == bm[row := bm[row]];
      bezahlen := bezahlen[0 := bezahlen[0].(bezahltMenge := bezahlen[0].bezahltMenge[trueSection := bm])];
      assert Now() == TapBillStep(v, row).value;
      RedrawBill();
    }
  }

  lemma {:induction false} LastNamedTwice(fertig: seq<Table>, name: string, start: int)
    ensures LastNamed(fertig, name, LastNamed(fertig, name, start)) == LastNamed(fertig, name, start)
    decreases |fertig|
  {
    if fertig != [] && fertig[|fertig| - 1].tischnummer != name {
      var front := fertig[..|fertig| - 1];
      LastNamedTwice(front, name, start);
    }
  }
}
