/** loadBestellungen: an order's snapshot tree becomes parallel nested lists, one item at a time. */
module OrderBuilder {
  import opened TableMerge

  // ----- the snapshot

  datatype Entry = Entry(name: string, preis: real, menge: int, kommentar: string, liter: string, id: string)
  datatype Sub = Sub(key: string, items: seq<Entry>)
  datatype Category = Category(key: string, subs: seq<Sub>)

  function ItemName(e: Entry): string { e.name }
  function ItemPreis(e: Entry): real { e.preis }
  function ItemMenge(e: Entry): int { e.menge }
  function ItemKommentar(e: Entry): string { e.kommentar }
  function ItemLiter(e: Entry): string { e.liter }
  function ItemId(e: Entry): string { e.id }

  function CatKeys(cats: seq<Category>): (r: seq<string>)
    ensures |r| == |cats|
  {
    seq(|cats|, k requires 0 <= k < |cats| => cats[k].key)
  }

  function SubKeys(subs: seq<Sub>): (r: seq<string>)
    ensures |r| == |subs|
  {
    seq(|subs|, u requires 0 <= u < |subs| => subs[u].key)
  }

  function AllSubKeys(cats: seq<Category>): (r: seq<seq<string>>)
    ensures |r| == |cats|
  {
    seq(|cats|, k requires 0 <= k < |cats| => SubKeys(cats[k].subs))
  }

  /** Keys are distinct on each level, and no node is without children (the database stores no empty nodes). */
  predicate Proper(cats: seq<Category>) {
    Distinct(CatKeys(cats)) && forall c :: c in cats ==> ProperCategory(c)
  }

  predicate ProperCategory(c: Category) {
    c.subs != [] && Distinct(SubKeys(c.subs)) && forall s :: s in c.subs ==> s.items != []
  }

  // ----- the columns a tree stands for

  function ItemColumn<T>(items: seq<Entry>, f: Entry -> T): (r: seq<T>)
    ensures |r| == |items|
  {
    seq(|items|, i requires 0 <= i < |items| => f(items[i]))
  }

  function SubColumn<T>(subs: seq<Sub>, f: Entry -> T): (r: seq<seq<T>>)
    ensures |r| == |subs|
  {
    seq(|subs|, u requires 0 <= u < |subs| => ItemColumn(subs[u].items, f))
  }

  /** The nested comprehension: the tree with every item replaced by one of its attributes. */
  function Column<T>(cats: seq<Category>, f: Entry -> T): (r: seq<seq<seq<T>>>)
    ensures |r| == |cats|
  {
    seq(|cats|, k requires 0 <= k < |cats| => SubColumn(cats[k].subs, f))
  }

  /** The column while list `part` of a category is being read, after lists `subs` and categories `done`. */
  function Partial<T>(done: seq<Category>, subs: seq<Sub>, part: seq<Entry>, f: Entry -> T): seq<seq<seq<T>>> {
    if part != [] then Column(done, f) + [SubColumn(subs, f) + [ItemColumn(part, f)]]
    else if subs != [] then Column(done, f) + [SubColumn(subs, f)]
    else Column(done, f)
  }

  // ----- where the next item goes

  datatype Place = First | NewGroup | NewList(k: nat) | Append(k: nat, u: nat)

  predicate ValidPlace<T>(c: seq<seq<seq<T>>>, p: Place) {
    match p
    case First | NewGroup => true
    case NewList(k) => k < |c|
    case Append(k, u) => k < |c| && u < |c[k]|
  }

  function PutCell<T>(c: seq<seq<seq<T>>>, p: Place, x: T): seq<seq<seq<T>>>
    requires ValidPlace(c, p)
  {
    match p
    case First => [[[x]]]
    case NewGroup => c + [[[x]]]
    case NewList(k) => c[k := c[k] + [[x]]]
    case Append(k, u) => c[k := c[k][u := c[k][u] + [x]]]
  }

  /** The place that keeps the column equal to the tree read so far. */
  function RightPlace(done: seq<Category>, subs: seq<Sub>, part: seq<Entry>): Place {
    if part != [] then Append(|done|, |subs|)
    else if subs != [] then NewList(|done|)
    else if done != [] then NewGroup
    else First
  }

  /** Putting the next item at the right place extends the column by exactly that item. */
  lemma PutExtends<T>(done: seq<Category>, subs: seq<Sub>, part: seq<Entry>, e: Entry, f: Entry -> T, c: seq<seq<seq<T>>>)
    requires RightPlace(done, subs, part) != First ==> c == Partial(done, subs, part, f)
    ensures ValidPlace(c, RightPlace(done, subs, part))
    ensures PutCell(c, RightPlace(done, subs, part), f(e)) == Partial(done, subs, part + [e], f)
  {
    var one := ItemColumn(part + [e], f);
    assert one == ItemColumn(part, f) + [f(e)];
    if part == [] { assert one == [f(e)]; }
    if part != [] {
      assert PutCell(c, Append(|done|, |subs|), f(e))[|done|] == SubColumn(subs, f) + [one];
    } else if subs != [] {
      assert PutCell(c, NewList(|done|), f(e))[|done|] == SubColumn(subs, f) + [one];
    } else {
      assert SubColumn(subs, f) + [one] == [[f(e)]];
    }
  }

  // ----- the key lists

  /** Subcategory names per category, while lists `subs` of a further category have been met. */
  function KeysSoFar(done: seq<Category>, subs: seq<Sub>): seq<seq<string>> {
    if subs == [] then AllSubKeys(done) else AllSubKeys(done) + [SubKeys(subs)]
  }

  /** The expanded flags: true for every subcategory. */
  function Trues(keys: seq<seq<string>>): (r: seq<seq<bool>>)
    ensures |r| == |keys| && forall k :: 0 <= k < |r| ==> r[k] == Repeat(true, |keys[k]|)
  {
    seq(|keys|, k requires 0 <= k < |keys| => Repeat(true, |keys[k]|))
  }

  lemma LastIndex<T>(xs: seq<T>, x: T)
    requires x !in xs
    ensures IndexOf(xs + [x], x) == |xs|
  {
    assert (xs + [x])[|xs|] == x;
    assert forall j :: 0 <= j < |xs| ==> (xs + [x])[j] == xs[j] && xs[j] != x;
  }

  /** The nine dictionaries, from order IDs to lists. */
  datatype Books = Books(
    kategorien: map<string, seq<string>>, unterkategorien: map<string, seq<seq<string>>>, expanded2: map<string, seq<seq<bool>>>,
    namen: map<string, seq<seq<seq<string>>>>, preise: map<string, seq<seq<seq<real>>>>, mengen: map<string, seq<seq<seq<int>>>>,
    kommentare: map<string, seq<seq<seq<string>>>>, liter: map<string, seq<seq<seq<string>>>>, ids: map<string,
    seq<seq<seq<string>>>>)

  /** Everything that belongs to other orders than `id`. */
  ghost function Without(b: Books, id: string): Books {
    Books(b.kategorien - {id}, b.unterkategorien - {id}, b.expanded2 - {id}, b.namen - {id}, b.preise - {id},
          b.mengen - {id}, b.kommentare - {id}, b.liter - {id}, b.ids - {id})
  }

  /** The order's lists are its tree: the nested comprehension over every attribute. */
  ghost predicate LoadedIn(b: Books, id: string, cats: seq<Category>) {
    if cats == [] then id !in b.kategorien && id !in b.unterkategorien && id !in b.namen
    else
      && id in b.kategorien && b.kategorien[id] == CatKeys(cats)
      && id in b.unterkategorien && b.unterkategorien[id] == AllSubKeys(cats)
      && id in b.expanded2 && b.expanded2[id] == Trues(AllSubKeys(cats))
      && id in b.namen && b.namen[id] == Column(cats, ItemName)
      && id in b.preise && b.preise[id] == Column(cats, ItemPreis)
      && id in b.mengen && b.mengen[id] == Column(cats, ItemMenge)
      && id in b.kommentare && b.kommentare[id] == Column(cats, ItemKommentar)
      && id in b.liter && b.liter[id] == Column(cats, ItemLiter)
      && id in b.ids && b.ids[id] == Column(cats, ItemId)
  }

  /** Category k has subcategory u, and that item i. */
  predicate InTree(cats: seq<Category>, k: nat, u: nat, i: nat) {
    k < |cats| && u < |cats[k].subs| && i < |cats[k].subs[u].items|
  }

  predicate InCube<T>(cube: seq<seq<seq<T>>>, k: nat, u: nat, i: nat) {
    k < |cube| && u < |cube[k]| && i < |cube[k][u]|
  }

  /** A column has an attribute of an item where the tree has the item, and nowhere else. */
  lemma ColumnAt<T>(cats: seq<Category>, f: Entry -> T, k: nat, u: nat, i: nat)
    ensures InCube(Column(cats, f), k, u, i) <==> InTree(cats, k, u, i)
    ensures InTree(cats, k, u, i) ==> Column(cats, f)[k][u][i] == f(cats[k].subs[u].items[i])
  {
    if k < |cats| {
      assert Column(cats, f)[k] == SubColumn(cats[k].subs, f);
      if u < |cats[k].subs| { assert Column(cats, f)[k][u] == ItemColumn(cats[k].subs[u].items, f); }
    }
  }

  /** What the lists of a loaded order hold, place by place. */
  lemma LoadedAtPlace(b: Books, id: string, cats: seq<Category>, k: nat, u: nat, i: nat)
    requires LoadedIn(b, id, cats) && InTree(cats, k, u, i)
    ensures id in b.kategorien && id in b.unterkategorien && id in b.expanded2 && id in b.namen && id in b.preise
    ensures id in b.mengen && id in b.kommentare && id in b.liter && id in b.ids
    ensures |b.kategorien[id]| == |cats| && b.kategorien[id][k] == cats[k].key
    ensures |b.unterkategorien[id]| == |cats| && |b.unterkategorien[id][k]| == |cats[k].subs|
    ensures b.unterkategorien[id][k][u] == cats[k].subs[u].key
    ensures |b.expanded2[id]| == |cats| && |b.expanded2[id][k]| == |cats[k].subs| && b.expanded2[id][k][u]
    ensures var e := cats[k].subs[u].items[i];
            && InCube(b.namen[id], k, u, i) && b.namen[id][k][u][i] == e.name
            && InCube(b.preise[id], k, u, i) && b.preise[id][k][u][i] == e.preis
            && InCube(b.mengen[id], k, u, i) && b.mengen[id][k][u][i] == e.menge
            && InCube(b.kommentare[id], k, u, i) && b.kommentare[id][k][u][i] == e.kommentar
            && InCube(b.liter[id], k, u, i) && b.liter[id][k][u][i] == e.liter
            && InCube(b.ids[id], k, u, i) && b.ids[id][k][u][i] == e.id
  {
    ColumnAt(cats, ItemName, k, u, i);
    ColumnAt(cats, ItemPreis, k, u, i);
    ColumnAt(cats, ItemMenge, k, u, i);
    ColumnAt(cats, ItemKommentar, k, u, i);
    ColumnAt(cats, ItemLiter, k, u, i);
    ColumnAt(cats, ItemId, k, u, i);
    assert AllSubKeys(cats)[k] == SubKeys(cats[k].subs);
  }

  /** Reading one order leaves every other one as it was loaded. */
  lemma LoadedKept(a: Books, b: Books, id: string, other: string, cats: seq<Category>)
    requires LoadedIn(a, other, cats) && Without(a, id) == Without(b, id) && other != id
    ensures LoadedIn(b, other, cats)
  {
    KeptAt(a.kategorien, b.kategorien, id, other);
    KeptAt(a.unterkategorien, b.unterkategorien, id, other);
    KeptAt(a.expanded2, b.expanded2, id, other);
    KeptAt(a.namen, b.namen, id, other);
    KeptAt(a.preise, b.preise, id, other);
    KeptAt(a.mengen, b.mengen, id, other);
    KeptAt(a.kommentare, b.kommentare, id, other);
    KeptAt(a.liter, b.liter, id, other);
    KeptAt(a.ids, b.ids, id, other);
  }

  /** The first n orders are loaded and the others are not there yet. */
  ghost predicate AllLoaded(b: Books, orders: seq<Received>, n: nat) {
    forall j :: 0 <= j < |orders| ==> LoadedAt(b, orders, n, j)
  }

  ghost predicate LoadedAt(b: Books, orders: seq<Received>, n: nat, j: nat)
    requires j < |orders|
  {
    LoadedIn(b, orders[j].id, if j < n then orders[j].cats else [])
  }

  lemma NextLoaded(a: Books, b: Books, orders: seq<Received>, n: nat)
    requires n < |orders| && DistinctIds(orders) && AllLoaded(a, orders, n)
    requires Without(a, orders[n].id) == Without(b, orders[n].id) && LoadedIn(b, orders[n].id, orders[n].cats)
    ensures AllLoaded(b, orders, n + 1)
  {
    var after := n + 1;
    forall j | 0 <= j < |orders| ensures LoadedAt(b, orders, after, j) {
      assert LoadedAt(a, orders, n, j);
      if j != n {
        assert orders[j].id != orders[n].id;
        LoadedKept(a, b, orders[n].id, orders[j].id, if j < n then orders[j].cats else []);
      }
    }
  }

  lemma UpdateKept<T>(m: map<string, T>, id: string, x: T)
    ensures m[id := x] - {id} == m - {id}
  {
  }

  /** The update of one dictionary: the order's column gets one more item. */
  function PutAt<T>(m: map<string, seq<seq<seq<T>>>>, id: string, p: Place, x: T): map<string, seq<seq<seq<T>>>>
    requires p.First? || (id in m && ValidPlace(m[id], p))
  {
    m[id := PutCell(if p.First? then [] else m[id], p, x)]
  }

  lemma PutExtendsDict<T>(m: map<string, seq<seq<seq<T>>>>, id: string, done: seq<Category>, subs: seq<Sub>, part: seq<Entry>,
                          e: Entry, f: Entry -> T)
    requires RightPlace(done, subs, part) != First ==> id in m && m[id] == Partial(done, subs, part, f)
    ensures var p := RightPlace(done, subs, part);
            && (p.First? || (id in m && ValidPlace(m[id], p)))
            && var next := PutAt(m, id, p, f(e));
            && id in next && next[id] == Partial(done, subs, part + [e], f) && next - {id} == m - {id}
  {
    var p := RightPlace(done, subs, part);
    PutExtends(done, subs, part, e, f, if p.First? then [] else m[id]);
    UpdateKept(m, id, PutCell(if p.First? then [] else m[id], p, f(e)));
  }

  lemma KeptAt<T>(a: map<string, T>, b: map<string, T>, id: string, k: string)
    requires a - {id} == b - {id} && k != id
    ensures (k in a <==> k in b) && (k in a ==> a[k] == b[k])
  {
    assert k in a <==> k in a - {id};
    assert k in b <==> k in b - {id};
    if k in a { assert a[k] == (a - {id})[k] == b[k]; }
  }

  // ----- the builder

  class Builder {
    var kategorien: map<string, seq<string>>
    var unterkategorien: map<string, seq<seq<string>>>
    var expanded2: map<string, seq<seq<bool>>>
    var namen: map<string, seq<seq<seq<string>>>>
    var preise: map<string, seq<seq<seq<real>>>>
    var mengen: map<string, seq<seq<seq<int>>>>
    var kommentare: map<string, seq<seq<seq<string>>>>
    var liter: map<string, seq<seq<seq<string>>>>
    var ids: map<string, seq<seq<seq<string>>>>

    constructor ()
    {
      kategorien, unterkategorien, expanded2, namen, preise := map[], map[], map[], map[], map[];
      mengen, kommentare, liter, ids := map[], map[], map[], map[];
    }

    ghost function Now(): Books
      reads this
    {
      Books(kategorien, unterkategorien, expanded2, namen, preise, mengen, kommentare, liter, ids)
    }

    /** reload: two of the dictionaries are not cleared. */
    method Reload()
      modifies this
      ensures kategorien == map[] && unterkategorien == map[] && expanded2 == map[]
      ensures namen == map[] && preise == map[] && mengen == map[] && ids == map[]
      ensures kommentare == old(kommentare) && liter == old(liter)
    {
      kategorien, unterkategorien, expanded2 := map[], map[], map[];
      namen, preise, mengen, ids := map[], map[], map[], map[];
    }

    /** Names, prices and quantities of the order are the given tree, as far as it has been read. */
    ghost predicate BillColumnsAre(id: string, done: seq<Category>, subs: seq<Sub>, part: seq<Entry>)
      reads this
    {
      && id in namen && id in preise && id in mengen
      && namen[id] == Partial(done, subs, part, ItemName)
      && preise[id] == Partial(done, subs, part, ItemPreis)
      && mengen[id] == Partial(done, subs, part, ItemMenge)
    }

    /** And so are comments, litres and IDs. */
    ghost predicate NoteColumnsAre(id: string, done: seq<Category>, subs: seq<Sub>, part: seq<Entry>)
      reads this
    {
      && id in kommentare && id in liter && id in ids
      && kommentare[id] == Partial(done, subs, part, ItemKommentar)
      && liter[id] == Partial(done, subs, part, ItemLiter)
      && ids[id] == Partial(done, subs, part, ItemId)
    }

    ghost predicate ColumnsAre(id: string, done: seq<Category>, subs: seq<Sub>, part: seq<Entry>)
      reads this
    {
      BillColumnsAre(id, done, subs, part) && NoteColumnsAre(id, done, subs, part)
    }

    /** Before the first item the order has no columns; stale comments and litres may be left from before a reload. */
    ghost predicate Ready(id: string, done: seq<Category>, subs: seq<Sub>, part: seq<Entry>)
      reads this
    {
      if done == [] && subs == [] && part == [] then id !in namen else ColumnsAre(id, done, subs, part)
    }

    /** The category list ends with the current one, and the subcategory lists with the current list. */
    ghost predicate KeysAre(id: string, done: seq<Category>, key: string, subs: seq<Sub>)
      reads this
    {
      && id in kategorien && kategorien[id] == CatKeys(done) + [key]
      && (if done == [] && subs == [] then id !in unterkategorien
          else id in unterkategorien && id in expanded2
               && unterkategorien[id] == KeysSoFar(done, subs) && expanded2[id] == Trues(KeysSoFar(done, subs)))
    }

    /** The same update in all six dictionaries. */
    method PutItem(id: string, p: Place, e: Entry, ghost done: seq<Category>, ghost subs: seq<Sub>, ghost part: seq<Entry>)
      requires Ready(id, done, subs, part) && p == RightPlace(done, subs, part)
      modifies this`namen, this`preise, this`mengen, this`kommentare, this`liter, this`ids
      ensures ColumnsAre(id, done, subs, part + [e])
      ensures Without(Now(), id) == old(Without(Now(), id))
    {
      PutBill(id, p, e, done, subs, part);
      PutNote(id, p, e, done, subs, part);
    }

    method PutBill(id: string, p: Place, e: Entry, ghost done: seq<Category>, ghost subs: seq<Sub>, ghost part: seq<Entry>)
      requires p == RightPlace(done, subs, part) && (p != First ==> BillColumnsAre(id, done, subs, part))
      modifies this`namen, this`preise, this`mengen
      ensures BillColumnsAre(id, done, subs, part + [e])
      ensures Without(Now(), id) == old(Without(Now(), id))
    {
      PutExtendsDict(namen, id, done, subs, part, e, ItemName);
      PutExtendsDict(preise, id, done, subs, part, e, ItemPreis);
      PutExtendsDict(mengen, id, done, subs, part, e, ItemMenge);
      namen := PutAt(namen, id, p, e.name);
      preise := PutAt(preise, id, p, e.preis);
      mengen := PutAt(mengen, id, p, e.menge);
    }

    method PutNote(id: string, p: Place, e: Entry, ghost done: seq<Category>, ghost subs: seq<Sub>, ghost part: seq<Entry>)
      requires p == RightPlace(done, subs, part) && (p != First ==> NoteColumnsAre(id, done, subs, part))
      modifies this`kommentare, this`liter, this`ids
      ensures NoteColumnsAre(id, done, subs, part + [e])
      ensures Without(Now(), id) == old(Without(Now(), id))
    {
      PutExtendsDict(kommentare, id, done, subs, part, e, ItemKommentar);
      PutExtendsDict(liter, id, done, subs, part, e, ItemLiter);
      PutExtendsDict(ids, id, done, subs, part, e, ItemId);
      kommentare := PutAt(kommentare, id, p, e.kommentar);
      liter := PutAt(liter, id, p, e.liter);
      ids := PutAt(ids, id, p, e.id);
    }

    /** The four copies of the item branch: where does this item go? */
    method ChoosePlace(id: string, key: string, sub: Sub, firstCategory: bool, firstList: bool,
                       ghost done: seq<Category>, ghost subs: seq<Sub>, ghost part: seq<Entry>)
      returns (p: Place)
      requires KeysAre(id, done, key, subs + [sub]) && Ready(id, done, subs, part)
      requires firstCategory == (done == []) && firstList == (subs == [])
      requires key !in CatKeys(done) && sub.key !in SubKeys(subs)
      ensures p == RightPlace(done, subs, part)
    {
      CurrentKeys(done, key, subs, sub);
      var k := IndexOf(kategorien[id], key);
      var newx := unterkategorien[id][k];
      if !firstCategory && firstList {
        if |namen[id]| < |kategorien[id]| {
          p := NewGroup;
        } else {
          p := Append(k, IndexOf(newx, sub.key));
        }
      } else if !firstList {
        var newItems := namen[id][k];
        if |newItems| < |newx| {
          p := NewList(k);
        } else {
          p := Append(k, IndexOf(newx, sub.key));
        }
      } else if id in namen {
        p := Append(k, IndexOf(unterkategorien[id], [sub.key]));
      } else {
        p := First;
      }
    }

    /** The items of one list. */
    method ReadItems(id: string, key: string, sub: Sub, firstCategory: bool, firstList: bool,
                     ghost done: seq<Category>, ghost subs: seq<Sub>)
      requires KeysAre(id, done, key, subs + [sub]) && Ready(id, done, subs, [])
      requires firstCategory == (done == []) && firstList == (subs == [])
      requires key !in CatKeys(done) && sub.key !in SubKeys(subs) && sub.items != []
      modifies this`namen, this`preise, this`mengen, this`kommentare, this`liter, this`ids
      ensures ColumnsAre(id, done, subs + [sub], [])
      ensures Without(Now(), id) == old(Without(Now(), id))
    {
      for i := 0 to |sub.items|
        invariant Ready(id, done, subs, sub.items[..i])
        invariant Without(Now(), id) == old(Without(Now(), id))
      {
        ReadItem(id, key, sub, i, firstCategory, firstList, done, subs);
      }
      assert sub.items[..|sub.items|] == sub.items;
      CloseAll(done, subs, sub);
    }

    method ReadItem(id: string, key: string, sub: Sub, i: nat, firstCategory: bool, firstList: bool,
                    ghost done: seq<Category>, ghost subs: seq<Sub>)
      requires i < |sub.items|
      requires KeysAre(id, done, key, subs + [sub]) && Ready(id, done, subs, sub.items[..i])
      requires firstCategory == (done == []) && firstList == (subs == [])
      requires key !in CatKeys(done) && sub.key !in SubKeys(subs)
      modifies this`namen, this`preise, this`mengen, this`kommentare, this`liter, this`ids
      ensures ColumnsAre(id, done, subs, sub.items[..i + 1])
      ensures Without(Now(), id) == old(Without(Now(), id))
    {
      ghost var part := sub.items[..i];
      assert part + [sub.items[i]] == sub.items[..i + 1];
      var p := ChoosePlace(id, key, sub, firstCategory, firstList, done, subs, part);
      PutItem(id, p, sub.items[i], done, subs, part);
    }

    /** Entering a subcategory: its name opens a new list of names or joins the current one. */
    method EnterList(id: string, key: string, sub: Sub, firstCategory: bool, ghost done: seq<Category>, ghost subs: seq<Sub>)
      returns (firstList: bool)
      requires KeysAre(id, done, key, subs) && firstCategory == (done == []) && key !in CatKeys(done)
      modifies this`unterkategorien, this`expanded2
      ensures KeysAre(id, done, key, subs + [sub]) && firstList == (subs == [])
      ensures Without(Now(), id) == old(Without(Now(), id))
    {
      LastIndex(CatKeys(done), key);
      NextKeys(done, subs, sub);
      var k := IndexOf(kategorien[id], key);
      if firstCategory && id !in unterkategorien {
        UpdateKept(unterkategorien, id, [[sub.key]]);
        unterkategorien := unterkategorien[id := [[sub.key]]];
        UpdateKept(expanded2, id, [[true]]);
        expanded2 := expanded2[id := [[true]]];
        return true;
      }
      var x, expanded := unterkategorien[id], expanded2[id];
      if !firstCategory && |x| < |kategorien[id]| {
        UpdateKept(unterkategorien, id, x + [[sub.key]]);
        unterkategorien := unterkategorien[id := x + [[sub.key]]];
        UpdateKept(expanded2, id, expanded + [[true]]);
        expanded2 := expanded2[id := expanded + [[true]]];
        return true;
      }
      UpdateKept(unterkategorien, id, x[k := x[k] + [sub.key]]);
      unterkategorien := unterkategorien[id := x[k := x[k] + [sub.key]]];
      UpdateKept(expanded2, id, expanded[k := expanded[k] + [true]]);
      expanded2 := expanded2[id := expanded[k := expanded[k] + [true]]];
      return false;
    }

    /** One subcategory: its name first, then its items. */
    method ReadList(id: string, key: string, sub: Sub, firstCategory: bool, ghost done: seq<Category>, ghost subs: seq<Sub>)
      requires KeysAre(id, done, key, subs) && Ready(id, done, subs, [])
      requires firstCategory == (done == [])
      requires key !in CatKeys(done) && sub.key !in SubKeys(subs) && sub.items != []
      modifies this
      ensures KeysAre(id, done, key, subs + [sub]) && ColumnsAre(id, done, subs + [sub], [])
      ensures Without(Now(), id) == old(Without(Now(), id))
    {
      var firstList := EnterList(id, key, sub, firstCategory, done, subs);
      ReadItems(id, key, sub, firstCategory, firstList, done, subs);
    }

    /** Between categories: everything read so far is in all lists. */
    ghost predicate Loaded(id: string, done: seq<Category>)
      reads this
    {
      if done == [] then id !in kategorien && id !in unterkategorien && id !in namen
      else
        && id in kategorien && kategorien[id] == CatKeys(done)
        && id in unterkategorien && unterkategorien[id] == AllSubKeys(done)
        && id in expanded2 && expanded2[id] == Trues(AllSubKeys(done))
        && ColumnsAre(id, done, [], [])
    }

    /** Entering a category: is it the order's first? */
    method EnterCategory(id: string, key: string, ghost done: seq<Category>) returns (firstCategory: bool)
      requires Loaded(id, done) && key !in CatKeys(done)
      modifies this`kategorien
      ensures KeysAre(id, done, key, []) && Ready(id, done, [], []) && Without(Now(), id) == old(Without(Now(), id))
      ensures firstCategory == (done == [])
    {
      firstCategory := id !in kategorien;
      var keys := if firstCategory then [key] else kategorien[id] + [key];
      assert keys == CatKeys(done) + [key];
      UpdateKept(kategorien, id, keys);
      kategorien := kategorien[id := keys];
    }

    /** One category: its name, then its subcategories. */
    method ReadCategory(id: string, cat: Category, ghost done: seq<Category>)
      requires Loaded(id, done) && ProperCategory(cat) && cat.key !in CatKeys(done)
      modifies this
      ensures Loaded(id, done + [cat])
      ensures Without(Now(), id) == old(Without(Now(), id))
    {
      var firstCategory := EnterCategory(id, cat.key, done);
      ReadLists(id, cat, firstCategory, done);
      CloseCategory(done, cat);
    }

    /** All subcategories of one category. */
    method ReadLists(id: string, cat: Category, firstCategory: bool, ghost done: seq<Category>)
      requires KeysAre(id, done, cat.key, []) && Ready(id, done, [], []) && firstCategory == (done == [])
      requires ProperCategory(cat) && cat.key !in CatKeys(done)
      modifies this
      ensures KeysAre(id, done, cat.key, cat.subs) && ColumnsAre(id, done, cat.subs, [])
      ensures Without(Now(), id) == old(Without(Now(), id))
    {
      for u := 0 to |cat.subs|
        invariant KeysAre(id, done, cat.key, cat.subs[..u]) && Ready(id, done, cat.subs[..u], [])
        invariant Without(Now(), id) == old(Without(Now(), id))
      {
        ReadNextList(id, cat, u, firstCategory, done);
      }
      assert cat.subs[..|cat.subs|] == cat.subs;
    }

    method ReadNextList(id: string, cat: Category, u: nat, firstCategory: bool, ghost done: seq<Category>)
      requires u < |cat.subs| && ProperCategory(cat) && cat.key !in CatKeys(done)
      requires KeysAre(id, done, cat.key, cat.subs[..u]) && Ready(id, done, cat.subs[..u], [])
      requires firstCategory == (done == [])
      modifies this
      ensures KeysAre(id, done, cat.key, cat.subs[..u + 1]) && ColumnsAre(id, done, cat.subs[..u + 1], [])
      ensures Without(Now(), id) == old(Without(Now(), id))
    {
      FreshSub(cat, u);
      ReadList(id, cat.key, cat.subs[u], firstCategory, done, cat.subs[..u]);
      assert cat.subs[..u] + [cat.subs[u]] == cat.subs[..u + 1];
    }

    /** loadBestellungen, for the category children of an order's snapshot. */
    method LoadOrder(id: string, cats: seq<Category>)
      requires Proper(cats) && Loaded(id, [])
      modifies this
      ensures Loaded(id, cats)
      ensures Without(Now(), id) == old(Without(Now(), id))
    {
      for n := 0 to |cats|
        invariant Loaded(id, cats[..n])
        invariant Without(Now(), id) == old(Without(Now(), id))
      {
        FreshCategory(cats, n);
        ReadCategory(id, cats[n], cats[..n]);
        assert cats[..n] + [cats[n]] == cats[..n + 1];
      }
      assert cats[..|cats|] == cats;
    }

    lemma LoadedIs(id: string, cats: seq<Category>)
      ensures Loaded(id, cats) <==> LoadedIn(Now(), id, cats)
    {
    }

    /**
     reload and the loadBestellungen calls it leads to, one per order: whatever the dictionaries held before,
     and although comments and litres are not cleared, afterwards every order's lists are its own tree.
     */
    method LoadAll(orders: seq<Received>)
      requires DistinctIds(orders) && forall o :: o in orders ==> Proper(o.cats)
      modifies this
      ensures forall o :: o in orders ==> LoadedIn(Now(), o.id, o.cats)
    {
      Reload();
      for n := 0 to |orders|
        invariant AllLoaded(Now(), orders, n)
      {
        var o := orders[n];
        ghost var before := Now();
        assert LoadedAt(before, orders, n, n);
        LoadedIs(o.id, []);
        LoadOrder(o.id, o.cats);
        LoadedIs(o.id, o.cats);
        NextLoaded(before, Now(), orders, n);
      }
      forall o | o in orders ensures LoadedIn(Now(), o.id, o.cats) {
        var j :| 0 <= j < |orders| && orders[j] == o;
        assert LoadedAt(Now(), orders, |orders|, j);
      }
    }
  }

  // ----- from snapshots to bills

  /** An order as it arrives: its ID, its table and its tree. */
  datatype Received = Received(id: string, tisch: string, cats: seq<Category>)

  function IdsOf(orders: seq<Received>): (r: seq<string>)
    ensures |r| == |orders|
  {
    seq(|orders|, i requires 0 <= i < |orders| => orders[i].id)
  }

  predicate DistinctIds(orders: seq<Received>) {
    forall i, j {:trigger orders[i].id, orders[j].id} :: 0 <= i < j < |orders| ==> orders[i].id != orders[j].id
  }

  /** The order handed to the merge: names and columns of one tree. */
  function BuiltOrder(id: string, tisch: string, cats: seq<Category>): Order {
    Order(id, tisch, CatKeys(cats), AllSubKeys(cats),
          Column(cats, ItemName), Column(cats, ItemPreis),
          Column(cats, ItemMenge), Column(cats, ItemId), Column(cats, ItemKommentar), Column(cats, ItemLiter),
          Trues(AllSubKeys(cats)))
  }

  /** The order handed to the merge, place by place. */
  lemma BuiltAtPlace(id: string, tisch: string, cats: seq<Category>, k: nat, u: nat, i: nat)
    requires InTree(cats, k, u, i)
    ensures var o, e := BuiltOrder(id, tisch, cats), cats[k].subs[u].items[i];
            && o.bestellungID == id && o.tischnummer == tisch
            && |o.kategorie| == |cats| && o.kategorie[k] == cats[k].key
            && |o.unterkategorie| == |cats| && |o.unterkategorie[k]| == |cats[k].subs|
            && o.unterkategorie[k][u] == cats[k].subs[u].key
            && InCube(o.items, k, u, i) && o.items[k][u][i] == e.name
            && InCube(o.preis, k, u, i) && o.preis[k][u][i] == e.preis
            && InCube(o.menge, k, u, i) && o.menge[k][u][i] == e.menge
            && InCube(o.itemsID, k, u, i) && o.itemsID[k][u][i] == e.id
            && InCube(o.kommentar, k, u, i) && o.kommentar[k][u][i] == e.kommentar
            && InCube(o.liter, k, u, i) && o.liter[k][u][i] == e.liter
  {
    ColumnAt(cats, ItemName, k, u, i);
    ColumnAt(cats, ItemPreis, k, u, i);
    ColumnAt(cats, ItemMenge, k, u, i);
    ColumnAt(cats, ItemKommentar, k, u, i);
    ColumnAt(cats, ItemLiter, k, u, i);
    ColumnAt(cats, ItemId, k, u, i);
    assert AllSubKeys(cats)[k] == SubKeys(cats[k].subs);
  }

  lemma SameColumns<S, T>(cats: seq<Category>, f: Entry -> S, g: Entry -> T)
    ensures SameShape(Column(cats, f), Column(cats, g))
  {
    forall k | 0 <= k < |cats| ensures SameRows(Column(cats, f)[k], Column(cats, g)[k]) {
      assert Column(cats, f)[k] == SubColumn(cats[k].subs, f) && Column(cats, g)[k] == SubColumn(cats[k].subs, g);
      forall u | 0 <= u < |cats[k].subs| ensures |SubColumn(cats[k].subs, f)[u]| == |SubColumn(cats[k].subs, g)[u]| {
      }
    }
  }

  /** All columns of a built order have one shape, so the table merge accepts it. */
  lemma BuiltOrderIsAligned(id: string, tisch: string, cats: seq<Category>)
    ensures Aligned(BuiltOrder(id, tisch, cats))
  {
    SameColumns(cats, ItemName, ItemPreis);
    SameColumns(cats, ItemName, ItemMenge);
    SameColumns(cats, ItemName, ItemId);
    var o := BuiltOrder(id, tisch, cats);
    forall k | 0 <= k < |o.items| ensures |o.unterkategorie[k]| == |o.items[k]| {
      assert o.items[k] == SubColumn(cats[k].subs, ItemName);
    }
  }

  /** The orders handed to the merge. */
  function Built(orders: seq<Received>): (r: seq<Order>)
    ensures |r| == |orders| && forall o :: o in r ==> Aligned(o)
  {
    var r := seq(|orders|, i requires 0 <= i < |orders| => BuiltOrder(orders[i].id, orders[i].tisch, orders[i].cats));
    assert forall o :: o in r ==> Aligned(o) by {
      forall i | 0 <= i < |r| ensures Aligned(r[i]) {
        BuiltOrderIsAligned(orders[i].id, orders[i].tisch, orders[i].cats);
      }
    }
    r
  }

  lemma FreshSub(cat: Category, u: nat)
    requires ProperCategory(cat) && u < |cat.subs|
    ensures cat.subs[u].key !in SubKeys(cat.subs[..u]) && cat.subs[u].items != []
  {
    assert forall j :: 0 <= j < u ==> SubKeys(cat.subs[..u])[j] == SubKeys(cat.subs)[j];
    assert SubKeys(cat.subs)[u] == cat.subs[u].key;
    assert cat.subs[u] in cat.subs;
  }

  lemma FreshCategory(cats: seq<Category>, n: nat)
    requires Proper(cats) && n < |cats|
    ensures cats[n].key !in CatKeys(cats[..n]) && ProperCategory(cats[n])
  {
    assert forall j :: 0 <= j < n ==> CatKeys(cats[..n])[j] == CatKeys(cats)[j];
    assert CatKeys(cats)[n] == cats[n].key;
    assert cats[n] in cats;
  }

  lemma CloseColumn<T>(done: seq<Category>, cat: Category, f: Entry -> T)
    requires cat.subs != []
    ensures Partial(done, cat.subs, [], f) == Partial(done + [cat], [], [], f)
  {
    assert Column(done + [cat], f) == Column(done, f) + [SubColumn(cat.subs, f)];
  }

  lemma CloseCategory(done: seq<Category>, cat: Category)
    requires cat.subs != []
    ensures CatKeys(done + [cat]) == CatKeys(done) + [cat.key]
    ensures KeysSoFar(done, cat.subs) == AllSubKeys(done + [cat])
    ensures Partial(done, cat.subs, [], ItemName) == Partial(done + [cat], [], [], ItemName)
    ensures Partial(done, cat.subs, [], ItemPreis) == Partial(done + [cat], [], [], ItemPreis)
    ensures Partial(done, cat.subs, [], ItemMenge) == Partial(done + [cat], [], [], ItemMenge)
    ensures Partial(done, cat.subs, [], ItemKommentar) == Partial(done + [cat], [], [], ItemKommentar)
    ensures Partial(done, cat.subs, [], ItemLiter) == Partial(done + [cat], [], [], ItemLiter)
    ensures Partial(done, cat.subs, [], ItemId) == Partial(done + [cat], [], [], ItemId)
  {
    assert AllSubKeys(done + [cat]) == AllSubKeys(done) + [SubKeys(cat.subs)];
    CloseColumn(done, cat, ItemName);
    CloseColumn(done, cat, ItemPreis);
    CloseColumn(done, cat, ItemMenge);
    CloseColumn(done, cat, ItemKommentar);
    CloseColumn(done, cat, ItemLiter);
    CloseColumn(done, cat, ItemId);
  }

  lemma CurrentKeys(done: seq<Category>, key: string, subs: seq<Sub>, sub: Sub)
    requires key !in CatKeys(done) && sub.key !in SubKeys(subs)
    ensures IndexOf(CatKeys(done) + [key], key) == |done|
    ensures |KeysSoFar(done, subs + [sub])| == |done| + 1
    ensures KeysSoFar(done, subs + [sub])[|done|] == SubKeys(subs) + [sub.key]
    ensures IndexOf(SubKeys(subs) + [sub.key], sub.key) == |subs|
    ensures done == [] && subs == [] ==> KeysSoFar(done, subs + [sub]) == [[sub.key]]
  {
    LastIndex(CatKeys(done), key);
    LastIndex(SubKeys(subs), sub.key);
    assert SubKeys(subs + [sub]) == SubKeys(subs) + [sub.key];
    if done == [] && subs == [] {
      assert KeysSoFar(done, subs + [sub]) == [SubKeys(subs) + [sub.key]];
      assert SubKeys(subs) + [sub.key] == [sub.key];
    }
  }

  /** Appending a name to the current list, or opening a list with it. */
  lemma NextKeys(done: seq<Category>, subs: seq<Sub>, sub: Sub)
    ensures var now, next := KeysSoFar(done, subs), KeysSoFar(done, subs + [sub]);
            if subs == [] then next == now + [[sub.key]] && Trues(next) == Trues(now) + [[true]]
            else
              && |now| == |done| + 1
              && next == now[|done| := now[|done|] + [sub.key]]
              && Trues(next) == Trues(now)[|done| := Trues(now)[|done|] + [true]]
  {
    assert SubKeys(subs + [sub]) == SubKeys(subs) + [sub.key];
    var n := |SubKeys(subs)|;
    assert Repeat(true, n + 1) == Repeat(true, n) + [true];
    if subs == [] {
      assert SubKeys(subs + [sub]) == [sub.key] && Repeat(true, 1) == [true];
    }
  }

  lemma CloseList<T>(done: seq<Category>, subs: seq<Sub>, sub: Sub, f: Entry -> T)
    requires sub.items != []
    ensures Partial(done, subs, sub.items, f) == Partial(done, subs + [sub], [], f)
  {
    assert SubColumn(subs + [sub], f) == SubColumn(subs, f) + [ItemColumn(sub.items, f)];
  }

  lemma CloseAll(done: seq<Category>, subs: seq<Sub>, sub: Sub)
    requires sub.items != []
    ensures Partial(done, subs, sub.items, ItemName) == Partial(done, subs + [sub], [], ItemName)
    ensures Partial(done, subs, sub.items, ItemPreis) == Partial(done, subs + [sub], [], ItemPreis)
    ensures Partial(done, subs, sub.items, ItemMenge) == Partial(done, subs + [sub], [], ItemMenge)
    ensures Partial(done, subs, sub.items, ItemKommentar) == Partial(done, subs + [sub], [], ItemKommentar)
    ensures Partial(done, subs, sub.items, ItemLiter) == Partial(done, subs + [sub], [], ItemLiter)
    ensures Partial(done, subs, sub.items, ItemId) == Partial(done, subs + [sub], [], ItemId)
  {
    CloseList(done, subs, sub, ItemName);
    CloseList(done, subs, sub, ItemPreis);
    CloseList(done, subs, sub, ItemMenge);
    CloseList(done, subs, sub, ItemKommentar);
    CloseList(done, subs, sub, ItemLiter);
    CloseList(done, subs, sub, ItemId);
  }
}
