/** The generic repository adapter over one mapped entity type, as a pure
    model over the rows its session can see.

    A row is an instance of a mapped class: the class name and a map from
    column name to value; a field absent from the map reads as NULL. The
    session's visible rows, of every class, are a sequence in storage
    order. Every operation takes the mapper of the repository's class: the
    class name, its primary key column and its column attributes in
    declaration order; queries and `get` only ever return rows of that
    class. */
module Repository {
  import opened Wrappers
  import opened QueryParams
  import opened ValueOrder

  type Field = string

  /** An instance of the mapped class `model`. */
  datatype Entity = Entity(model: string, fields: map<Field, Val>)

  /** Column metadata of the mapped class `model`. */
  datatype Mapper = Mapper(model: string, pk: Field, columns: seq<Field>)

  /** The rows the session sees: persisted ones plus pending ones. */
  type Store = seq<Entity>

  /** Keyword-argument equality criteria (`**kwargs`). */
  type Criteria = map<Field, Val>

  datatype RepoError =
      /** `filter_by` named an attribute the mapped class does not have. */
    | UnknownCriterion
      /** `one_or_none` saw more than one row. */
    | MultipleResultsFound
      /** The mapper has no column attribute, so the sort column is unbound. */
    | NoColumnAttribute
      /** The sort field is not a column (corrected `all` only). */
    | InvalidSortField
      /** `delete` of an instance that is not persistent: never added, or
          added but not yet flushed. */
    | NotPersisted

  function Read(e: Entity, f: Field): Val
  {
    if f in e.fields then e.fields[f] else VNull
  }

  predicate Matches(e: Entity, c: Criteria)
  {
    forall k :: k in c ==> Read(e, k) == c[k]
  }

  /** `select(model).filter_by(**c)` returns the row `e`. */
  predicate Selects(m: Mapper, e: Entity, c: Criteria)
  {
    e.model == m.model && Matches(e, c)
  }

  /** `e` is the instance of the mapped class with primary key `pk`. */
  predicate HasKey(m: Mapper, e: Entity, pk: Val)
  {
    e.model == m.model && Read(e, m.pk) == pk
  }

  // ---------------------------------------------------------------- get

  /** `get(pk)`: the row of the mapped class whose primary key is `pk`, or
      `None`. */
  function Get(m: Mapper, store: Store, pk: Val): (r: Option<Entity>)
    ensures r.Some? ==> r.value in store && HasKey(m, r.value, pk)
    ensures r.None? <==> forall e :: e in store ==> !HasKey(m, e, pk)
  {
    if |store| == 0 then None
    else if HasKey(m, store[0], pk) then Some(store[0])
    else
      assert forall e :: e in store ==> e == store[0] || e in store[1..];
      Get(m, store[1..], pk)
  }

  // ------------------------------------------------------ filtering

  /** `_gen_stmt_for_param(**kwargs)`: a `select` filtered by equality on
      every criterion, refused when a criterion names no column. */
  function Statement(m: Mapper, c: Criteria): (r: Result<Criteria, RepoError>)
    ensures r.Ok? <==> forall k :: k in c ==> k in m.columns
    ensures r.Ok? ==> r.value == c
  {
    if forall k :: k in c ==> k in m.columns then Ok(c) else Err(UnknownCriterion)
  }

  /** The rows a filtered statement on the mapped class returns, in storage
      order. */
  function Filter(m: Mapper, store: Store, c: Criteria): (r: seq<Entity>)
    ensures forall x :: multiset(r)[x] == if Selects(m, x, c) then multiset(store)[x] else 0
    ensures forall i :: 0 <= i < |r| ==> Selects(m, r[i], c)
  {
    if |store| == 0 then []
    else
      var rest := Filter(m, store[1..], c);
      assert store == [store[0]] + store[1..];
      if Selects(m, store[0], c) then [store[0]] + rest else rest
  }

  lemma FilterMembership(m: Mapper, store: Store, c: Criteria, x: Entity)
    ensures x in Filter(m, store, c) <==> x in store && Selects(m, x, c)
  {
    assert x in Filter(m, store, c) <==> multiset(Filter(m, store, c))[x] > 0;
    assert x in store <==> multiset(store)[x] > 0;
  }

  /** With no criteria the filter keeps every row of the mapped class. */
  lemma {:induction false} FilterNoCriteria(m: Mapper, store: Store)
    requires forall e :: e in store ==> e.model == m.model
    ensures Filter(m, store, map[]) == store
  {
    if |store| > 0 {
      assert store == [store[0]] + store[1..];
      FilterNoCriteria(m, store[1..]);
    }
  }

  // ---------------------------------------------------------------- one

  /** `one(**kwargs)`: `None` for no match, the row for exactly one match,
      `MultipleResultsFound` for more. */
  function One(m: Mapper, store: Store, c: Criteria): (r: Result<Option<Entity>, RepoError>)
    ensures r.Err? ==> r.error == UnknownCriterion || r.error == MultipleResultsFound
    ensures r == Err(UnknownCriterion) <==> exists k :: k in c && k !in m.columns
    ensures r == Ok(None) ==> forall e :: e in store ==> !Selects(m, e, c)
    ensures r.Ok? && r.value.Some? ==>
      r.value.value in store && Selects(m, r.value.value, c) && |Filter(m, store, c)| == 1
    ensures r == Err(MultipleResultsFound) <==>
      Statement(m, c).Ok? && |Filter(m, store, c)| >= 2
  {
    match Statement(m, c)
    case Err(e) => Err(e)
    case Ok(crit) =>
      var rows := Filter(m, store, crit);
      if |rows| == 0 then
        forall e | e in store ensures !Selects(m, e, c) {
          FilterMembership(m, store, c, e);
        }
        Ok(None)
      else if |rows| == 1 then
        FilterMembership(m, store, c, rows[0]);
        Ok(Some(rows[0]))
      else Err(MultipleResultsFound)
  }

  // ------------------------------------------------------------ sorting

  /** `a` may come before `b` in a listing ordered by `order`. */
  predicate InOrder(order: SortingOrder, a: Val, b: Val)
  {
    match order
    case Asc => Le(a, b)
    case Desc => Le(b, a)
  }

  predicate SortedBy(rows: seq<Entity>, col: Field, order: SortingOrder)
  {
    forall i, j :: 0 <= i < j < |rows| ==> InOrder(order, Read(rows[i], col), Read(rows[j], col))
  }

  /** Inserts `x` before the first row it may precede. */
  function Insert(x: Entity, rows: seq<Entity>, col: Field, order: SortingOrder): (r: seq<Entity>)
    ensures multiset(r) == multiset(rows) + multiset{x}
  {
    if |rows| == 0 then [x]
    else if InOrder(order, Read(x, col), Read(rows[0], col)) then [x] + rows
    else
      assert rows == [rows[0]] + rows[1..];
      [rows[0]] + Insert(x, rows[1..], col, order)
  }

  lemma {:induction false} InsertKeepsSorted(x: Entity, rows: seq<Entity>, col: Field, order: SortingOrder)
    requires SortedBy(rows, col, order)
    ensures SortedBy(Insert(x, rows, col, order), col, order)
  {
    if |rows| == 0 {
    } else if InOrder(order, Read(x, col), Read(rows[0], col)) {
      var r := [x] + rows;
      forall j | 1 <= j < |r|
        ensures InOrder(order, Read(x, col), Read(r[j], col))
      {
        if j > 1 {
          OrderTransitive(order, Read(x, col), Read(rows[0], col), Read(rows[j - 1], col));
        }
      }
    } else {
      var rest := Insert(x, rows[1..], col, order);
      InsertKeepsSorted(x, rows[1..], col, order);
      var r := [rows[0]] + rest;
      assert rows == [rows[0]] + rows[1..];
      OrderTotal(order, Read(x, col), Read(rows[0], col));
      forall j | 1 <= j < |r|
        ensures InOrder(order, Read(rows[0], col), Read(r[j], col))
      {
        var y := r[j];
        assert y in multiset(rest);
        if y != x {
          assert y in multiset(rows[1..]);
          var k :| 0 <= k < |rows[1..]| && rows[1..][k] == y;
          assert rows[k + 1] == y;
        }
      }
    }
  }

  /** Insertion sort by one column; rows equal on that column keep their
      storage order. */
  function SortRows(rows: seq<Entity>, col: Field, order: SortingOrder): (r: seq<Entity>)
    ensures multiset(r) == multiset(rows)
    ensures SortedBy(r, col, order)
  {
    if |rows| == 0 then []
    else
      assert rows == [rows[0]] + rows[1..];
      var sorted := SortRows(rows[1..], col, order);
      InsertKeepsSorted(rows[0], sorted, col, order);
      Insert(rows[0], sorted, col, order)
  }

  lemma OrderTotal(order: SortingOrder, a: Val, b: Val)
    ensures InOrder(order, a, b) || InOrder(order, b, a)
  {
    LeTotal(a, b);
  }

  lemma OrderTransitive(order: SortingOrder, a: Val, b: Val, c: Val)
    requires InOrder(order, a, b) && InOrder(order, b, c)
    ensures InOrder(order, a, c)
  {
    if order == Asc {
      LeTransitive(a, b, c);
    } else {
      LeTransitive(c, b, a);
    }
  }

  // ---------------------------------------------------------- pagination

  /** `LIMIT limit OFFSET offset`. */
  function Window(rows: seq<Entity>, p: Pagination): (r: seq<Entity>)
    ensures |r| <= p.limit
    ensures p.offset >= |rows| ==> r == []
    ensures forall i :: 0 <= i < |r| ==> p.offset + i < |rows| && r[i] == rows[p.offset + i]
    ensures |r| == if p.offset >= |rows| then 0 else Min(p.limit, |rows| - p.offset)
  {
    var lo := Min(p.offset, |rows|);
    var hi := Min(p.offset + p.limit, |rows|);
    rows[lo..hi]
  }

  function Min(a: nat, b: nat): nat
  {
    if a <= b then a else b
  }

  // ---------------------------------------------------------------- all

  /** The column `all` orders by: the loop over the mapper's column
      attributes leaves the LAST one bound. */
  function SortColumn(m: Mapper): (r: Option<Field>)
    ensures r.Some? <==> |m.columns| > 0
    ensures r.Some? ==> r.value in m.columns
  {
    if |m.columns| == 0 then None else Some(m.columns[|m.columns| - 1])
  }

  /** `all(pagination, sorting, **kwargs)` as written: filter, then order by
      the last column attribute (the requested `sorting_field` is not
      consulted), then apply limit and offset. */
  function All(m: Mapper, store: Store, pagination: Option<Pagination>,
               sorting: Option<Sorting>, c: Criteria): (r: Result<seq<Entity>, RepoError>)
    ensures r == Err(UnknownCriterion) <==> exists k :: k in c && k !in m.columns
    ensures r == Err(NoColumnAttribute) <==>
      Statement(m, c).Ok? && sorting.Some? && |m.columns| == 0
    ensures r.Err? ==> r.error == UnknownCriterion || r.error == NoColumnAttribute
    ensures r.Ok? ==> forall i :: 0 <= i < |r.value| ==> r.value[i] in store && Selects(m, r.value[i], c)
    ensures r.Ok? && pagination.Some? ==> |r.value| <= pagination.value.limit
    ensures r.Ok? && pagination.None? ==> multiset(r.value) == multiset(Filter(m, store, c))
    ensures r.Ok? && sorting.Some? ==>
      SortedBy(r.value, m.columns[|m.columns| - 1], sorting.value.sortingOrder)
  {
    match Statement(m, c)
    case Err(e) => Err(e)
    case Ok(crit) =>
      var rows := Filter(m, store, crit);
      var ordered :- SortStep(m, rows, sorting);
      var r := if pagination.Some? then Window(ordered, pagination.value) else ordered;
      forall i | 0 <= i < |r| ensures r[i] in store && Selects(m, r[i], c) {
        assert r[i] in multiset(rows);
        FilterMembership(m, store, c, r[i]);
      }
      Ok(r)
  }

  /** The `order_by` step of `all`. */
  function SortStep(m: Mapper, rows: seq<Entity>, sorting: Option<Sorting>): (r: Result<seq<Entity>, RepoError>)
    ensures r.Err? <==> sorting.Some? && |m.columns| == 0
    ensures r.Err? ==> r.error == NoColumnAttribute
    ensures r.Ok? ==> multiset(r.value) == multiset(rows)
    ensures r.Ok? && sorting.Some? ==>
      SortedBy(r.value, m.columns[|m.columns| - 1], sorting.value.sortingOrder)
  {
    if sorting.None? then Ok(rows)
    else match SortColumn(m)
      case None => Err(NoColumnAttribute)
      case Some(col) => Ok(SortRows(rows, col, sorting.value.sortingOrder))
  }

  /** With no criteria, sorting or pagination, `all` returns every row of
      the mapped class, in storage order. */
  lemma AllWithoutArguments(m: Mapper, store: Store)
    requires forall e :: e in store ==> e.model == m.model
    ensures All(m, store, None, None, map[]) == Ok(store)
  {
    FilterNoCriteria(m, store);
  }

  /** Pagination is applied last: the page is the window of the filtered,
      ordered listing. */
  lemma AllPaginates(m: Mapper, store: Store, p: Pagination, sorting: Option<Sorting>, c: Criteria)
    ensures All(m, store, Some(p), sorting, c).Ok? <==> All(m, store, None, sorting, c).Ok?
    ensures All(m, store, Some(p), sorting, c).Ok? ==>
      All(m, store, Some(p), sorting, c).value == Window(All(m, store, None, sorting, c).value, p)
  {
  }

  /** The requested sort field never influences `all`. */
  lemma AllIgnoresSortingField(m: Mapper, store: Store, p: Option<Pagination>,
                               order: SortingOrder, f1: string, f2: string, c: Criteria)
    ensures All(m, store, p, Some(Sorting(f1, order)), c) == All(m, store, p, Some(Sorting(f2, order)), c)
  {
  }

  // ------------------------------------------------------------- exists

  /** `exists(**kwargs)`: whether some row matches the criteria. */
  function Exists(m: Mapper, store: Store, c: Criteria): (r: Result<bool, RepoError>)
    ensures r.Err? <==> exists k :: k in c && k !in m.columns
    ensures r.Err? ==> r.error == UnknownCriterion
    ensures r.Ok? ==> (r.value <==> exists e :: e in store && Selects(m, e, c))
  {
    match Statement(m, c)
    case Err(e) => Err(e)
    case Ok(crit) =>
      var rows := Filter(m, store, crit);
      if |rows| > 0 then
        FilterMembership(m, store, c, rows[0]);
        Ok(true)
      else
        forall e | e in store ensures !Selects(m, e, c) {
          FilterMembership(m, store, c, e);
        }
        Ok(false)
  }

  /** `exists` answers true exactly when `all` and `one` with the same
      criteria find a row. */
  lemma ExistsAgreesWithQueries(m: Mapper, store: Store, c: Criteria)
    ensures Exists(m, store, c).Ok? <==> All(m, store, None, None, c).Ok?
    ensures Exists(m, store, c) == Ok(true) <==> All(m, store, None, None, c).Ok? && |All(m, store, None, None, c).value| > 0
    ensures Exists(m, store, c) == Ok(false) <==> One(m, store, c) == Ok(None)
  {
    if Exists(m, store, c) == Ok(true) {
      var e :| e in store && Selects(m, e, c);
      FilterMembership(m, store, c, e);
    }
  }

  // ------------------------------------------------------------ staging

  /** `create(entity)`: `session.add` stages an instance the session does
      not hold yet and ignores one it already holds, so a row is never
      staged twice; nothing already there changes. */
  function Create(store: Store, e: Entity): (r: Store)
    ensures multiset(r) == multiset(store) + (if e in store then multiset{} else multiset{e})
    ensures |r| >= |store| && r[..|store|] == store
    ensures e in r
  {
    if e in store then store else store + [e]
  }

  /** Adding an instance a second time changes nothing. */
  lemma CreateIdempotent(store: Store, e: Entity)
    ensures Create(Create(store, e), e) == Create(store, e)
  {
  }

  /** The instances of `es` that `add_all` stages on top of `store`: those
      the session does not hold, each once, in the order they first occur. */
  function Unheld(store: Store, es: seq<Entity>): (r: seq<Entity>)
    ensures forall x :: x in r <==> x !in store && x in es
    ensures forall i, j :: 0 <= i < j < |r| ==> r[i] != r[j]
    decreases |es|
  {
    if |es| == 0 then []
    else
      var init := es[..|es| - 1];
      var x := es[|es| - 1];
      assert es == init + [x];
      if x in store || x in init then Unheld(store, init) else Unheld(store, init) + [x]
  }

  /** `create_all(entities)`: stages every entity the session does not hold
      yet, once each, after the rows already there. */
  function CreateAll(store: Store, es: seq<Entity>): (r: Store)
    ensures |r| >= |store| && r[..|store|] == store
    ensures forall x :: x in r <==> x in store || x in es
    ensures forall x :: x in store ==> x !in r[|store|..]
    ensures forall i, j :: |store| <= i < j < |r| ==> r[i] != r[j]
  {
    var r := store + Unheld(store, es);
    assert r[|store|..] == Unheld(store, es);
    r
  }

  /** `add_all` is `add` repeated: creating the entities one after the other. */
  function CreateEach(store: Store, es: seq<Entity>): Store
    decreases |es|
  {
    if |es| == 0 then store else CreateEach(Create(store, es[0]), es[1..])
  }

  lemma {:induction false} CreateEachSnoc(store: Store, es: seq<Entity>, x: Entity)
    ensures CreateEach(store, es + [x]) == Create(CreateEach(store, es), x)
    decreases |es|
  {
    if |es| == 0 {
      assert es + [x] == [x];
      assert ([x])[1..] == [];
    } else {
      assert (es + [x])[0] == es[0];
      assert (es + [x])[1..] == es[1..] + [x];
      CreateEachSnoc(Create(store, es[0]), es[1..], x);
    }
  }

  lemma {:induction false} CreateAllIsRepeatedCreate(store: Store, es: seq<Entity>)
    ensures CreateAll(store, es) == CreateEach(store, es)
  {
    UnheldIsRepeatedCreate(store, es);
  }

  /** One more entity for `add_all` does what one more `add` does. */
  lemma UnheldSnoc(store: Store, init: seq<Entity>, x: Entity)
    ensures store + Unheld(store, init + [x]) == Create(store + Unheld(store, init), x)
  {
    var es := init + [x];
    assert es[..|es| - 1] == init && es[|es| - 1] == x;
    var before := store + Unheld(store, init);
    assert x in before <==> x in store || x in init;
    if !(x in store || x in init) {
      assert store + Unheld(store, es) == before + [x];
    }
  }

  lemma {:induction false} UnheldIsRepeatedCreate(store: Store, es: seq<Entity>)
    ensures store + Unheld(store, es) == CreateEach(store, es)
    decreases |es|
  {
    if |es| > 0 {
      var init := es[..|es| - 1];
      var x := es[|es| - 1];
      assert es == init + [x];
      calc {
        CreateEach(store, es);
      == { CreateEachSnoc(store, init, x); }
        Create(CreateEach(store, init), x);
      == { UnheldIsRepeatedCreate(store, init); }
        Create(store + Unheld(store, init), x);
      == { UnheldSnoc(store, init, x); }
        store + Unheld(store, es);
      }
    }
  }

  /** A created instance of the mapped class whose key is new is what `get`
      returns for that key. */
  lemma {:induction false} CreateThenGet(m: Mapper, store: Store, e: Entity)
    requires e.model == m.model
    requires forall x :: x in store ==> !HasKey(m, x, Read(e, m.pk))
    ensures Get(m, Create(store, e), Read(e, m.pk)) == Some(e)
  {
    assert e !in store by {
      assert HasKey(m, e, Read(e, m.pk));
    }
    if |store| > 0 {
      CreateThenGet(m, store[1..], e);
      assert Create(store, e)[1..] == Create(store[1..], e);
    }
  }

  /** Staging an instance of another class changes nothing `get` sees. */
  lemma {:induction false} CreateOtherModel(m: Mapper, store: Store, e: Entity, pk: Val)
    requires e.model != m.model
    ensures Get(m, Create(store, e), pk) == Get(m, store, pk)
  {
    if e !in store {
      var r := store + [e];
      assert Create(store, e) == r;
      if |store| == 0 {
        assert !HasKey(m, r[0], pk) && r[1..] == [];
      } else {
        assert r[0] == store[0] && r[1..] == store[1..] + [e];
        assert e !in store[1..];
        CreateOtherModel(m, store[1..], e, pk);
      }
    }
  }

  function RemoveFirst(store: Store, e: Entity): (r: Store)
    ensures multiset(r) == multiset(store) - multiset{e}
  {
    if |store| == 0 then []
    else
      assert store == [store[0]] + store[1..];
      if store[0] == e then store[1..] else [store[0]] + RemoveFirst(store[1..], e)
  }

  /** `delete(entity)`: marks exactly that instance deleted, so the session
      no longer sees it. The session refuses an instance that is not
      persistent: one never added, or one added but not yet flushed.
      `persisted` holds the instances the session has loaded or flushed. */
  function Delete(store: Store, persisted: Store, e: Entity): (r: Result<Store, RepoError>)
    ensures r.Err? <==> e !in persisted
    ensures r.Err? ==> r.error == NotPersisted
    ensures r.Ok? ==> multiset(r.value) == multiset(store) - multiset{e}
  {
    if e in persisted then Ok(RemoveFirst(store, e)) else Err(NotPersisted)
  }

  /** After deleting the one instance with a key, `get` finds nothing for
      that key. */
  lemma DeleteThenGet(m: Mapper, store: Store, persisted: Store, e: Entity)
    requires e in persisted && multiset(store)[e] <= 1
    requires forall x :: x in store && HasKey(m, x, Read(e, m.pk)) ==> x == e
    ensures Delete(store, persisted, e).Ok?
    ensures Get(m, Delete(store, persisted, e).value, Read(e, m.pk)).None?
  {
    var r := Delete(store, persisted, e).value;
    forall x | x in r ensures !HasKey(m, x, Read(e, m.pk)) {
      assert x in multiset(r);
      assert x in store by { assert multiset(store)[x] >= multiset(r)[x] > 0; }
      assert multiset(r)[e] == 0;
    }
  }

  // ------------------------------------------------------------- update

  /** The partial update `update(entity, data)` promises: every field with a
      non-None value in `data` is set, every other field keeps its value. */
  function Update(e: Entity, data: map<Field, Val>): (r: Entity)
    ensures forall f :: f in data && data[f] != VNull ==> Read(r, f) == data[f]
    ensures forall f :: !(f in data && data[f] != VNull) ==> Read(r, f) == Read(e, f)
    ensures r.model == e.model
  {
    Entity(e.model, map f | f in e.fields.Keys + (set k | k in data && data[k] != VNull) ::
      if f in data && data[f] != VNull then data[f] else e.fields[f])
  }

  /** The adapter's loop: `setattr` for each item whose value is not None. */
  method UpdateEntity(e: Entity, data: map<Field, Val>) returns (r: Entity)
    ensures r == Update(e, data)
  {
    r := e;
    var done: map<Field, Val> := map[];
    var todo := data.Keys;
    while todo != {}
      invariant todo !! done.Keys && todo + done.Keys == data.Keys
      invariant forall k :: k in done ==> done[k] == data[k]
      invariant r == Update(e, done)
      decreases todo
    {
      var k :| k in todo;
      UpdateStep(e, done, k, data[k]);
      if data[k] != VNull {
        r := r.(fields := r.fields[k := data[k]]);
      }
      done := done[k := data[k]];
      todo := todo - {k};
    }
    assert done == data;
  }

  /** One more item of `data` changes the result of `Update` by at most that
      one field. */
  lemma UpdateStep(e: Entity, d: map<Field, Val>, k: Field, v: Val)
    requires k !in d
    ensures Update(e, d[k := v]) == if v != VNull then Update(e, d).(fields := Update(e, d).fields[k := v]) else Update(e, d)
  {
    var lhs := Update(e, d[k := v]).fields;
    var rhs := (if v != VNull then Update(e, d).(fields := Update(e, d).fields[k := v]) else Update(e, d)).fields;
    assert lhs.Keys == rhs.Keys;
    forall f | f in lhs ensures lhs[f] == rhs[f] {
      assert Read(Update(e, d[k := v]), f) == lhs[f];
    }
  }

  /** Updating with the same data twice is the same as once. */
  lemma UpdateIdempotent(e: Entity, data: map<Field, Val>)
    ensures Update(Update(e, data), data) == Update(e, data)
  {
  }

  /** A None value leaves the field alone: `update(e, {"role": None})`. */
  lemma UpdateSkipsNone(e: Entity, f: Field)
    ensures Update(e, map[f := VNull]) == e
  {
  }

  /** The session's view after `update(entity, data)`: the instance the
      caller holds is the one the session holds, so its rows change in
      place and no other row changes. */
  function UpdateInStore(store: Store, e: Entity, data: map<Field, Val>): (r: Store)
    ensures |r| == |store|
    ensures forall i :: 0 <= i < |store| && store[i] == e ==> r[i] == Update(e, data)
    ensures forall i :: 0 <= i < |store| && store[i] != e ==> r[i] == store[i]
  {
    if |store| == 0 then []
    else [if store[0] == e then Update(e, data) else store[0]] + UpdateInStore(store[1..], e, data)
  }

  /** An update that leaves the primary key alone is what `get` returns
      afterwards for the updated instance's key. */
  lemma {:induction false} UpdateThenGet(m: Mapper, store: Store, e: Entity, data: map<Field, Val>)
    requires Get(m, store, Read(e, m.pk)) == Some(e)
    requires m.pk !in data || data[m.pk] == VNull
    ensures Get(m, UpdateInStore(store, e, data), Read(e, m.pk)) == Some(Update(e, data))
  {
    var r := UpdateInStore(store, e, data);
    assert r[0] == if store[0] == e then Update(e, data) else store[0];
    if store[0] != e {
      assert r[1..] == UpdateInStore(store[1..], e, data);
      assert !HasKey(m, Update(e, data), Read(e, m.pk)) ==> !HasKey(m, e, Read(e, m.pk));
      UpdateThenGet(m, store[1..], e, data);
    }
  }

  // ----------------------------------------- ordering by the requested field

  /** A listing that asks for `username` ascending comes back out of
      username order, because `all` sorts by the last column (`is_active`). */
  lemma AllSortsByWrongColumn()
    ensures
      var m := Mapper("User", "id", ["id", "username", "is_active"]);
      var b := Entity("User", map["id" := VInt(1), "username" := VStr("b"), "is_active" := VBool(false)]);
      var a := Entity("User", map["id" := VInt(2), "username" := VStr("a"), "is_active" := VBool(true)]);
      var r := All(m, [b, a], None, Some(Sorting("username", Asc)), map[]);
      r == Ok([b, a]) && !SortedBy(r.value, "username", Asc)
  {
    var m := Mapper("User", "id", ["id", "username", "is_active"]);
    var b := Entity("User", map["id" := VInt(1), "username" := VStr("b"), "is_active" := VBool(false)]);
    var a := Entity("User", map["id" := VInt(2), "username" := VStr("a"), "is_active" := VBool(true)]);
    FilterNoCriteria(m, [b, a]);
    assert Read(b, "is_active") == VBool(false) && Read(a, "is_active") == VBool(true);
    assert SortRows([a], "is_active", Asc) == [a];
    assert SortRows([b, a], "is_active", Asc) == [b, a];
    assert SortColumn(m) == Some("is_active");
    assert SortStep(m, [b, a], Some(Sorting("username", Asc))) == Ok([b, a]);
    assert Statement(m, map[]) == Ok(map[]);
    assert Read(b, "username") == VStr("b") && Read(a, "username") == VStr("a");
    assert !StrLe("b", "a");
  }

  /** `all` with the sort column taken from `sorting_field`, refusing a
      field that is not a column. */
  function AllByField(m: Mapper, store: Store, pagination: Option<Pagination>,
                      sorting: Option<Sorting>, c: Criteria): (r: Result<seq<Entity>, RepoError>)
    ensures r == Err(UnknownCriterion) <==> exists k :: k in c && k !in m.columns
    ensures r == Err(InvalidSortField) <==>
      Statement(m, c).Ok? && sorting.Some? && sorting.value.sortingField !in m.columns
    ensures r.Ok? ==> forall i :: 0 <= i < |r.value| ==> r.value[i] in store && Selects(m, r.value[i], c)
    ensures r.Ok? && pagination.Some? ==> |r.value| <= pagination.value.limit
    ensures r.Ok? && pagination.None? ==> multiset(r.value) == multiset(Filter(m, store, c))
    ensures r.Ok? && sorting.Some? ==>
      SortedBy(r.value, sorting.value.sortingField, sorting.value.sortingOrder)
  {
    match Statement(m, c)
    case Err(e) => Err(e)
    case Ok(crit) =>
      if sorting.Some? && sorting.value.sortingField !in m.columns then Err(InvalidSortField)
      else
        var rows := Filter(m, store, crit);
        var ordered :=
          if sorting.Some? then SortRows(rows, sorting.value.sortingField, sorting.value.sortingOrder)
          else rows;
        var r := if pagination.Some? then Window(ordered, pagination.value) else ordered;
        forall i | 0 <= i < |r| ensures r[i] in store && Selects(m, r[i], c) {
          assert r[i] in multiset(rows);
          FilterMembership(m, store, c, r[i]);
        }
        Ok(r)
  }

  /** Where the requested field is the last column, the two agree. */
  lemma AllByFieldAgreesOnLastColumn(m: Mapper, store: Store, p: Option<Pagination>,
                                     order: SortingOrder, c: Criteria)
    requires |m.columns| > 0
    ensures AllByField(m, store, p, Some(Sorting(m.columns[|m.columns| - 1], order)), c)
         == All(m, store, p, Some(Sorting(m.columns[|m.columns| - 1], order)), c)
  {
  }
}
