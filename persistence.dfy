/** The storage the store talks to through Hibernate, reduced to what the store relies
    on: a table of rows with an identity, equality queries that return a unique row
    or none, a forward cursor over the rows of one class, and a session's persistence
    context (the managed entities and the writes not yet committed). */
module Persistence {
  import opened Wrappers
  import opened JavaLang
  import HasAll

  /** The name of a column (a field of a dto). */
  type Column = string

  /** A value held in a column or used as a key: its runtime class and an opaque
      representation of its contents. */
  datatype Value = Value(cls: JClass, repr: string)

  /** A class object used as a value, as the marker's `clazz` column is. */
  function ClassValue(c: JClass): Value {
    Value(CLASS, c.name)
  }

  /** The class of a dto. A dto class is never the marker class. */
  type DtoClass = c: JClass | c != HasAll.HAS_ALL_STATUS witness JClass("")

  /** A dto: a row of the table of class `cls`, with its identifier and its columns. */
  datatype Dto = Dto(cls: DtoClass, id: Value, columns: map<Column, Value>)

  /** Anything Hibernate stores: a dto, or a completeness marker. */
  datatype Entity = DtoRow(dto: Dto) | StatusRow(status: HasAll.StatusRecord)

  /** The identity Hibernate merges and deletes by: the class and the `@Id` value. */
  datatype EntityId = EntityId(cls: JClass, key: Option<Value>)

  function ClassOf(e: Entity): JClass {
    match e
    case DtoRow(d) => d.cls
    case StatusRow(_) => HasAll.HAS_ALL_STATUS
  }

  function IdOf(e: Entity): EntityId {
    match e
    case DtoRow(d) => EntityId(d.cls, Some(d.id))
    case StatusRow(r) => EntityId(HasAll.HAS_ALL_STATUS, if r.clazz.None? then None else Some(ClassValue(r.clazz.value)))
  }

  /** The value an entity holds in a column, if any. The marker's `@Id` column is `clazz`. */
  function FieldOf(e: Entity, col: Column): Option<Value> {
    match e
    case DtoRow(d) => if col in d.columns then Some(d.columns[col]) else None
    case StatusRow(r) => if col == "clazz" && r.clazz.Some? then Some(ClassValue(r.clazz.value)) else None
  }

  /** Whether `e` is a row of class `cls` whose column `col` holds `v`: the restriction
      `Restrictions.eq(col, v)` on a criteria query for `cls`. */
  predicate Matches(e: Entity, cls: JClass, col: Column, v: Value) {
    ClassOf(e) == cls && FieldOf(e, col) == Some(v)
  }

  // ---------------------------------------------------------------------------
  // The committed table. Rows are kept in the order a cursor returns them.

  type Table = seq<Entity>

  /** No two rows share an identity. */
  ghost predicate UniqueIds(t: Table) {
    forall i, j | 0 <= i < j < |t| :: IdOf(t[i]) != IdOf(t[j])
  }

  /** The row with identity `id`, if any. */
  function Find(t: Table, id: EntityId): Option<Entity>
    decreases |t|
  {
    if t == [] then None
    else if IdOf(t[0]) == id then Some(t[0])
    else Find(t[1..], id)
  }

  /** Merge by identity: the row with `e`'s identity is replaced by `e`, in place, or
      `e` is added at the end. */
  function Put(t: Table, e: Entity): Table
    decreases |t|
  {
    if t == [] then [e]
    else if IdOf(t[0]) == IdOf(e) then [e] + t[1..]
    else [t[0]] + Put(t[1..], e)
  }

  /** Delete by identity. */
  function RemoveId(t: Table, id: EntityId): Table
    decreases |t|
  {
    if t == [] then []
    else if IdOf(t[0]) == id then RemoveId(t[1..], id)
    else [t[0]] + RemoveId(t[1..], id)
  }

  /** The rows a criteria query with one equality restriction selects, in table order. */
  function Matching(t: Table, cls: JClass, col: Column, v: Value): (r: seq<Entity>)
    ensures forall e | e in r :: e in t && Matches(e, cls, col, v)
    ensures forall e | e in t && Matches(e, cls, col, v) :: e in r
    decreases |t|
  {
    if t == [] then []
    else if Matches(t[0], cls, col, v) then [t[0]] + Matching(t[1..], cls, col, v)
    else Matching(t[1..], cls, col, v)
  }

  /** `uniqueResult()` fails when more than one row matches. */
  datatype QueryError = NotUnique

  /** `criteria.add(Restrictions.eq(col, v)).uniqueResult()`: the one matching row,
      none, or an error when the restriction does not single out a row. */
  function UniqueResult(t: Table, cls: JClass, col: Column, v: Value): (r: Result<Option<Entity>, QueryError>)
    ensures r == Success(None) <==> forall e | e in t :: !Matches(e, cls, col, v)
    ensures r.Success? && r.value.Some? ==> r.value.value in t && Matches(r.value.value, cls, col, v)
    ensures |Matching(t, cls, col, v)| == 1 ==> r == Success(Some(Matching(t, cls, col, v)[0]))
    ensures r.Failure? <==> |Matching(t, cls, col, v)| >= 2
  {
    var found := Matching(t, cls, col, v);
    assert found != [] ==> found[0] in found;
    if |found| == 0 then Success(None)
    else if |found| == 1 then Success(Some(found[0]))
    else Failure(NotUnique)
  }

  /** The rows a cursor over the whole table of `cls` returns: the rows of that class
      (RowsOfCounts: each as often as the table holds it; RowsOfAppend: in table order). */
  function RowsOf(t: Table, cls: JClass): (r: seq<Entity>)
    ensures |r| <= |t|
    ensures forall e | e in r :: e in t && ClassOf(e) == cls
    ensures forall e | e in t && ClassOf(e) == cls :: e in r
    decreases |t|
  {
    if t == [] then []
    else if ClassOf(t[0]) == cls then [t[0]] + RowsOf(t[1..], cls)
    else RowsOf(t[1..], cls)
  }

  /** The cursor returns each row of `cls` as many times as the table holds it, and
      no other row. */
  lemma {:induction false} RowsOfCounts(t: Table, cls: JClass, e: Entity)
    ensures multiset(RowsOf(t, cls))[e] == if ClassOf(e) == cls then multiset(t)[e] else 0
    decreases |t|
  {
    if t != [] {
      assert t == [t[0]] + t[1..];
      RowsOfCounts(t[1..], cls, e);
    }
  }

  /** The cursor keeps table order: the rows of a table made of two parts are the rows
      of the first part followed by the rows of the second. */
  lemma {:induction false} RowsOfAppend(a: Table, b: Table, cls: JClass)
    ensures RowsOf(a + b, cls) == RowsOf(a, cls) + RowsOf(b, cls)
    decreases |a|
  {
    if a == [] {
      assert a + b == b;
    } else {
      assert (a + b)[0] == a[0];
      assert (a + b)[1..] == a[1..] + b;
      RowsOfAppend(a[1..], b, cls);
    }
  }

  /** A single row is returned exactly when it has the class; with RowsOfAppend this
      fixes the cursor's result as the table's rows of `cls` in table order. */
  lemma RowsOfSingle(e: Entity, cls: JClass)
    ensures RowsOf([e], cls) == if ClassOf(e) == cls then [e] else []
  {
    assert [e][1..] == [];
  }

  /** The rows after the first of a table without shared identities share none, and
      none of them has the first row's identity. */
  lemma UniqueIdsTail(t: Table)
    requires UniqueIds(t) && t != []
    ensures UniqueIds(t[1..])
    ensures forall x | x in t[1..] :: IdOf(x) != IdOf(t[0])
  {
    forall i, j | 0 <= i < j < |t[1..]| ensures IdOf(t[1..][i]) != IdOf(t[1..][j]) {
      assert t[1..][i] == t[i + 1] && t[1..][j] == t[j + 1];
    }
    forall x | x in t[1..] ensures IdOf(x) != IdOf(t[0]) {
      var k :| 0 <= k < |t[1..]| && t[1..][k] == x;
      assert t[k + 1] == x;
    }
  }

  /** A row whose identity no other row has can go in front. */
  lemma UniqueIdsCons(x: Entity, r: Table)
    requires UniqueIds(r) && forall y | y in r :: IdOf(y) != IdOf(x)
    ensures UniqueIds([x] + r)
  {
    forall i, j | 0 <= i < j < |[x] + r| ensures IdOf(([x] + r)[i]) != IdOf(([x] + r)[j]) {
      assert ([x] + r)[j] == r[j - 1];
      if i > 0 {
        assert ([x] + r)[i] == r[i - 1];
      }
    }
  }

  /** `Put` adds `e`, keeps every row of another identity and brings in nothing else. */
  lemma {:induction false} PutRows(t: Table, e: Entity)
    ensures e in Put(t, e)
    ensures forall x | x in Put(t, e) :: x == e || x in t
    ensures forall x | x in t && IdOf(x) != IdOf(e) :: x in Put(t, e)
    decreases |t|
  {
    if t != [] && IdOf(t[0]) != IdOf(e) {
      PutRows(t[1..], e);
      assert Put(t, e) == [t[0]] + Put(t[1..], e);
      forall x | x in t && IdOf(x) != IdOf(e) ensures x in Put(t, e) {
        if x != t[0] {
          assert x in t[1..];
        }
      }
    } else if t != [] {
      forall x | x in t && IdOf(x) != IdOf(e) ensures x in Put(t, e) {
        assert x in t[1..];
      }
    }
  }

  lemma {:induction false} PutKeepsUniqueIds(t: Table, e: Entity)
    requires UniqueIds(t)
    ensures UniqueIds(Put(t, e))
    ensures forall x | x in Put(t, e) :: x == e || x in t
    ensures forall x | x in t && IdOf(x) != IdOf(e) :: x in Put(t, e)
    decreases |t|
  {
    PutRows(t, e);
    if t != [] {
      UniqueIdsTail(t);
      if IdOf(t[0]) != IdOf(e) {
        PutKeepsUniqueIds(t[1..], e);
        PutRows(t[1..], e);
        UniqueIdsCons(t[0], Put(t[1..], e));
      } else {
        UniqueIdsCons(e, t[1..]);
      }
    }
  }

  lemma {:induction false} RemoveIdKeepsUniqueIds(t: Table, id: EntityId)
    requires UniqueIds(t)
    ensures UniqueIds(RemoveId(t, id))
    ensures forall x | x in RemoveId(t, id) :: x in t && IdOf(x) != id
    ensures forall x | x in t && IdOf(x) != id :: x in RemoveId(t, id)
    decreases |t|
  {
    if t != [] {
      assert UniqueIds(t[1..]) by {
        forall i, j | 0 <= i < j < |t[1..]| ensures IdOf(t[1..][i]) != IdOf(t[1..][j]) {
          assert t[1..][i] == t[i + 1] && t[1..][j] == t[j + 1];
        }
      }
      RemoveIdKeepsUniqueIds(t[1..], id);
      var r := RemoveId(t[1..], id);
      forall x | x in r ensures IdOf(x) != IdOf(t[0]) {
        var k :| 0 <= k < |t[1..]| && t[1..][k] == x;
        assert t[k + 1] == x;
      }
    }
  }

  /** After a merge the row for `e`'s identity is `e`; every other identity is found
      as before. */
  lemma {:induction false} FindPut(t: Table, e: Entity, id: EntityId)
    ensures Find(Put(t, e), id) == if id == IdOf(e) then Some(e) else Find(t, id)
    decreases |t|
  {
    if t != [] && IdOf(t[0]) != IdOf(e) {
      FindPut(t[1..], e, id);
      assert Put(t, e)[1..] == Put(t[1..], e);
    } else if t != [] && id != IdOf(e) && IdOf(t[0]) != id {
      assert Put(t, e)[1..] == t[1..];
    }
  }

  /** After a delete nothing has identity `id`; every other identity is found as before. */
  lemma {:induction false} FindRemoveId(t: Table, id: EntityId, x: EntityId)
    ensures Find(RemoveId(t, id), x) == if x == id then None else Find(t, x)
    decreases |t|
  {
    if t != [] {
      FindRemoveId(t[1..], id, x);
      if IdOf(t[0]) != id {
        assert RemoveId(t, id)[1..] == RemoveId(t[1..], id);
      }
    }
  }

  /** Only rows whose identity is `id` can disappear from a query when `id` is deleted. */
  lemma {:induction false} MatchingRemoveId(t: Table, id: EntityId, cls: JClass, col: Column, v: Value)
    ensures forall e | e in Matching(RemoveId(t, id), cls, col, v) :: IdOf(e) != id
    ensures forall e | e in Matching(t, cls, col, v) && IdOf(e) != id :: e in Matching(RemoveId(t, id), cls, col, v)
    decreases |t|
  {
    if t != [] {
      MatchingRemoveId(t[1..], id, cls, col, v);
    }
  }

  /** Storing a dto and then asking for it by one of its columns finds it, as long as
      no other row of its class holds the same value in that column. */
  lemma {:induction false} QueryFindsPut(t: Table, d: Dto, col: Column)
    requires col in d.columns
    requires forall e | e in t && Matches(e, d.cls, col, d.columns[col]) :: IdOf(e) == IdOf(DtoRow(d))
    requires UniqueIds(t)
    ensures UniqueResult(Put(t, DtoRow(d)), d.cls, col, d.columns[col]) == Success(Some(DtoRow(d)))
    decreases |t|
  {
    var e := DtoRow(d);
    var v := d.columns[col];
    PutKeepsUniqueIds(t, e);
    var t' := Put(t, e);
    var found := Matching(t', d.cls, col, v);
    assert e in found by {
      FindPut(t, e, IdOf(e));
      FindIsIn(t', IdOf(e));
    }
    forall x | x in found ensures IdOf(x) == IdOf(e) {
      assert x == e || x in t;
    }
    MatchingOfUniqueIds(t', d.cls, col, v, IdOf(e));
    assert found[0] in found;
  }

  lemma {:induction false} FindIsIn(t: Table, id: EntityId)
    ensures Find(t, id).Some? ==> Find(t, id).value in t && IdOf(Find(t, id).value) == id
    ensures (exists e | e in t :: IdOf(e) == id) ==> Find(t, id).Some?
    decreases |t|
  {
    if t != [] {
      FindIsIn(t[1..], id);
      if IdOf(t[0]) != id && exists e | e in t :: IdOf(e) == id {
        var e :| e in t && IdOf(e) == id;
        assert e in t[1..];
      }
    }
  }

  /** In a table without repeated identities, rows that all share one identity are at
      most one row. */
  lemma {:induction false} MatchingOfUniqueIds(t: Table, cls: JClass, col: Column, v: Value, id: EntityId)
    requires UniqueIds(t)
    requires forall x | x in Matching(t, cls, col, v) :: IdOf(x) == id
    ensures |Matching(t, cls, col, v)| <= 1
    decreases |t|
  {
    if t != [] {
      assert UniqueIds(t[1..]) by {
        forall i, j | 0 <= i < j < |t[1..]| ensures IdOf(t[1..][i]) != IdOf(t[1..][j]) {
          assert t[1..][i] == t[i + 1] && t[1..][j] == t[j + 1];
        }
      }
      MatchingOfUniqueIds(t[1..], cls, col, v, id);
      forall x | x in t[1..] ensures IdOf(x) != IdOf(t[0]) {
        var k :| 0 <= k < |t[1..]| && t[1..][k] == x;
        assert t[k + 1] == x;
      }
      var rest := Matching(t[1..], cls, col, v);
      assert rest != [] ==> rest[0] in rest;
    }
  }

  // ---------------------------------------------------------------------------
  // Writes and a session's persistence context.

  /** A write a session sends to the database. */
  datatype Write = Merge(entity: Entity) | Remove(id: EntityId)

  function Apply(t: Table, w: Write): Table {
    match w
    case Merge(e) => Put(t, e)
    case Remove(id) => RemoveId(t, id)
  }

  /** The table after the writes `ws`, in order. */
  function ApplyAll(t: Table, ws: seq<Write>): Table
    decreases |ws|
  {
    if ws == [] then t else ApplyAll(Apply(t, ws[0]), ws[1..])
  }

  lemma {:induction false} ApplyAllAppend(t: Table, ws: seq<Write>, w: Write)
    ensures ApplyAll(t, ws + [w]) == Apply(ApplyAll(t, ws), w)
    decreases |ws|
  {
    if ws != [] {
      assert (ws + [w])[1..] == ws[1..] + [w];
      ApplyAllAppend(Apply(t, ws[0]), ws[1..], w);
    }
  }

  lemma ApplyAllSingle(t: Table, w: Write)
    ensures ApplyAll(t, [w]) == Apply(t, w)
  {
    assert [w][1..] == [];
  }

  lemma {:induction false} ApplyAllKeepsUniqueIds(t: Table, ws: seq<Write>)
    requires UniqueIds(t)
    ensures UniqueIds(ApplyAll(t, ws))
    decreases |ws|
  {
    if ws != [] {
      match ws[0] {
        case Merge(e) => PutKeepsUniqueIds(t, e);
        case Remove(id) => RemoveIdKeepsUniqueIds(t, id);
      }
      ApplyAllKeepsUniqueIds(Apply(t, ws[0]), ws[1..]);
    }
  }

  /** A merge of each of `es`, in order. */
  function Merges(es: seq<Entity>): (ws: seq<Write>)
    ensures |ws| == |es|
    ensures forall i | 0 <= i < |es| :: ws[i] == Merge(es[i])
    decreases |es|
  {
    if es == [] then [] else [Merge(es[0])] + Merges(es[1..])
  }

  /** A delete of each of `ids`, in order. */
  function Removes(ids: seq<EntityId>): (ws: seq<Write>)
    ensures |ws| == |ids|
    ensures forall i | 0 <= i < |ids| :: ws[i] == Remove(ids[i])
    decreases |ids|
  {
    if ids == [] then [] else [Remove(ids[0])] + Removes(ids[1..])
  }

  /** The last of `es` with identity `id`, if any. */
  function LastWithId(es: seq<Entity>, id: EntityId): Option<Entity>
    decreases |es|
  {
    if es == [] then None
    else if IdOf(es[|es| - 1]) == id then Some(es[|es| - 1])
    else LastWithId(es[..|es| - 1], id)
  }

  /** After merging `es` in order, the row for each identity is the last of `es` with
      that identity, or the row it had before if none of `es` has it. */
  lemma {:induction false} FindAfterMerges(t: Table, es: seq<Entity>, id: EntityId)
    ensures Find(ApplyAll(t, Merges(es)), id) == if LastWithId(es, id).Some? then LastWithId(es, id) else Find(t, id)
    decreases |es|
  {
    if es != [] {
      var init := es[..|es| - 1];
      var e := es[|es| - 1];
      assert es == init + [e];
      assert Merges(es) == Merges(init) + [Merge(e)];
      ApplyAllAppend(t, Merges(init), Merge(e));
      FindPut(ApplyAll(t, Merges(init)), e, id);
      FindAfterMerges(t, init, id);
    }
  }

  /** After deleting `ids` in order, those identities are gone and all others are
      found as before. */
  lemma {:induction false} FindAfterRemoves(t: Table, ids: seq<EntityId>, x: EntityId)
    ensures Find(ApplyAll(t, Removes(ids)), x) == if x in ids then None else Find(t, x)
    decreases |ids|
  {
    if ids != [] {
      var init := ids[..|ids| - 1];
      var id := ids[|ids| - 1];
      assert ids == init + [id];
      assert Removes(ids) == Removes(init) + [Remove(id)];
      ApplyAllAppend(t, Removes(init), Remove(id));
      FindRemoveId(ApplyAll(t, Removes(init)), id, x);
      FindAfterRemoves(t, init, x);
    }
  }

  /** The elements of a sequence. */
  function Elements<T>(s: seq<T>): set<T> {
    set x | x in s
  }

  /** The identities of `es`, in order. */
  function IdsOf(es: seq<Entity>): (ids: seq<EntityId>)
    ensures |ids| == |es|
    ensures forall i | 0 <= i < |es| :: ids[i] == IdOf(es[i])
    decreases |es|
  {
    if es == [] then [] else [IdOf(es[0])] + IdsOf(es[1..])
  }

  /** If `m` is the only one of `es` with identity `id`, it is the last one. */
  lemma {:induction false} LastWithIdUnique(es: seq<Entity>, m: Entity)
    requires m in es
    requires forall e | e in es && IdOf(e) == IdOf(m) :: e == m
    ensures LastWithId(es, IdOf(m)) == Some(m)
    decreases |es|
  {
    var init := es[..|es| - 1];
    if es[|es| - 1] != m {
      assert es == init + [es[|es| - 1]];
      assert m in init;
      LastWithIdUnique(init, m);
    }
  }

  /** A merge of a row of another class does not change what a query for `cls` selects:
      the row it may replace has its class too. */
  lemma {:induction false} MatchingPutOtherClass(t: Table, e: Entity, cls: JClass, col: Column, v: Value)
    requires ClassOf(e) != cls
    ensures Matching(Put(t, e), cls, col, v) == Matching(t, cls, col, v)
    decreases |t|
  {
    if t != [] && IdOf(t[0]) != IdOf(e) {
      MatchingPutOtherClass(t[1..], e, cls, col, v);
      assert Put(t, e)[1..] == Put(t[1..], e);
    } else if t != [] {
      assert ClassOf(t[0]) == IdOf(t[0]).cls == IdOf(e).cls == ClassOf(e);
      assert Put(t, e)[1..] == t[1..];
    }
  }

  lemma {:induction false} MatchingAfterMergesOfOtherClass(t: Table, es: seq<Entity>, cls: JClass, col: Column, v: Value)
    requires forall e | e in es :: ClassOf(e) != cls
    ensures Matching(ApplyAll(t, Merges(es)), cls, col, v) == Matching(t, cls, col, v)
    decreases |es|
  {
    if es != [] {
      assert Merges(es)[1..] == Merges(es[1..]);
      MatchingPutOtherClass(t, es[0], cls, col, v);
      MatchingAfterMergesOfOtherClass(Put(t, es[0]), es[1..], cls, col, v);
    }
  }

  /** A session's persistence context: the identities of the entities it manages (what
      `getStatistics().getEntityCount()` counts), the writes not yet flushed, the
      writes flushed in the open transaction, and whether a transaction is open. */
  datatype Context = Context(managed: set<EntityId>, unflushed: seq<Write>, flushed: seq<Write>, inTx: bool)

  /** The writes the next commit will make durable. */
  function Pending(c: Context): seq<Write> {
    c.flushed + c.unflushed
  }

  /** `session.merge(e)`: `e`'s state is copied into a managed instance, to be written. */
  function MergeInto(c: Context, e: Entity): (c': Context)
    ensures c'.managed == c.managed + {IdOf(e)}
    ensures Pending(c') == Pending(c) + [Merge(e)]
  {
    c.(managed := c.managed + {IdOf(e)}, unflushed := c.unflushed + [Merge(e)])
  }

  /** `session.delete(e)`: `e` is no longer managed and is to be deleted. */
  function DeleteFrom(c: Context, e: Entity): (c': Context)
    ensures c'.managed == c.managed - {IdOf(e)}
    ensures Pending(c') == Pending(c) + [Remove(IdOf(e))]
  {
    c.(managed := c.managed - {IdOf(e)}, unflushed := c.unflushed + [Remove(IdOf(e))])
  }

  /** `session.flush()`: the pending writes are sent to the database, inside the
      transaction; nothing becomes durable. */
  function Flush(c: Context): (c': Context)
    ensures c'.unflushed == [] && c'.managed == c.managed
    ensures Pending(c') == Pending(c)
  {
    c.(flushed := c.flushed + c.unflushed, unflushed := [])
  }

  /** `session.clear()`: every managed entity is detached and writes not yet flushed
      are dropped. */
  function Clear(c: Context): (c': Context)
    ensures c'.managed == {}
    ensures Pending(c') == c.flushed
  {
    c.(managed := {}, unflushed := [])
  }

  /** Flushing before clearing loses no write; clearing alone loses every write not
      yet flushed. */
  lemma FlushThenClearKeepsWrites(c: Context)
    ensures Pending(Clear(Flush(c))) == Pending(c)
    ensures c.unflushed != [] ==> Pending(Clear(c)) != Pending(c)
  {
  }

  /** `tx.commit()`: the pending writes become durable, in order (CommitOfMerges,
      CommitOfRemoves), and the transaction ends with nothing pending; the session still
      manages what it managed. */
  function Commit(t: Table, c: Context): (r: (Table, Context))
    ensures Pending(r.1) == [] && !r.1.inTx
    ensures r.1.managed == c.managed
  {
    (ApplyAll(t, c.flushed + c.unflushed), c.(unflushed := [], flushed := [], inTx := false))
  }

  /** A commit whose pending writes are merges of `es`: each identity's row is the last
      of `es` with it, or the row it had before if none has it. */
  lemma CommitOfMerges(t: Table, c: Context, es: seq<Entity>, id: EntityId)
    requires Pending(c) == Merges(es)
    ensures Find(Commit(t, c).0, id) == if LastWithId(es, id).Some? then LastWithId(es, id) else Find(t, id)
  {
    FindAfterMerges(t, es, id);
  }

  /** A commit whose pending writes are deletes of `ids`: those identities are gone and
      every other is found as before. */
  lemma CommitOfRemoves(t: Table, c: Context, ids: seq<EntityId>, x: EntityId)
    requires Pending(c) == Removes(ids)
    ensures Find(Commit(t, c).0, x) == if x in ids then None else Find(t, x)
  {
    FindAfterRemoves(t, ids, x);
  }
}
