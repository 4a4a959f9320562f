/** `HibernateDB`: the data store that keeps Orianna's dtos in a relational database
    through Hibernate. Its builder, its key-type rules, its reads, deletes and stores
    and its completeness markers, over the abstract table and session of
    `Persistence` and the session registry of `Sessions`. */
module HibernateStore {
  import opened Wrappers
  import opened JavaLang
  import opened Persistence
  import HasAll
  import Sessions

  /** How often the session cleaner runs, in milliseconds. */
  const CHECK_MILLIS := 10000

  const LONG_KEY_MESSAGE := "Invalid key type. Bear with me, this can be finicky. Try using an Integer instead."
  const INTEGER_KEY_MESSAGE := "Invalid key type. Bear with me, this can be finicky. Try using a Long instead."
  const OTHER_KEY_MESSAGE := "Invalid key type"
  const LOAD_FAILED_MESSAGE := "Couldn't load data from DB"
  const MISSING_CREDENTIALS_MESSAGE := "URL, Username, and Password must be set!"

  /** The exceptions the store raises or lets through. */
  datatype StoreError =
    | OriannaException(message: string)
    | IllegalArgument(message: string)
    /** `uniqueResult()` found more than one row. */
    | NonUniqueResult
    /** `get(0)` on an empty list. */
    | IndexOutOfBounds
    /** A row returned for the marker query is not a marker. */
    | ClassCast
    /** The session, or the factory that would open one, has been closed. */
    | ClosedSession

  /** An Orianna object of class `cls` wrapping its dto. */
  datatype OriannaObject = OriannaObject(cls: JClass, dto: Dto)

  /** What the store finds by reflection, supplied from outside.
      `indexField(dtoClass, keyClass)` is what `getDataStoreIndexField` of a new dto of
      `dtoClass` answers for keys of class `keyClass`: the column to look them up in,
      or none. `construct(objClass, row)` is the first declared constructor of `objClass`
      applied to the row, which may fail. */
  datatype Reflection = Reflection(indexField: (DtoClass, JClass) -> Option<Column>,
                                   construct: (JClass, Entity) -> Option<OriannaObject>)

  // ---------------------------------------------------------------------------
  // Key types.

  /** The exception for a key whose class has no index column: it depends on the
      key's class alone, and tells `Long` keys to try `Integer` and the reverse. */
  function KeyTypeError(keyClass: JClass): (e: StoreError)
    ensures e.OriannaException?
    ensures e.message == LONG_KEY_MESSAGE <==> keyClass == LONG
    ensures e.message == INTEGER_KEY_MESSAGE <==> keyClass == INTEGER
    ensures e.message == OTHER_KEY_MESSAGE <==> keyClass != LONG && keyClass != INTEGER
  {
    if keyClass == LONG then OriannaException(LONG_KEY_MESSAGE)
    else if keyClass == INTEGER then OriannaException(INTEGER_KEY_MESSAGE)
    else OriannaException(OTHER_KEY_MESSAGE)
  }

  /** The column keys like `key` are looked up in, chosen by the class of the key;
      the key-type exception when there is none. */
  function IndexColumn(rf: Reflection, dtoClass: DtoClass, key: Value): (r: Result<Column, StoreError>)
    ensures r.Failure? <==> rf.indexField(dtoClass, key.cls).None?
    ensures r.Failure? ==> r.error == KeyTypeError(key.cls)
    ensures r.Success? ==> rf.indexField(dtoClass, key.cls) == Some(r.value)
  {
    match rf.indexField(dtoClass, key.cls)
    case None => Failure(KeyTypeError(key.cls))
    case Some(col) => Success(col)
  }

  /** Keys of the same class get the same column, or the same exception. */
  lemma IndexColumnDependsOnlyOnKeyClass(rf: Reflection, dtoClass: DtoClass, k1: Value, k2: Value)
    requires k1.cls == k2.cls
    ensures IndexColumn(rf, dtoClass, k1) == IndexColumn(rf, dtoClass, k2)
  {
  }

  // ---------------------------------------------------------------------------
  // Reads.

  /** `hibernateGet(cls, col, key)` on table `t`: the one row of class `cls` whose
      column `col` holds `key`, none, or an error when several rows match. */
  function Lookup(t: Table, cls: JClass, col: Column, key: Value): (r: Result<Option<Entity>, StoreError>)
    ensures r == Success(None) <==> forall e | e in t :: !Matches(e, cls, col, key)
    ensures r.Success? && r.value.Some? ==> r.value.value in t && Matches(r.value.value, cls, col, key)
    ensures r.Failure? ==> r.error == NonUniqueResult
    ensures |Matching(t, cls, col, key)| == 1 ==> r == Success(Some(Matching(t, cls, col, key)[0]))
    ensures r.Failure? <==> |Matching(t, cls, col, key)| >= 2
  {
    match UniqueResult(t, cls, col, key)
    case Success(found) => Success(found)
    case Failure(_) => Failure(NonUniqueResult)
  }

  /** One key of a read once its column is known: null when no row matches, else the
      row made into an object of `objClass`; the load exception when that fails. */
  function LoadSlot(t: Table, rf: Reflection, objClass: JClass, dtoClass: DtoClass, col: Column, key: Value)
    : (r: Result<Option<OriannaObject>, StoreError>)
    ensures r == Success(None) <==> forall e | e in t :: !Matches(e, dtoClass, col, key)
    ensures r.Success? && r.value.Some? ==>
              exists e | e in t && Matches(e, dtoClass, col, key) :: rf.construct(objClass, e) == r.value
    ensures r.Failure? ==> r.error == NonUniqueResult || r.error == OriannaException(LOAD_FAILED_MESSAGE)
    ensures |Matching(t, dtoClass, col, key)| == 1 ==> r == Construct(rf, objClass, Some(Matching(t, dtoClass, col, key)[0]))
    ensures r == Failure(NonUniqueResult) <==> |Matching(t, dtoClass, col, key)| >= 2
  {
    var found :- Lookup(t, dtoClass, col, key);
    Construct(rf, objClass, found)
  }

  /** What a read makes of the row its query returned: null for none, else the object
      the constructor of `objClass` makes of it, or the load exception. */
  function Construct(rf: Reflection, objClass: JClass, found: Option<Entity>): (r: Result<Option<OriannaObject>, StoreError>)
    ensures r == Success(None) <==> found.None?
    ensures r.Success? && r.value.Some? ==> found.Some? && rf.construct(objClass, found.value) == r.value
    ensures r.Failure? <==> found.Some? && rf.construct(objClass, found.value).None?
    ensures r.Failure? ==> r.error == OriannaException(LOAD_FAILED_MESSAGE)
  {
    if found.None? then Success(None)
    else if rf.construct(objClass, found.value).None? then Failure(OriannaException(LOAD_FAILED_MESSAGE))
    else Success(rf.construct(objClass, found.value))
  }

  /** The result `r` of a list read over `keys`, every key looked up in column `col`:
      one slot per key, each as `LoadSlot` gives it, or the error of the first key
      that fails. */
  ghost predicate ListReadOutcome(r: Result<seq<Option<OriannaObject>>, StoreError>, t: Table, rf: Reflection,
                                  objClass: JClass, dtoClass: DtoClass, col: Column, keys: seq<Value>)
  {
    && (r.Success? <==> forall i | 0 <= i < |keys| :: LoadSlot(t, rf, objClass, dtoClass, col, keys[i]).Success?)
    && (r.Success? ==> |r.value| == |keys| &&
                       forall i | 0 <= i < |keys| :: LoadSlot(t, rf, objClass, dtoClass, col, keys[i]) == Success(r.value[i]))
    && (r.Failure? ==> exists k | 0 <= k < |keys| ::
                         && (forall j | 0 <= j < k :: LoadSlot(t, rf, objClass, dtoClass, col, keys[j]).Success?)
                         && LoadSlot(t, rf, objClass, dtoClass, col, keys[k]) == Failure(r.error))
  }

  /** Every one of `keys` loaded, giving `slots`, one per key. */
  ghost predicate SlotsLoaded(t: Table, rf: Reflection, objClass: JClass, dtoClass: DtoClass, col: Column,
                              keys: seq<Value>, slots: seq<Option<OriannaObject>>) {
    |slots| == |keys| && forall j | 0 <= j < |keys| :: LoadSlot(t, rf, objClass, dtoClass, col, keys[j]) == Success(slots[j])
  }

  lemma SlotsLoadedStep(t: Table, rf: Reflection, objClass: JClass, dtoClass: DtoClass, col: Column,
                        keys: seq<Value>, slots: seq<Option<OriannaObject>>, i: nat, slot: Option<OriannaObject>)
    requires i < |keys| && SlotsLoaded(t, rf, objClass, dtoClass, col, keys[..i], slots)
    requires LoadSlot(t, rf, objClass, dtoClass, col, keys[i]) == Success(slot)
    ensures SlotsLoaded(t, rf, objClass, dtoClass, col, keys[..i + 1], slots + [slot])
  {
    var ks, ss := keys[..i + 1], slots + [slot];
    forall j | 0 <= j < |ks| ensures LoadSlot(t, rf, objClass, dtoClass, col, ks[j]) == Success(ss[j]) {
      if j < i {
        assert ks[j] == keys[..i][j];
      }
    }
  }

  /** A list read in which every key loaded gives one slot per key. */
  lemma ListReadSucceeds(t: Table, rf: Reflection, objClass: JClass, dtoClass: DtoClass, col: Column,
                         keys: seq<Value>, slots: seq<Option<OriannaObject>>)
    requires SlotsLoaded(t, rf, objClass, dtoClass, col, keys, slots)
    ensures ListReadOutcome(Success(slots), t, rf, objClass, dtoClass, col, keys)
  {
  }

  /** A list read stops at the first key that fails, with that key's error. */
  lemma ListReadFails(t: Table, rf: Reflection, objClass: JClass, dtoClass: DtoClass, col: Column,
                      keys: seq<Value>, k: nat, slots: seq<Option<OriannaObject>>, error: StoreError)
    requires k < |keys| && SlotsLoaded(t, rf, objClass, dtoClass, col, keys[..k], slots)
    requires LoadSlot(t, rf, objClass, dtoClass, col, keys[k]) == Failure(error)
    ensures ListReadOutcome(Failure(error), t, rf, objClass, dtoClass, col, keys)
  {
    forall j | 0 <= j < k ensures LoadSlot(t, rf, objClass, dtoClass, col, keys[j]).Success? {
      assert keys[..k][j] == keys[j];
    }
  }

  /** The objects `doGetAll` makes of the rows of a cursor, in order, or the load
      exception when one of them cannot be made. */
  function LoadAll(rf: Reflection, objClass: JClass, rows: seq<Entity>): (r: Result<seq<OriannaObject>, StoreError>)
    ensures r.Success? <==> forall i | 0 <= i < |rows| :: rf.construct(objClass, rows[i]).Some?
    ensures r.Success? ==> |r.value| == |rows| && forall i | 0 <= i < |rows| :: rf.construct(objClass, rows[i]) == Some(r.value[i])
    ensures r.Failure? ==> r.error == OriannaException(LOAD_FAILED_MESSAGE)
    decreases |rows|
  {
    if rows == [] then Success([])
    else if rf.construct(objClass, rows[0]).None? then Failure(OriannaException(LOAD_FAILED_MESSAGE))
    else
      var rest :- LoadAll(rf, objClass, rows[1..]);
      Success([rf.construct(objClass, rows[0]).value] + rest)
  }

  /** The identity of the row a key finds, if the lookup finds one. */
  function FoundId(t: Table, cls: JClass, col: Column, key: Value): Option<EntityId> {
    match Lookup(t, cls, col, key)
    case Success(Some(e)) => Some(IdOf(e))
    case _ => None
  }

  /** The row one key of a list delete finds, if any. */
  function Hit(t: Table, cls: JClass, col: Column, key: Value): (rows: set<Entity>)
    ensures forall e :: e in rows <==> Lookup(t, cls, col, key) == Success(Some(e))
  {
    match Lookup(t, cls, col, key)
    case Success(Some(e)) => {e}
    case _ => {}
  }

  /** Every lookup of `keys` in column `col` succeeds: none finds several rows. */
  ghost predicate AllUnique(t: Table, cls: JClass, col: Column, keys: seq<Value>) {
    forall j | 0 <= j < |keys| :: Lookup(t, cls, col, keys[j]).Success?
  }

  lemma AllUniqueStep(t: Table, cls: JClass, col: Column, keys: seq<Value>, i: nat)
    requires i < |keys| && AllUnique(t, cls, col, keys[..i]) && Lookup(t, cls, col, keys[i]).Success?
    ensures AllUnique(t, cls, col, keys[..i + 1])
  {
    var ks := keys[..i + 1];
    forall j | 0 <= j < |ks| ensures Lookup(t, cls, col, ks[j]).Success? {
      if j < i {
        assert ks[j] == keys[..i][j];
      }
    }
  }

  /** The rows the keys of a list delete find, one lookup per key. */
  function FoundRows(t: Table, cls: JClass, col: Column, keys: seq<Value>): (rows: set<Entity>)
    decreases |keys|
  {
    if keys == [] then {}
    else FoundRows(t, cls, col, keys[..|keys| - 1]) + Hit(t, cls, col, keys[|keys| - 1])
  }

  /** Every row the keys found is the row one of the keys finds. */
  lemma {:induction false} FoundRowsFromKeys(t: Table, cls: JClass, col: Column, keys: seq<Value>, e: Entity)
    requires e in FoundRows(t, cls, col, keys)
    ensures exists i | 0 <= i < |keys| :: Lookup(t, cls, col, keys[i]) == Success(Some(e))
    decreases |keys|
  {
    var init, last := keys[..|keys| - 1], |keys| - 1;
    if e in FoundRows(t, cls, col, init) {
      FoundRowsFromKeys(t, cls, col, init, e);
      var i :| 0 <= i < |init| && Lookup(t, cls, col, init[i]) == Success(Some(e));
      assert keys[i] == init[i];
    } else {
      assert Lookup(t, cls, col, keys[last]) == Success(Some(e));
    }
  }

  /** The row any one of the keys finds is among the rows found. */
  lemma {:induction false} FoundRowsHaveKeys(t: Table, cls: JClass, col: Column, keys: seq<Value>, i: nat)
    requires i < |keys| && Lookup(t, cls, col, keys[i]).Success? && Lookup(t, cls, col, keys[i]).value.Some?
    ensures Lookup(t, cls, col, keys[i]).value.value in FoundRows(t, cls, col, keys)
    decreases |keys|
  {
    var init, last := keys[..|keys| - 1], |keys| - 1;
    if i < last {
      assert init[i] == keys[i];
      FoundRowsHaveKeys(t, cls, col, init, i);
    }
  }

  /** Deleting the rows found, in any order, removes exactly their identities. */
  lemma DeleteFoundRows(t: Table, rows: set<Entity>, order: seq<Entity>, x: EntityId)
    requires Elements(order) == rows
    ensures Find(ApplyAll(t, Removes(IdsOf(order))), x) ==
            if exists e | e in rows :: IdOf(e) == x then None else Find(t, x)
  {
    FindAfterRemoves(t, IdsOf(order), x);
    if x in IdsOf(order) {
      var k :| 0 <= k < |order| && IdsOf(order)[k] == x;
      assert order[k] in Elements(order);
    }
    if exists e | e in rows :: IdOf(e) == x {
      var e :| e in rows && IdOf(e) == x;
      assert e in Elements(order);
      var k :| 0 <= k < |order| && order[k] == e;
      assert IdsOf(order)[k] == x;
    }
  }

  /** Deleting the row a key found leaves nothing for that key to find. */
  lemma DeleteThenGetFindsNothing(t: Table, rf: Reflection, objClass: JClass, dtoClass: DtoClass, col: Column, key: Value)
    requires UniqueIds(t)
    requires Lookup(t, dtoClass, col, key).Success? && Lookup(t, dtoClass, col, key).value.Some?
    ensures LoadSlot(RemoveId(t, IdOf(Lookup(t, dtoClass, col, key).value.value)), rf, objClass, dtoClass, col, key) == Success(None)
  {
    var e := Lookup(t, dtoClass, col, key).value.value;
    var found := Matching(t, dtoClass, col, key);
    assert UniqueResult(t, dtoClass, col, key) == Success(Some(e));
    assert found == [e];
    RemoveIdKeepsUniqueIds(t, IdOf(e));
    var t' := RemoveId(t, IdOf(e));
    forall x | x in t' ensures !Matches(x, dtoClass, col, key) {
      assert x in t && x != e;
      assert x !in found;
    }
  }

  /** Storing a dto and then reading it back by the value it holds in its index
      column finds that dto, as long as no other row of its class holds that value. */
  lemma StoreThenGetFindsIt(t: Table, rf: Reflection, objClass: JClass, d: Dto, key: Value)
    requires UniqueIds(t)
    requires IndexColumn(rf, d.cls, key).Success?
    requires IndexColumn(rf, d.cls, key).value in d.columns && d.columns[IndexColumn(rf, d.cls, key).value] == key
    requires forall e | e in t && Matches(e, d.cls, IndexColumn(rf, d.cls, key).value, key) :: IdOf(e) == IdOf(DtoRow(d))
    ensures LoadSlot(Put(t, DtoRow(d)), rf, objClass, d.cls, IndexColumn(rf, d.cls, key).value, key)
            == if rf.construct(objClass, DtoRow(d)).Some? then Success(rf.construct(objClass, DtoRow(d)))
               else Failure(OriannaException(LOAD_FAILED_MESSAGE))
  {
    QueryFindsPut(t, d, IndexColumn(rf, d.cls, key).value);
  }

  // ---------------------------------------------------------------------------
  // Completeness markers.

  /** The marker saying every object of `objClass` is stored. */
  function Marker(objClass: JClass): Entity {
    StatusRow(HasAll.StatusRecord(Some(objClass), true))
  }

  /** `checkHasAll` for `objClass` on table `t`: the flag of the marker for `objClass`, false when
      there is none. */
  function HasAllOf(t: Table, objClass: JClass): (r: Result<bool, StoreError>)
    ensures (forall e | e in t :: !Matches(e, HasAll.HAS_ALL_STATUS, "clazz", ClassValue(objClass))) ==> r == Success(false)
    ensures r == Success(true) ==> Marker(objClass) in t
  {
    var found :- Lookup(t, HasAll.HAS_ALL_STATUS, "clazz", ClassValue(objClass));
    StatusFlag(found)
  }

  /** What `checkHasAll` makes of the row its query returned: false for none, the
      flag of a marker, and the failed cast for any other row. */
  function StatusFlag(found: Option<Entity>): (r: Result<bool, StoreError>)
    ensures r == Success(true) <==> found.Some? && found.value.StatusRow? && found.value.status.hasAll
    ensures found.None? ==> r == Success(false)
  {
    match found
    case None => Success(false)
    case Some(StatusRow(status)) => Success(status.hasAll)
    case Some(DtoRow(_)) => Failure(ClassCast)
  }

  /** The batch `doStore(objs, keys, isFullSet)` saves: the dto of every object and,
      for a full set, the marker for the class of the first object. */
  function StoreBatch(objs: seq<OriannaObject>, isFullSet: bool): (items: set<Entity>)
    requires objs != []
    ensures Marker(objs[0].cls) in items <==> isFullSet
    ensures forall o | o in objs :: DtoRow(o.dto) in items
    ensures forall e | e in items :: (isFullSet && e == Marker(objs[0].cls)) || exists o | o in objs :: e == DtoRow(o.dto)
  {
    (if isFullSet then {Marker(objs[0].cls)} else {}) + set o | o in objs :: DtoRow(o.dto)
  }

  /** Saving a full-set batch, in any order, makes `checkHasAll` for the class of its
      first object true. */
  lemma {:induction false} FullSetStoreThenHasAll(t: Table, objs: seq<OriannaObject>, order: seq<Entity>)
    requires UniqueIds(t)
    requires objs != []
    requires Elements(order) == StoreBatch(objs, true)
    ensures HasAllOf(ApplyAll(t, Merges(order)), objs[0].cls) == Success(true)
  {
    var objClass := objs[0].cls;
    var m := Marker(objClass);
    var t' := ApplyAll(t, Merges(order));
    assert m in order by {
      assert m in Elements(order);
    }
    forall e | e in order && IdOf(e) == IdOf(m) ensures e == m {
      assert e in Elements(order);
    }
    LastWithIdUnique(order, m);
    FindAfterMerges(t, order, IdOf(m));
    FindIsIn(t', IdOf(m));
    ApplyAllKeepsUniqueIds(t, Merges(order));
    var found := Matching(t', HasAll.HAS_ALL_STATUS, "clazz", ClassValue(objClass));
    forall x | x in found ensures IdOf(x) == IdOf(m) {
      assert x.StatusRow? && x.status.clazz.Some? && ClassValue(x.status.clazz.value) == ClassValue(objClass);
      assert x.status.clazz.value.name == objClass.name;
    }
    MatchingOfUniqueIds(t', HasAll.HAS_ALL_STATUS, "clazz", ClassValue(objClass), IdOf(m));
    assert m in found;
    assert found[0] in found;
  }

  /** Saving a batch without a marker leaves `checkHasAll` as it was, for every class. */
  lemma {:induction false} PartialStoreKeepsHasAll(t: Table, objs: seq<OriannaObject>, order: seq<Entity>, objClass: JClass)
    requires objs != []
    requires Elements(order) == StoreBatch(objs, false)
    ensures HasAllOf(ApplyAll(t, Merges(order)), objClass) == HasAllOf(t, objClass)
  {
    forall e | e in order ensures ClassOf(e) != HasAll.HAS_ALL_STATUS {
      assert e in Elements(order);
    }
    MatchingAfterMergesOfOtherClass(t, order, HasAll.HAS_ALL_STATUS, "clazz", ClassValue(objClass));
  }

  // ---------------------------------------------------------------------------
  // The builder.

  /** A Hibernate `Configuration`: its properties. */
  datatype Configuration = Configuration(properties: map<string, string>) {
    function SetProperty(name: string, value: string): Configuration {
      Configuration(properties[name := value])
    }
  }

  class Builder {
    var autoSchema: string
    var cacheProvider: string
    var dialect: string
    var driver: string
    var entityClearThreshold: Int32
    var password: Option<string>
    var showSQL: bool
    var url: Option<string>
    var username: Option<string>

    /** A builder with the defaults: schema `update`, cache provider `none`, the
        MySQL dialect and driver, threshold 100, no SQL echo, no credentials. */
    constructor ()
      ensures autoSchema == "update" && cacheProvider == "none"
      ensures dialect == "org.hibernate.dialect.MySQLDialect" && driver == "com.mysql.jdbc.Driver"
      ensures entityClearThreshold == 100 && !showSQL
      ensures url == None && username == None && password == None
    {
      autoSchema := "update";
      cacheProvider := "none";
      dialect := "org.hibernate.dialect.MySQLDialect";
      driver := "com.mysql.jdbc.Driver";
      entityClearThreshold := 100;
      password := None;
      showSQL := false;
      url := None;
      username := None;
    }

    method AutoSchema(autoSchema: string) returns (b: Builder)
      modifies this`autoSchema
      ensures b == this && this.autoSchema == autoSchema
    {
      this.autoSchema := autoSchema;
      b := this;
    }

    method CacheProvider(cacheProvider: string) returns (b: Builder)
      modifies this`cacheProvider
      ensures b == this && this.cacheProvider == cacheProvider
    {
      this.cacheProvider := cacheProvider;
      b := this;
    }

    method Dialect(dialect: string) returns (b: Builder)
      modifies this`dialect
      ensures b == this && this.dialect == dialect
    {
      this.dialect := dialect;
      b := this;
    }

    method Driver(driver: string) returns (b: Builder)
      modifies this`driver
      ensures b == this && this.driver == driver
    {
      this.driver := driver;
      b := this;
    }

    method EntityClearThreshold(entityClearThreshold: Int32) returns (b: Builder)
      modifies this`entityClearThreshold
      ensures b == this && this.entityClearThreshold == entityClearThreshold
    {
      this.entityClearThreshold := entityClearThreshold;
      b := this;
    }

    method Password(password: Option<string>) returns (b: Builder)
      modifies this`password
      ensures b == this && this.password == password
    {
      this.password := password;
      b := this;
    }

    method ShowSQL(showSQL: bool) returns (b: Builder)
      modifies this`showSQL
      ensures b == this && this.showSQL == showSQL
    {
      this.showSQL := showSQL;
      b := this;
    }

    method URL(url: Option<string>) returns (b: Builder)
      modifies this`url
      ensures b == this && this.url == url
    {
      this.url := url;
      b := this;
    }

    method Username(username: Option<string>) returns (b: Builder)
      modifies this`username
      ensures b == this && this.username == username
    {
      this.username := username;
      b := this;
    }

    /** `build()`: the store for the configuration, or the error when a credential
        is missing. */
    method Build(reflection: Reflection, stored: Table) returns (r: Result<HibernateDB, StoreError>)
      requires UniqueIds(stored)
      ensures r.Failure? <==> Configure().Failure?
      ensures r.Failure? ==> r.error == Configure().error
      ensures r.Success? ==> fresh(r.value) && fresh(r.value.sessionManager) && r.value.Valid()
      ensures r.Success? ==> r.value.configuration == Configure().value && r.value.entityClearThreshold == entityClearThreshold
      ensures r.Success? ==> r.value.reflection == reflection && r.value.table == stored
    {
      var configuration :- Configure();
      var db := new HibernateDB(configuration, entityClearThreshold, reflection, stored);
      r := Success(db);
    }

    /** The configuration `build` hands to the store: an error unless the URL, the
        user name and the password are all set; otherwise the eight `hibernate.*`
        properties, taken from the builder's fields. */
    function Configure(): (r: Result<Configuration, StoreError>)
      reads this
      ensures r.Failure? <==> url.None? || username.None? || password.None?
      ensures r.Failure? ==> r.error == IllegalArgument(MISSING_CREDENTIALS_MESSAGE)
      ensures r.Success? ==> r.value.properties == map[
                "hibernate.dialect" := dialect,
                "hibernate.connection.driver_class" := driver,
                "hibernate.connection.url" := url.value,
                "hibernate.connection.username" := username.value,
                "hibernate.connection.password" := password.value,
                "hibernate.cache.provider_class" := cacheProvider,
                "hibernate.show_sql" := if showSQL then "true" else "false",
                "hibernate.hbm2ddl.auto" := autoSchema]
    {
      if url.None? || username.None? || password.None? then
        Failure(IllegalArgument(MISSING_CREDENTIALS_MESSAGE))
      else
        Success(Configuration(map[])
          .SetProperty("hibernate.dialect", dialect)
          .SetProperty("hibernate.connection.driver_class", driver)
          .SetProperty("hibernate.connection.url", url.value)
          .SetProperty("hibernate.connection.username", username.value)
          .SetProperty("hibernate.connection.password", password.value)
          .SetProperty("hibernate.cache.provider_class", cacheProvider)
          .SetProperty("hibernate.show_sql", BooleanToString(showSQL))
          .SetProperty("hibernate.hbm2ddl.auto", autoSchema))
    }
  }

  // ---------------------------------------------------------------------------
  // Cursors.

  /** A forward-only cursor over rows (`ScrollableResults`). */
  class Cursor {
    const rows: seq<Entity>
    /** How many rows have been stepped onto; the current row is the last of them. */
    var position: nat
    var closed: bool

    constructor (rows: seq<Entity>)
      ensures this.rows == rows && position == 0 && !closed
    {
      this.rows := rows;
      position := 0;
      closed := false;
    }

    /** `next()`: step onto the next row, if there is one. */
    method Next() returns (more: bool)
      requires position <= |rows|
      modifies this`position
      ensures more <==> old(position) < |rows|
      ensures position == if more then old(position) + 1 else old(position)
    {
      more := position < |rows|;
      if more {
        position := position + 1;
      }
    }

    /** `get(0)`: the current row. */
    function Get(): (e: Entity)
      reads this
      requires 0 < position <= |rows|
      ensures e in rows && e == rows[position - 1]
    {
      rows[position - 1]
    }

    /** `close()`: the cursor is released; its rows and position stay as they were. */
    method Close()
      modifies this`closed
      ensures closed
    {
      closed := true;
    }
  }

  // ---------------------------------------------------------------------------
  // Calls on a session.

  /** A call the store makes on a Hibernate session. */
  datatype Call =
    | BeginCall(session: Sessions.Session)
    | MergeCall(session: Sessions.Session, entity: Entity)
    | DeleteCall(session: Sessions.Session, entity: Entity)
    | FlushCall(session: Sessions.Session)
    | ClearCall(session: Sessions.Session)
    | CommitCall(session: Sessions.Session)

  /** `ops` is a transaction on `s` still open: it began, and since then made only
      merges, deletes, flushes and clears on `s`. */
  predicate OpenTransaction(ops: seq<Call>, s: Sessions.Session) {
    && |ops| >= 1
    && ops[0] == BeginCall(s)
    && forall i | 1 <= i < |ops| :: ops[i].session == s && !ops[i].BeginCall? && !ops[i].CommitCall?
  }

  /** `ops` is exactly one transaction on `s`, committed once at its end. */
  predicate OneTransaction(ops: seq<Call>, s: Sessions.Session) {
    |ops| >= 2 && OpenTransaction(ops[..|ops| - 1], s) && ops[|ops| - 1] == CommitCall(s)
  }

  /** Every clear comes straight after a flush, so no merge is dropped. */
  predicate FlushBeforeClear(ops: seq<Call>) {
    forall i | 0 <= i < |ops| && ops[i].ClearCall? :: 0 < i && ops[i - 1].FlushCall?
  }

  /** The entities merged by `ops`, in order. */
  function MergedIn(ops: seq<Call>): seq<Entity>
    decreases |ops|
  {
    if ops == [] then []
    else MergedIn(ops[..|ops| - 1]) + if ops[|ops| - 1].MergeCall? then [ops[|ops| - 1].entity] else []
  }

  /** The entities deleted by `ops`, in order. */
  function DeletedIn(ops: seq<Call>): seq<Entity>
    decreases |ops|
  {
    if ops == [] then []
    else DeletedIn(ops[..|ops| - 1]) + if ops[|ops| - 1].DeleteCall? then [ops[|ops| - 1].entity] else []
  }

  lemma CallsAppend(ops: seq<Call>, c: Call)
    ensures MergedIn(ops + [c]) == MergedIn(ops) + if c.MergeCall? then [c.entity] else []
    ensures DeletedIn(ops + [c]) == DeletedIn(ops) + if c.DeleteCall? then [c.entity] else []
  {
    assert (ops + [c])[..|ops|] == ops;
  }

  /** `beginTransaction()` opens a transaction that has merged and deleted nothing. */
  lemma Begin(s: Sessions.Session)
    ensures OpenTransaction([BeginCall(s)], s) && FlushBeforeClear([BeginCall(s)])
    ensures MergedIn([BeginCall(s)]) == [] && DeletedIn([BeginCall(s)]) == []
  {
    assert [BeginCall(s)][..0] == [];
  }

  /** A merge, delete, flush or clear on `s` keeps the transaction open; a clear keeps
      every clear after a flush when it follows one. */
  lemma Continue(ops: seq<Call>, s: Sessions.Session, c: Call)
    requires OpenTransaction(ops, s) && c.session == s && !c.BeginCall? && !c.CommitCall?
    ensures OpenTransaction(ops + [c], s)
    ensures FlushBeforeClear(ops) && (c.ClearCall? ==> ops[|ops| - 1].FlushCall?) ==> FlushBeforeClear(ops + [c])
    ensures MergedIn(ops + [c]) == MergedIn(ops) + if c.MergeCall? then [c.entity] else []
    ensures DeletedIn(ops + [c]) == DeletedIn(ops) + if c.DeleteCall? then [c.entity] else []
  {
    CallsAppend(ops, c);
    var ops' := ops + [c];
    forall i | 1 <= i < |ops'|
      ensures ops'[i].session == s && !ops'[i].BeginCall? && !ops'[i].CommitCall?
    {
      if i < |ops| {
        assert ops'[i] == ops[i];
      }
    }
    if FlushBeforeClear(ops) && (c.ClearCall? ==> ops[|ops| - 1].FlushCall?) {
      forall i | 0 <= i < |ops'| && ops'[i].ClearCall?
        ensures 0 < i && ops'[i - 1].FlushCall?
      {
        if i < |ops| {
          assert ops'[i] == ops[i];
          assert ops'[i - 1] == ops[i - 1];
        }
      }
    }
  }

  /** The calls of a save on `s` that merges `order`: one transaction, and every
      clear straight after a flush. */
  predicate SaveCalls(ops: seq<Call>, s: Sessions.Session, order: seq<Entity>) {
    OneTransaction(ops, s) && FlushBeforeClear(ops) && MergedIn(ops) == order && DeletedIn(ops) == []
  }

  /** The calls of a delete on `s` that deletes `order`: one transaction, nothing merged. */
  predicate DeleteCalls(ops: seq<Call>, s: Sessions.Session, order: seq<Entity>) {
    OneTransaction(ops, s) && DeletedIn(ops) == order && MergedIn(ops) == []
  }

  lemma MergesAppend(es: seq<Entity>, e: Entity)
    ensures Merges(es + [e]) == Merges(es) + [Merge(e)]
  {
  }

  lemma RemovesAppend(es: seq<Entity>, e: Entity)
    ensures Removes(IdsOf(es + [e])) == Removes(IdsOf(es)) + [Remove(IdOf(e))]
  {
    assert IdsOf(es + [e]) == IdsOf(es) + [IdOf(e)];
  }

  lemma ElementsAppend<T>(s: seq<T>, x: T)
    ensures Elements(s + [x]) == Elements(s) + {x}
  {
  }

  /** Committing an open transaction that merged `order` gives the calls of a save. */
  lemma CommitEndsSave(ops: seq<Call>, s: Sessions.Session, order: seq<Entity>)
    requires OpenTransaction(ops, s) && FlushBeforeClear(ops) && MergedIn(ops) == order && DeletedIn(ops) == []
    ensures SaveCalls(ops + [CommitCall(s)], s, order)
  {
    CallsAppend(ops, CommitCall(s));
    assert (ops + [CommitCall(s)])[..|ops|] == ops;
  }

  /** Committing an open transaction that deleted `order` gives the calls of a delete. */
  lemma CommitEndsDelete(ops: seq<Call>, s: Sessions.Session, order: seq<Entity>)
    requires OpenTransaction(ops, s) && DeletedIn(ops) == order && MergedIn(ops) == []
    ensures DeleteCalls(ops + [CommitCall(s)], s, order)
  {
    CallsAppend(ops, CommitCall(s));
    assert (ops + [CommitCall(s)])[..|ops|] == ops;
  }

  /** The work of `hibernateSave` between `beginTransaction` and `commit` on session
      `s`, which manages `managed0` when it begins: one merge, then a flush and a clear
      if the session manages `threshold` entities or more. */
  method MergeOne(s: Sessions.Session, managed0: set<EntityId>, e: Entity, threshold: Int32)
    returns (ctx: Context, ghost ops: seq<Call>)
    ensures Pending(ctx) == [Merge(e)]
    ensures OpenTransaction(ops, s) && FlushBeforeClear(ops) && MergedIn(ops) == [e] && DeletedIn(ops) == []
    ensures ctx.managed == ManagedAfterMerges(managed0, [e], threshold)
    ensures ctx.managed == if |managed0 + {IdOf(e)}| >= threshold as int then {} else managed0 + {IdOf(e)}
    ensures 1 <= threshold ==> |ctx.managed| < threshold as int
  {
    ctx := Context(managed0, [], [], true);
    Begin(s);
    ops := [BeginCall(s)];
    MergeStep(ctx, managed0, [], ops, s, threshold, e);
    ctx := MergeInto(ctx, e);
    ops := ops + [MergeCall(s, e)];
    if |ctx.managed| >= threshold as int {
      ctx := Flush(ctx);
      ctx := Clear(ctx);
      ops := ops + [FlushCall(s), ClearCall(s)];
    }
    assert [] + [e] == [e];
  }

  /** What a session that manages `managed0` when its transaction begins manages
      after merging `es` in order: each merge adds the entity's identity, and the
      session is cleared whenever it comes to manage `threshold` entities or more. */
  function ManagedAfterMerges(managed0: set<EntityId>, es: seq<Entity>, threshold: Int32): set<EntityId>
    decreases |es|
  {
    if es == [] then managed0
    else
      var merged := ManagedAfterMerges(managed0, es[..|es| - 1], threshold) + {IdOf(es[|es| - 1])};
      if |merged| >= threshold as int then {} else merged
  }

  /** What the loop of `hibernateSaveAll` keeps: the writes pending are the merges of
      `order`, the calls so far are an open transaction on `s` that merged `order`, and
      the session manages fewer than `threshold` entities after each merge. */
  ghost predicate Merging(ctx: Context, managed0: set<EntityId>, order: seq<Entity>, ops: seq<Call>,
                          s: Sessions.Session, threshold: Int32) {
    && Pending(ctx) == Merges(order) && ctx.managed == ManagedAfterMerges(managed0, order, threshold)
    && OpenTransaction(ops, s) && FlushBeforeClear(ops) && MergedIn(ops) == order && DeletedIn(ops) == []
    && (order != [] && 1 <= threshold ==> |ctx.managed| < threshold as int)
  }

  /** A flush followed by a clear keeps the transaction open, merges and deletes
      nothing, and puts the clear straight after the flush. */
  lemma FlushAndClear(ops: seq<Call>, s: Sessions.Session)
    requires OpenTransaction(ops, s) && FlushBeforeClear(ops)
    ensures OpenTransaction(ops + [FlushCall(s), ClearCall(s)], s) && FlushBeforeClear(ops + [FlushCall(s), ClearCall(s)])
    ensures MergedIn(ops + [FlushCall(s), ClearCall(s)]) == MergedIn(ops)
    ensures DeletedIn(ops + [FlushCall(s), ClearCall(s)]) == DeletedIn(ops)
  {
    Continue(ops, s, FlushCall(s));
    Continue(ops + [FlushCall(s)], s, ClearCall(s));
    assert ops + [FlushCall(s)] + [ClearCall(s)] == ops + [FlushCall(s), ClearCall(s)];
  }

  /** A merge keeps the transaction open and adds one write and one merged entity. */
  lemma MergeKeeps(ctx: Context, managed0: set<EntityId>, order: seq<Entity>, ops: seq<Call>, s: Sessions.Session,
                   threshold: Int32, e: Entity)
    requires Merging(ctx, managed0, order, ops, s, threshold)
    ensures Pending(MergeInto(ctx, e)) == Merges(order + [e])
    ensures OpenTransaction(ops + [MergeCall(s, e)], s) && FlushBeforeClear(ops + [MergeCall(s, e)])
    ensures MergedIn(ops + [MergeCall(s, e)]) == order + [e] && DeletedIn(ops + [MergeCall(s, e)]) == []
  {
    Continue(ops, s, MergeCall(s, e));
    MergesAppend(order, e);
  }

  /** One turn of `hibernateSaveAll`'s loop keeps `Merging`: merge `e`, then flush and
      clear if the session now manages `threshold` entities or more. */
  lemma MergeStep(ctx: Context, managed0: set<EntityId>, order: seq<Entity>, ops: seq<Call>, s: Sessions.Session,
                   threshold: Int32, e: Entity)
    requires Merging(ctx, managed0, order, ops, s, threshold)
    ensures var merged, ops' := MergeInto(ctx, e), ops + [MergeCall(s, e)];
            if |merged.managed| >= threshold as int
            then Merging(Clear(Flush(merged)), managed0, order + [e], ops' + [FlushCall(s), ClearCall(s)], s, threshold)
            else Merging(merged, managed0, order + [e], ops', s, threshold)
  {
    MergeKeeps(ctx, managed0, order, ops, s, threshold, e);
    assert (order + [e])[..|order|] == order;
    var merged := MergeInto(ctx, e);
    if |merged.managed| >= threshold as int {
      FlushAndClear(ops + [MergeCall(s, e)], s);
      FlushThenClearKeepsWrites(merged);
    }
  }

  /** Taking one element out of a set shrinks it by one. */
  lemma TakeOne<T>(rest: set<T>, e: T)
    requires e in rest
    ensures |rest - {e}| == |rest| - 1
  {
  }

  /** Iterating over a Java `Set`: each element once, in an order the set chooses. */
  method Enumerate<T>(items: set<T>) returns (order: seq<T>)
    ensures Elements(order) == items && |order| == |items|
  {
    order := [];
    var rest := items;
    while rest != {}
      invariant rest <= items && Elements(order) == items - rest && |order| + |rest| == |items|
      decreases |rest|
    {
      var e :| e in rest;
      ElementsAppend(order, e);
      TakeOne(rest, e);
      order := order + [e];
      rest := rest - {e};
    }
  }

  /** The loop of `hibernateSaveAll` on session `s`, which manages `managed0` when the
      transaction begins: every item merged, in the iteration order `items`, with a
      flush and a clear whenever the session has come to manage `threshold` entities. */
  method MergeAll(s: Sessions.Session, managed0: set<EntityId>, items: seq<Entity>, threshold: Int32)
    returns (ctx: Context, ghost ops: seq<Call>)
    ensures Pending(ctx) == Merges(items)
    ensures OpenTransaction(ops, s) && FlushBeforeClear(ops) && MergedIn(ops) == items && DeletedIn(ops) == []
    ensures ctx.managed == ManagedAfterMerges(managed0, items, threshold)
    ensures items != [] && 1 <= threshold ==> |ctx.managed| < threshold as int
  {
    ctx := Context(managed0, [], [], true);
    Begin(s);
    ops := [BeginCall(s)];
    for i := 0 to |items|
      invariant Merging(ctx, managed0, items[..i], ops, s, threshold)
    {
      assert items[..i + 1] == items[..i] + [items[i]];
      MergeStep(ctx, managed0, items[..i], ops, s, threshold, items[i]);
      ctx := MergeInto(ctx, items[i]);
      ops := ops + [MergeCall(s, items[i])];
      if |ctx.managed| >= threshold as int {
        ctx := Flush(ctx);
        ctx := Clear(ctx);
        ops := ops + [FlushCall(s), ClearCall(s)];
      }
    }
    assert items[..|items|] == items;
  }

  /** What the loop of `hibernateDeleteAll` keeps: the writes pending are the removals
      of `order`, the session no longer manages them, and the calls so far are an open
      transaction on `s` that deleted `order`. */
  ghost predicate Deleting(ctx: Context, managed0: set<EntityId>, order: seq<Entity>, ops: seq<Call>, s: Sessions.Session) {
    && Pending(ctx) == Removes(IdsOf(order)) && ctx.managed == managed0 - Elements(IdsOf(order))
    && OpenTransaction(ops, s) && DeletedIn(ops) == order && MergedIn(ops) == []
  }

  /** One turn of `hibernateDeleteAll`'s loop keeps `Deleting`. */
  lemma DeleteStep(ctx: Context, managed0: set<EntityId>, order: seq<Entity>, ops: seq<Call>, s: Sessions.Session, e: Entity)
    requires Deleting(ctx, managed0, order, ops, s)
    ensures Deleting(DeleteFrom(ctx, e), managed0, order + [e], ops + [DeleteCall(s, e)], s)
  {
    Continue(ops, s, DeleteCall(s, e));
    RemovesAppend(order, e);
    assert IdsOf(order + [e]) == IdsOf(order) + [IdOf(e)];
    ElementsAppend(IdsOf(order), IdOf(e));
  }

  /** The loop of `hibernateDeleteAll` on session `s`: every item deleted, in the
      iteration order `items`. */
  method DeleteAllOf(s: Sessions.Session, managed0: set<EntityId>, items: seq<Entity>)
    returns (ctx: Context, ghost ops: seq<Call>)
    ensures Pending(ctx) == Removes(IdsOf(items))
    ensures ctx.managed == managed0 - Elements(IdsOf(items))
    ensures OpenTransaction(ops, s) && DeletedIn(ops) == items && MergedIn(ops) == []
  {
    ctx := Context(managed0, [], [], true);
    Begin(s);
    ops := [BeginCall(s)];
    for i := 0 to |items|
      invariant Deleting(ctx, managed0, items[..i], ops, s)
    {
      DeleteStep(ctx, managed0, items[..i], ops, s, items[i]);
      ctx := DeleteFrom(ctx, items[i]);
      ops := ops + [DeleteCall(s, items[i])];
      assert items[..i + 1] == items[..i] + [items[i]];
    }
    assert items[..|items|] == items;
  }

  // ---------------------------------------------------------------------------
  // What the sessions manage and the session registry, across calls.

  /** What session `s` manages according to `m`: nothing until it has loaded something. */
  function Entry(m: map<Sessions.Session, set<EntityId>>, s: Sessions.Session): set<EntityId> {
    if s in m then m[s] else {}
  }

  /** The identities of `rows`. */
  function IdSet(rows: set<Entity>): set<EntityId> {
    set e | e in rows :: IdOf(e)
  }

  /** What the sessions manage once session `s` has also loaded `rows`; loading
      nothing changes nothing. */
  function Loaded(m: map<Sessions.Session, set<EntityId>>, s: Sessions.Session, rows: set<Entity>)
    : map<Sessions.Session, set<EntityId>>
  {
    if rows == {} then m else m[s := Entry(m, s) + IdSet(rows)]
  }

  /** Loading `a` and then `b` on one session is loading both. */
  lemma LoadedTwice(m: map<Sessions.Session, set<EntityId>>, s: Sessions.Session, a: set<Entity>, b: set<Entity>)
    ensures Loaded(Loaded(m, s, a), s, b) == Loaded(m, s, a + b)
  {
    if a == {} {
      assert a + b == b;
    } else if b == {} {
      assert a + b == a;
    } else {
      var x :| x in a;
      assert x in a + b;
      assert IdSet(a + b) == IdSet(a) + IdSet(b);
      var once := m[s := Entry(m, s) + IdSet(a)];
      assert Entry(once, s) == Entry(m, s) + IdSet(a);
      assert Entry(once, s) + IdSet(b) == Entry(m, s) + IdSet(a + b);
      assert once[s := Entry(once, s) + IdSet(b)] == m[s := Entry(m, s) + IdSet(a + b)];
    }
  }

  /** A session that loads rows and then deletes them manages what it managed, less
      those rows. */
  lemma LoadedThenDeleted(m: map<Sessions.Session, set<EntityId>>, s: Sessions.Session, rows: set<Entity>)
    ensures Loaded(m, s, rows)[s := Entry(Loaded(m, s, rows), s) - IdSet(rows)] == m[s := Entry(m, s) - IdSet(rows)]
  {
    assert Entry(m, s) + IdSet(rows) - IdSet(rows) == Entry(m, s) - IdSet(rows);
  }

  /** The identities of a sequence's elements are the elements of its identities. */
  lemma IdsOfElements(es: seq<Entity>)
    ensures Elements(IdsOf(es)) == IdSet(Elements(es))
  {
    forall x | x in IdSet(Elements(es)) ensures x in Elements(IdsOf(es)) {
      var e :| e in Elements(es) && IdOf(e) == x;
      var k :| 0 <= k < |es| && es[k] == e;
      assert IdsOf(es)[k] == x;
    }
  }

  /** The session registry once `worker` has asked for a session: the worker is
      registered while the factory is open; otherwise nothing changes. */
  function AfterAcquire(g: Sessions.Registry, worker: Sessions.Worker, factoryOpen: bool): Sessions.Registry {
    if factoryOpen then Sessions.Acquire(g, worker).0 else g
  }

  /** Where a run of reads on behalf of `worker` stands after the keys `ks`, starting
      from the registry `g0` and the managed sets `m0` over the table `t`: nothing has
      happened before the first key; after it the worker is registered and its session
      manages, besides what it managed, the rows the keys found. */
  ghost predicate ReadsSoFar(g: Sessions.Registry, m: map<Sessions.Session, set<EntityId>>, g0: Sessions.Registry,
                             m0: map<Sessions.Session, set<EntityId>>, worker: Sessions.Worker, t: Table,
                             cls: JClass, col: Column, ks: seq<Value>) {
    if ks == [] then g == g0 && m == m0
    else worker in g.sessions && g == Sessions.Acquire(g0, worker).0 &&
         m == Loaded(m0, g.sessions[worker], FoundRows(t, cls, col, ks))
  }

  /** One more read keeps `ReadsSoFar`: asking for a session again hands out the same
      one, and what it loads adds to what it manages. */
  lemma ReadsStep(g: Sessions.Registry, m: map<Sessions.Session, set<EntityId>>, g': Sessions.Registry,
                  m': map<Sessions.Session, set<EntityId>>, g0: Sessions.Registry, m0: map<Sessions.Session, set<EntityId>>,
                  worker: Sessions.Worker, t: Table, cls: JClass, col: Column, keys: seq<Value>, i: nat)
    requires i < |keys| && ReadsSoFar(g, m, g0, m0, worker, t, cls, col, keys[..i])
    requires g' == Sessions.Acquire(g, worker).0
    requires m' == Loaded(m, g'.sessions[worker], Hit(t, cls, col, keys[i]))
    ensures ReadsSoFar(g', m', g0, m0, worker, t, cls, col, keys[..i + 1])
  {
    var ks := keys[..i + 1];
    assert ks[..i] == keys[..i] && ks[i] == keys[i];
    LoadedTwice(m0, g'.sessions[worker], FoundRows(t, cls, col, keys[..i]), Hit(t, cls, col, keys[i]));
  }

  // ---------------------------------------------------------------------------
  // The store.

  class HibernateDB {
    const configuration: Configuration
    const entityClearThreshold: Int32
    const sessionManager: Sessions.SessionManager
    const reflection: Reflection
    /** What the database holds, as committed. */
    var table: Table
    /** The identities each session manages; their number is the session's entity count. */
    var managed: map<Sessions.Session, set<EntityId>>
    /** Every call made on a session, in order. */
    ghost var calls: seq<Call>

    ghost predicate Valid()
      reads this, sessionManager
    {
      sessionManager.Valid() && UniqueIds(table)
    }

    function ManagedBy(s: Sessions.Session): set<EntityId>
      reads this
    {
      Entry(managed, s)
    }

    /** The store over the database `stored` the configuration names, with a new
        session manager whose cleaner runs every `CHECK_MILLIS`. */
    constructor (configuration: Configuration, entityClearThreshold: Int32, reflection: Reflection, stored: Table)
      requires UniqueIds(stored)
      ensures Valid() && fresh(sessionManager)
      ensures this.configuration == configuration && this.entityClearThreshold == entityClearThreshold
      ensures this.reflection == reflection && table == stored && managed == map[] && calls == []
      ensures sessionManager.factoryOpen && sessionManager.sessions == map[] && sessionManager.checkMillis == CHECK_MILLIS
    {
      this.configuration := configuration;
      this.entityClearThreshold := entityClearThreshold;
      this.reflection := reflection;
      sessionManager := new Sessions.SessionManager(CHECK_MILLIS);
      table := stored;
      managed := map[];
      calls := [];
    }

    /** `sessionManager.getSession()` for the calling worker, failing once the session
        or the factory is closed. */
    method AcquireSession(worker: Sessions.Worker) returns (r: Result<Sessions.Session, StoreError>)
      requires Valid()
      modifies sessionManager`sessions, sessionManager`nextSessionId
      ensures Valid()
      ensures r.Success? <==> sessionManager.factoryOpen
      ensures r.Success? ==> worker in sessionManager.sessions && sessionManager.sessions[worker] == r.value
      ensures r.Failure? ==> r.error == ClosedSession
      ensures sessionManager.View() == AfterAcquire(old(sessionManager.View()), worker, sessionManager.factoryOpen)
      ensures r.Success? ==> r.value == Sessions.Acquire(old(sessionManager.View()), worker).1
    {
      var got := sessionManager.GetSession(worker);
      if got.Failure? {
        return Failure(ClosedSession);
      }
      assert sessionManager.sessions[worker] in sessionManager.sessions.Values;
      if !sessionManager.IsOpen(got.value) {
        return Failure(ClosedSession);
      }
      r := Success(got.value);
    }

    /** `hibernateGet(cls, col, key)`: the unique matching row, which the session then
        manages. */
    method HibernateGet(worker: Sessions.Worker, cls: JClass, col: Column, key: Value)
      returns (r: Result<Option<Entity>, StoreError>)
      requires Valid()
      modifies this`managed, sessionManager`sessions, sessionManager`nextSessionId
      ensures Valid()
      ensures sessionManager.View() == AfterAcquire(old(sessionManager.View()), worker, sessionManager.factoryOpen)
      ensures sessionManager.factoryOpen ==> r == Lookup(table, cls, col, key) && worker in sessionManager.sessions
      ensures sessionManager.factoryOpen ==>
                managed == Loaded(old(managed), sessionManager.sessions[worker], Hit(table, cls, col, key))
      ensures !sessionManager.factoryOpen ==> r == Failure(ClosedSession) && unchanged(this)
    {
      var s :- AcquireSession(worker);
      r := Lookup(table, cls, col, key);
      if r.Success? && r.value.Some? {
        assert IdSet({r.value.value}) == {IdOf(r.value.value)};
        managed := managed[s := ManagedBy(s) + {IdOf(r.value.value)}];
      }
    }

    /** `hibernateGetAll(cls)`: a cursor over the rows of `cls`. */
    method HibernateGetAll(worker: Sessions.Worker, cls: JClass) returns (r: Result<Cursor, StoreError>)
      requires Valid()
      modifies sessionManager`sessions, sessionManager`nextSessionId
      ensures Valid()
      ensures r.Success? <==> sessionManager.factoryOpen
      ensures r.Failure? ==> r.error == ClosedSession
      ensures sessionManager.View() == AfterAcquire(old(sessionManager.View()), worker, sessionManager.factoryOpen)
      ensures r.Success? ==>
                fresh(r.value) && r.value.rows == RowsOf(table, cls) && r.value.position == 0 && !r.value.closed
    {
      var s :- AcquireSession(worker);
      var cursor := new Cursor(RowsOf(table, cls));
      r := Success(cursor);
    }

    /** `hibernateSave(e)`: merge `e` in a transaction of its own, flushing and clearing
        the session once it manages `entityClearThreshold` entities. */
    method HibernateSave(worker: Sessions.Worker, e: Entity) returns (r: Result<(), StoreError>, ghost ops: seq<Call>)
      requires Valid()
      modifies this`table, this`managed, this`calls, sessionManager`sessions, sessionManager`nextSessionId
      ensures Valid()
      ensures r.Success? <==> sessionManager.factoryOpen
      ensures r.Failure? ==> r.error == ClosedSession && unchanged(this)
      ensures r.Success? ==> worker in sessionManager.sessions
      ensures sessionManager.View() == AfterAcquire(old(sessionManager.View()), worker, sessionManager.factoryOpen)
      ensures r.Success? ==> table == Put(old(table), e)
      ensures r.Success? ==>
                var s := sessionManager.sessions[worker];
                managed == old(managed)[s := ManagedAfterMerges(Entry(old(managed), s), [e], entityClearThreshold)]
      ensures r.Success? ==> calls == old(calls) + ops && SaveCalls(ops, sessionManager.sessions[worker], [e])
      ensures r.Success? && 1 <= entityClearThreshold ==>
                |ManagedBy(sessionManager.sessions[worker])| < entityClearThreshold as int
    {
      ops := [];
      var got := AcquireSession(worker);
      if got.Failure? {
        return Failure(got.error), ops;
      }
      var s := got.value;
      var ctx;
      ctx, ops := MergeOne(s, ManagedBy(s), e, entityClearThreshold);
      CommitEndsSave(ops, s, [e]);
      ApplyAllSingle(table, Merge(e));
      PutKeepsUniqueIds(table, e);
      var committed := Commit(table, ctx);
      table := committed.0;
      managed := managed[s := committed.1.managed];
      ops := ops + [CommitCall(s)];
      calls := calls + ops;
      r := Success(());
    }

    /** `hibernateSaveAll(items)`: merge every item, in the set's iteration order, in
        one transaction committed once at the end; after each merge the session is
        flushed and cleared if it manages `entityClearThreshold` entities. */
    method HibernateSaveAll(worker: Sessions.Worker, items: set<Entity>)
      returns (r: Result<(), StoreError>, order: seq<Entity>, ghost ops: seq<Call>)
      requires Valid()
      modifies this`table, this`managed, this`calls, sessionManager`sessions, sessionManager`nextSessionId
      ensures Valid()
      ensures r.Success? <==> sessionManager.factoryOpen
      ensures r.Failure? ==> r.error == ClosedSession && unchanged(this)
      ensures r.Success? ==> worker in sessionManager.sessions
      ensures r.Success? ==> Elements(order) == items && |order| == |items|
      ensures sessionManager.View() == AfterAcquire(old(sessionManager.View()), worker, sessionManager.factoryOpen)
      ensures r.Success? ==> table == ApplyAll(old(table), Merges(order))
      ensures r.Success? ==>
                var s := sessionManager.sessions[worker];
                managed == old(managed)[s := ManagedAfterMerges(Entry(old(managed), s), order, entityClearThreshold)]
      ensures r.Success? ==> calls == old(calls) + ops && SaveCalls(ops, sessionManager.sessions[worker], order)
      ensures r.Success? && order != [] && 1 <= entityClearThreshold ==>
                |ManagedBy(sessionManager.sessions[worker])| < entityClearThreshold as int
    {
      order, ops := [], [];
      var got := AcquireSession(worker);
      if got.Failure? {
        return Failure(got.error), order, ops;
      }
      var s := got.value;
      order := Enumerate(items);
      var ctx;
      ctx, ops := MergeAll(s, ManagedBy(s), order, entityClearThreshold);
      CommitEndsSave(ops, s, order);
      ApplyAllKeepsUniqueIds(table, Merges(order));
      var committed := Commit(table, ctx);
      table := committed.0;
      managed := managed[s := committed.1.managed];
      ops := ops + [CommitCall(s)];
      calls := calls + ops;
      r := Success(());
    }

    /** `hibernateDelete(e)`: delete `e` in a transaction of its own. */
    method HibernateDelete(worker: Sessions.Worker, e: Entity) returns (r: Result<(), StoreError>, ghost ops: seq<Call>)
      requires Valid()
      modifies this`table, this`managed, this`calls, sessionManager`sessions, sessionManager`nextSessionId
      ensures Valid()
      ensures r.Success? <==> sessionManager.factoryOpen
      ensures r.Failure? ==> r.error == ClosedSession && unchanged(this)
      ensures r.Success? ==> worker in sessionManager.sessions
      ensures sessionManager.View() == AfterAcquire(old(sessionManager.View()), worker, sessionManager.factoryOpen)
      ensures r.Success? ==> table == RemoveId(old(table), IdOf(e))
      ensures r.Success? ==>
                var s := sessionManager.sessions[worker];
                managed == old(managed)[s := Entry(old(managed), s) - {IdOf(e)}]
      ensures r.Success? ==> calls == old(calls) + ops && DeleteCalls(ops, sessionManager.sessions[worker], [e])
    {
      ops := [];
      var got := AcquireSession(worker);
      if got.Failure? {
        return Failure(got.error), ops;
      }
      var s := got.value;
      var ctx := DeleteFrom(Context(ManagedBy(s), [], [], true), e);
      Begin(s);
      Continue([BeginCall(s)], s, DeleteCall(s, e));
      ops := [BeginCall(s), DeleteCall(s, e)];
      CommitEndsDelete(ops, s, [e]);
      assert Pending(ctx) == [Remove(IdOf(e))];
      ApplyAllSingle(table, Remove(IdOf(e)));
      RemoveIdKeepsUniqueIds(table, IdOf(e));
      var committed := Commit(table, ctx);
      table := committed.0;
      managed := managed[s := committed.1.managed];
      ops := ops + [CommitCall(s)];
      calls := calls + ops;
      r := Success(());
    }

    /** `hibernateDeleteAll(items)`: delete every item, in the set's iteration order,
        in one transaction. */
    method HibernateDeleteAll(worker: Sessions.Worker, items: set<Entity>)
      returns (r: Result<(), StoreError>, order: seq<Entity>, ghost ops: seq<Call>)
      requires Valid()
      modifies this`table, this`managed, this`calls, sessionManager`sessions, sessionManager`nextSessionId
      ensures Valid()
      ensures r.Success? <==> sessionManager.factoryOpen
      ensures r.Failure? ==> r.error == ClosedSession && unchanged(this)
      ensures r.Success? ==> worker in sessionManager.sessions
      ensures r.Success? ==> Elements(order) == items && |order| == |items|
      ensures sessionManager.View() == AfterAcquire(old(sessionManager.View()), worker, sessionManager.factoryOpen)
      ensures r.Success? ==> table == ApplyAll(old(table), Removes(IdsOf(order)))
      ensures r.Success? ==>
                var s := sessionManager.sessions[worker];
                managed == old(managed)[s := Entry(old(managed), s) - IdSet(items)]
      ensures r.Success? ==> calls == old(calls) + ops && DeleteCalls(ops, sessionManager.sessions[worker], order)
    {
      order, ops := [], [];
      var got := AcquireSession(worker);
      if got.Failure? {
        return Failure(got.error), order, ops;
      }
      var s := got.value;
      order := Enumerate(items);
      var ctx;
      ctx, ops := DeleteAllOf(s, ManagedBy(s), order);
      CommitEndsDelete(ops, s, order);
      IdsOfElements(order);
      ApplyAllKeepsUniqueIds(table, Removes(IdsOf(order)));
      var committed := Commit(table, ctx);
      table := committed.0;
      managed := managed[s := committed.1.managed];
      ops := ops + [CommitCall(s)];
      calls := calls + ops;
      r := Success(());
    }

    /** `checkHasAll(objClass)`: whether the marker for `objClass` says its full set
        is stored. */
    method CheckHasAll(worker: Sessions.Worker, objClass: JClass) returns (r: Result<bool, StoreError>)
      requires Valid()
      modifies this`managed, sessionManager`sessions, sessionManager`nextSessionId
      ensures Valid()
      ensures sessionManager.View() == AfterAcquire(old(sessionManager.View()), worker, sessionManager.factoryOpen)
      ensures sessionManager.factoryOpen ==> r == HasAllOf(table, objClass)
      ensures sessionManager.factoryOpen ==>
                managed == Loaded(old(managed), sessionManager.sessions[worker],
                                  Hit(table, HasAll.HAS_ALL_STATUS, "clazz", ClassValue(objClass)))
      ensures !sessionManager.factoryOpen ==> r == Failure(ClosedSession) && managed == old(managed)
    {
      var found :- HibernateGet(worker, HasAll.HAS_ALL_STATUS, "clazz", ClassValue(objClass));
      r := StatusFlag(found);
    }

    /** `doGet(type, key)`: the object stored under `key`, null when there is none,
        or the key-type exception, before any query, when keys of its class have no
        column. */
    method DoGet(worker: Sessions.Worker, objClass: JClass, dtoClass: DtoClass, key: Value)
      returns (r: Result<Option<OriannaObject>, StoreError>)
      requires Valid()
      modifies this`managed, sessionManager`sessions, sessionManager`nextSessionId
      ensures Valid()
      ensures IndexColumn(reflection, dtoClass, key).Failure? ==>
                r == Failure(KeyTypeError(key.cls)) && unchanged(this, sessionManager)
      ensures IndexColumn(reflection, dtoClass, key).Success? ==>
                sessionManager.View() == AfterAcquire(old(sessionManager.View()), worker, sessionManager.factoryOpen)
      ensures IndexColumn(reflection, dtoClass, key).Success? && !sessionManager.factoryOpen ==>
                r == Failure(ClosedSession) && managed == old(managed)
      ensures IndexColumn(reflection, dtoClass, key).Success? && sessionManager.factoryOpen ==>
                var col := IndexColumn(reflection, dtoClass, key).value;
                && r == LoadSlot(table, reflection, objClass, dtoClass, col, key)
                && managed == Loaded(old(managed), sessionManager.sessions[worker], Hit(table, dtoClass, col, key))
    {
      var col :- IndexColumn(reflection, dtoClass, key);
      r := LoadKey(worker, objClass, dtoClass, col, key);
    }

    /** The read of one key once its column is known: its query, then the object made
        of the row it returns. */
    method LoadKey(worker: Sessions.Worker, objClass: JClass, dtoClass: DtoClass, col: Column, key: Value)
      returns (r: Result<Option<OriannaObject>, StoreError>)
      requires Valid()
      modifies this`managed, sessionManager`sessions, sessionManager`nextSessionId
      ensures Valid()
      ensures sessionManager.View() == AfterAcquire(old(sessionManager.View()), worker, sessionManager.factoryOpen)
      ensures !sessionManager.factoryOpen ==> r == Failure(ClosedSession) && managed == old(managed)
      ensures sessionManager.factoryOpen ==> r == LoadSlot(table, reflection, objClass, dtoClass, col, key)
      ensures sessionManager.factoryOpen ==>
                worker in sessionManager.sessions &&
                managed == Loaded(old(managed), sessionManager.sessions[worker], Hit(table, dtoClass, col, key))
    {
      var found :- HibernateGet(worker, dtoClass, col, key);
      r := Construct(reflection, objClass, found);
    }

    /** `doGet(type, keys)`: one slot per key, in order, every key looked up in the
        column of the first key's class. */
    method DoGetList(worker: Sessions.Worker, objClass: JClass, dtoClass: DtoClass, keys: seq<Value>)
      returns (r: Result<seq<Option<OriannaObject>>, StoreError>)
      requires Valid()
      modifies this`managed, sessionManager`sessions, sessionManager`nextSessionId
      ensures Valid()
      ensures keys == [] ==> r == Failure(IndexOutOfBounds) && unchanged(this, sessionManager)
      ensures keys != [] && IndexColumn(reflection, dtoClass, keys[0]).Failure? ==>
                r == Failure(KeyTypeError(keys[0].cls)) && unchanged(this, sessionManager)
      ensures keys != [] && IndexColumn(reflection, dtoClass, keys[0]).Success? ==>
                sessionManager.View() == AfterAcquire(old(sessionManager.View()), worker, sessionManager.factoryOpen)
      ensures keys != [] && IndexColumn(reflection, dtoClass, keys[0]).Success? && !sessionManager.factoryOpen ==>
                r == Failure(ClosedSession) && managed == old(managed)
      ensures keys != [] && IndexColumn(reflection, dtoClass, keys[0]).Success? && sessionManager.factoryOpen ==>
                ListReadOutcome(r, table, reflection, objClass, dtoClass, IndexColumn(reflection, dtoClass, keys[0]).value, keys)
      ensures keys != [] && IndexColumn(reflection, dtoClass, keys[0]).Success? && sessionManager.factoryOpen && r.Success? ==>
                managed == Loaded(old(managed), sessionManager.sessions[worker],
                                  FoundRows(table, dtoClass, IndexColumn(reflection, dtoClass, keys[0]).value, keys))
    {
      if keys == [] {
        return Failure(IndexOutOfBounds);
      }
      var col :- IndexColumn(reflection, dtoClass, keys[0]);
      ghost var t, g0, m0 := table, sessionManager.View(), managed;
      var result := [];
      for i := 0 to |keys|
        invariant Valid() && table == t
        invariant !sessionManager.factoryOpen ==> i == 0
        invariant SlotsLoaded(t, reflection, objClass, dtoClass, col, keys[..i], result)
        invariant ReadsSoFar(sessionManager.View(), managed, g0, m0, worker, t, dtoClass, col, keys[..i])
      {
        ghost var g, m := sessionManager.View(), managed;
        var slot := LoadKey(worker, objClass, dtoClass, col, keys[i]);
        if sessionManager.factoryOpen {
          ReadsStep(g, m, sessionManager.View(), managed, g0, m0, worker, t, dtoClass, col, keys, i);
        }
        if slot.Failure? {
          if sessionManager.factoryOpen {
            ListReadFails(t, reflection, objClass, dtoClass, col, keys, i, result, slot.error);
          }
          return Failure(slot.error);
        }
        SlotsLoadedStep(t, reflection, objClass, dtoClass, col, keys, result, i, slot.value);
        result := result + [slot.value];
      }
      assert keys[..|keys|] == keys;
      ListReadSucceeds(t, reflection, objClass, dtoClass, col, keys, result);
      r := Success(result);
    }

    /** `doGetAll(type)`: an object for every row of the dto class, in the cursor's
        order; the cursor is closed only when every row loaded. */
    method DoGetAll(worker: Sessions.Worker, objClass: JClass, dtoClass: DtoClass)
      returns (r: Result<seq<OriannaObject>, StoreError>, ghost cursor: Cursor?)
      requires Valid()
      modifies sessionManager`sessions, sessionManager`nextSessionId
      ensures Valid()
      ensures sessionManager.View() == AfterAcquire(old(sessionManager.View()), worker, sessionManager.factoryOpen)
      ensures !sessionManager.factoryOpen ==> r == Failure(ClosedSession)
      ensures sessionManager.factoryOpen ==> r == LoadAll(reflection, objClass, RowsOf(table, dtoClass))
      ensures sessionManager.factoryOpen ==> cursor != null && fresh(cursor) && (cursor.closed <==> r.Success?)
    {
      cursor := null;
      var got := HibernateGetAll(worker, dtoClass);
      if got.Failure? {
        return Failure(got.error), cursor;
      }
      var c := got.value;
      cursor := c;
      var response := [];
      while true
        invariant c.rows == RowsOf(table, dtoClass) && c.position <= |c.rows| && !c.closed
        invariant |response| == c.position
        invariant forall j | 0 <= j < c.position :: reflection.construct(objClass, c.rows[j]) == Some(response[j])
        modifies c
        decreases |c.rows| - c.position
      {
        var more := c.Next();
        if !more {
          break;
        }
        var obj := reflection.construct(objClass, c.Get());
        if obj.None? {
          return Failure(OriannaException(LOAD_FAILED_MESSAGE)), cursor;
        }
        response := response + [obj.value];
      }
      assert LoadAll(reflection, objClass, c.rows).value == response;
      c.Close();
      r := Success(response);
    }

    /** `doStore(obj, key)`: save the dto of `obj`; the key is not used. */
    method DoStore(worker: Sessions.Worker, obj: OriannaObject) returns (r: Result<(), StoreError>)
      requires Valid()
      modifies this`table, this`managed, this`calls, sessionManager`sessions, sessionManager`nextSessionId
      ensures Valid()
      ensures r.Success? <==> sessionManager.factoryOpen
      ensures r.Failure? ==> r.error == ClosedSession && unchanged(this)
      ensures sessionManager.View() == AfterAcquire(old(sessionManager.View()), worker, sessionManager.factoryOpen)
      ensures r.Success? ==> table == Put(old(table), DtoRow(obj.dto))
      ensures r.Success? ==>
                var s := sessionManager.sessions[worker];
                managed == old(managed)[s := ManagedAfterMerges(Entry(old(managed), s), [DtoRow(obj.dto)], entityClearThreshold)]
    {
      ghost var ops;
      r, ops := HibernateSave(worker, DtoRow(obj.dto));
    }

    /** `doStore(objs, keys, isFullSet)`: save the dtos of `objs`, and for a full set
        the marker for the class of the first object, in one batch; the keys are not
        used. */
    method DoStoreList(worker: Sessions.Worker, objs: seq<OriannaObject>, isFullSet: bool)
      returns (r: Result<(), StoreError>, order: seq<Entity>)
      requires Valid()
      modifies this`table, this`managed, this`calls, sessionManager`sessions, sessionManager`nextSessionId
      ensures Valid()
      ensures objs == [] ==> r == Failure(IndexOutOfBounds) && unchanged(this, sessionManager)
      ensures objs != [] ==> (r.Success? <==> sessionManager.factoryOpen)
      ensures r.Failure? ==> unchanged(this)
      ensures r.Success? ==> objs != [] && Elements(order) == StoreBatch(objs, isFullSet)
      ensures objs != [] ==>
                sessionManager.View() == AfterAcquire(old(sessionManager.View()), worker, sessionManager.factoryOpen)
      ensures r.Success? ==> table == ApplyAll(old(table), Merges(order))
      ensures r.Success? ==>
                var s := sessionManager.sessions[worker];
                managed == old(managed)[s := ManagedAfterMerges(Entry(old(managed), s), order, entityClearThreshold)]
      ensures r.Success? && isFullSet ==> HasAllOf(table, objs[0].cls) == Success(true)
      ensures r.Success? && !isFullSet ==> forall c :: HasAllOf(table, c) == HasAllOf(old(table), c)
    {
      if objs == [] {
        return Failure(IndexOutOfBounds), [];
      }
      var objClass := objs[0].cls;
      var items: set<Entity> := {};
      if isFullSet {
        var status := new HasAll.HasAllStatus();
        status.SetClazz(Some(objClass));
        status.SetHasAll(true);
        items := items + {StatusRow(status.Record())};
      }
      ghost var marker := if isFullSet then {Marker(objClass)} else {};
      for i := 0 to |objs|
        invariant items == marker + set o | o in objs[..i] :: DtoRow(o.dto)
      {
        assert objs[..i + 1] == objs[..i] + [objs[i]];
        items := items + {DtoRow(objs[i].dto)};
      }
      assert objs[..|objs|] == objs;
      ghost var t0 := table;
      ghost var ops;
      r, order, ops := HibernateSaveAll(worker, items);
      if r.Success? {
        if isFullSet {
          FullSetStoreThenHasAll(t0, objs, order);
        } else {
          forall c ensures HasAllOf(table, c) == HasAllOf(t0, c) {
            PartialStoreKeepsHasAll(t0, objs, order, c);
          }
        }
      }
    }

    /** `doDelete(type, key)`: delete the row `key` finds, if any. */
    method DoDelete(worker: Sessions.Worker, dtoClass: DtoClass, key: Value) returns (r: Result<(), StoreError>)
      requires Valid()
      modifies this`table, this`managed, this`calls, sessionManager`sessions, sessionManager`nextSessionId
      ensures Valid()
      ensures IndexColumn(reflection, dtoClass, key).Failure? ==>
                r == Failure(KeyTypeError(key.cls)) && unchanged(this, sessionManager)
      ensures IndexColumn(reflection, dtoClass, key).Success? ==>
                sessionManager.View() == AfterAcquire(old(sessionManager.View()), worker, sessionManager.factoryOpen)
      ensures IndexColumn(reflection, dtoClass, key).Success? && !sessionManager.factoryOpen ==>
                r == Failure(ClosedSession) && table == old(table) && managed == old(managed)
      ensures IndexColumn(reflection, dtoClass, key).Success? && sessionManager.factoryOpen ==>
                var col := IndexColumn(reflection, dtoClass, key).value;
                && (r.Success? <==> Lookup(old(table), dtoClass, col, key).Success?)
                && (r.Failure? ==> r.error == NonUniqueResult && table == old(table) && managed == old(managed))
                && (r.Success? ==> table == match FoundId(old(table), dtoClass, col, key) {
                                              case Some(id) => RemoveId(old(table), id)
                                              case None => old(table)
                                            })
                && (r.Success? ==> var s := sessionManager.sessions[worker];
                                   managed == match FoundId(old(table), dtoClass, col, key) {
                                                case Some(id) => old(managed)[s := Entry(old(managed), s) - {id}]
                                                case None => old(managed)
                                              })
    {
      var col :- IndexColumn(reflection, dtoClass, key);
      ghost var m0 := managed;
      var found :- HibernateGet(worker, dtoClass, col, key);
      if found.Some? {
        ghost var ops;
        assert Hit(table, dtoClass, col, key) == {found.value};
        assert IdSet({found.value}) == {IdOf(found.value)};
        LoadedThenDeleted(m0, sessionManager.sessions[worker], {found.value});
        r, ops := HibernateDelete(worker, found.value);
      } else {
        r := Success(());
      }
    }

    /** The lookup of one key of `doDelete(type, keys)`: the row it finds, as a set. */
    method FindKey(worker: Sessions.Worker, dtoClass: DtoClass, col: Column, key: Value)
      returns (r: Result<set<Entity>, StoreError>)
      requires Valid()
      modifies this`managed, sessionManager`sessions, sessionManager`nextSessionId
      ensures Valid()
      ensures sessionManager.View() == AfterAcquire(old(sessionManager.View()), worker, sessionManager.factoryOpen)
      ensures !sessionManager.factoryOpen ==> r == Failure(ClosedSession) && managed == old(managed)
      ensures sessionManager.factoryOpen ==>
                && (r.Success? <==> Lookup(table, dtoClass, col, key).Success?)
                && (r.Success? ==> r.value == Hit(table, dtoClass, col, key))
                && (r.Failure? ==> r.error == NonUniqueResult)
                && managed == Loaded(old(managed), sessionManager.sessions[worker], Hit(table, dtoClass, col, key))
    {
      var found :- HibernateGet(worker, dtoClass, col, key);
      r := Success(if found.Some? then {found.value} else {});
    }

    /** The lookups of `doDelete(type, keys)`: the rows every key finds in column
        `col`, or the error of the first lookup that fails. */
    method FindRows(worker: Sessions.Worker, dtoClass: DtoClass, col: Column, keys: seq<Value>)
      returns (r: Result<set<Entity>, StoreError>)
      requires Valid()
      requires keys != []
      modifies this`managed, sessionManager`sessions, sessionManager`nextSessionId
      ensures Valid()
      ensures sessionManager.View() == AfterAcquire(old(sessionManager.View()), worker, sessionManager.factoryOpen)
      ensures !sessionManager.factoryOpen ==> r == Failure(ClosedSession) && managed == old(managed)
      ensures sessionManager.factoryOpen ==>
                && (r.Success? <==> AllUnique(table, dtoClass, col, keys))
                && (r.Success? ==> r.value == FoundRows(table, dtoClass, col, keys))
                && (r.Failure? ==> r.error == NonUniqueResult)
      ensures sessionManager.factoryOpen && r.Success? ==>
                managed == Loaded(old(managed), sessionManager.sessions[worker], FoundRows(table, dtoClass, col, keys))
    {
      ghost var t, g0, m0 := table, sessionManager.View(), managed;
      var result: set<Entity> := {};
      for i := 0 to |keys|
        invariant Valid() && table == t
        invariant !sessionManager.factoryOpen ==> i == 0
        invariant AllUnique(t, dtoClass, col, keys[..i])
        invariant result == FoundRows(t, dtoClass, col, keys[..i])
        invariant ReadsSoFar(sessionManager.View(), managed, g0, m0, worker, t, dtoClass, col, keys[..i])
      {
        ghost var g, m := sessionManager.View(), managed;
        var hit := FindKey(worker, dtoClass, col, keys[i]);
        if sessionManager.factoryOpen {
          ReadsStep(g, m, sessionManager.View(), managed, g0, m0, worker, t, dtoClass, col, keys, i);
        }
        if hit.Failure? {
          assert sessionManager.factoryOpen ==> !Lookup(t, dtoClass, col, keys[i]).Success?;
          return Failure(hit.error);
        }
        AllUniqueStep(t, dtoClass, col, keys, i);
        assert keys[..i + 1][..i] == keys[..i];
        result := result + hit.value;
      }
      assert keys[..|keys|] == keys;
      r := Success(result);
    }

    /** `doDelete(type, keys)`: look every key up in the column of the first key's
        class, then delete every row found in one transaction. */
    method DoDeleteList(worker: Sessions.Worker, dtoClass: DtoClass, keys: seq<Value>) returns (r: Result<(), StoreError>)
      requires Valid()
      modifies this`table, this`managed, this`calls, sessionManager`sessions, sessionManager`nextSessionId
      ensures Valid()
      ensures keys == [] ==> r == Failure(IndexOutOfBounds) && unchanged(this, sessionManager)
      ensures keys != [] && IndexColumn(reflection, dtoClass, keys[0]).Failure? ==>
                r == Failure(KeyTypeError(keys[0].cls)) && unchanged(this, sessionManager)
      ensures keys != [] && IndexColumn(reflection, dtoClass, keys[0]).Success? ==>
                sessionManager.View() == AfterAcquire(old(sessionManager.View()), worker, sessionManager.factoryOpen)
      ensures keys != [] && IndexColumn(reflection, dtoClass, keys[0]).Success? && !sessionManager.factoryOpen ==>
                r == Failure(ClosedSession) && table == old(table) && managed == old(managed)
      ensures keys != [] && IndexColumn(reflection, dtoClass, keys[0]).Success? && sessionManager.factoryOpen ==>
                var col := IndexColumn(reflection, dtoClass, keys[0]).value;
                && (r.Success? <==> AllUnique(old(table), dtoClass, col, keys))
                && (r.Failure? ==> r.error == NonUniqueResult && table == old(table))
                && (r.Success? ==> forall x :: Find(table, x) ==
                                     if exists e | e in FoundRows(old(table), dtoClass, col, keys) :: IdOf(e) == x
                                     then None else Find(old(table), x))
                && (r.Success? ==> var s := sessionManager.sessions[worker];
                                   managed == old(managed)[s := Entry(old(managed), s) - IdSet(FoundRows(old(table), dtoClass, col, keys))])
    {
      if keys == [] {
        return Failure(IndexOutOfBounds);
      }
      var col :- IndexColumn(reflection, dtoClass, keys[0]);
      ghost var m0 := managed;
      var result :- FindRows(worker, dtoClass, col, keys);
      LoadedThenDeleted(m0, sessionManager.sessions[worker], result);
      ghost var t0 := table;
      var order;
      ghost var ops;
      r, order, ops := HibernateDeleteAll(worker, result);
      if r.Success? {
        forall x ensures Find(table, x) ==
                           if exists e | e in result :: IdOf(e) == x then None else Find(t0, x) {
          DeleteFoundRows(t0, result, order, x);
        }
      }
    }

    /** `close()`: stop the cleaner, close every session, then the factory. */
    method Close()
      requires Valid()
      modifies sessionManager`stopped, sessionManager`interrupted, sessionManager`released, sessionManager`factoryOpen
      ensures Valid()
      ensures !sessionManager.factoryOpen
      ensures sessionManager.Cleaner() == Sessions.CleanerStop(old(sessionManager.Cleaner()))
      ensures Sessions.ClosingEffect(old(sessionManager.released), sessionManager.sessions.Values, sessionManager.released)
    {
      sessionManager.Close();
    }
  }
}
