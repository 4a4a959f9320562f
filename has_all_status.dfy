/** The completeness marker: a persisted record, keyed by a domain type, saying
    whether the store holds every object of that type. */
module HasAll {
  import opened Wrappers
  import opened JavaLang

  /** The class object of the marker itself, the table it is stored in. */
  const HAS_ALL_STATUS := JClass("com.robrua.orianna.store.HasAllStatus")

  /** The state of a marker as a value: what Hibernate copies into and out of the
      `hasall` table, and what `equals` compares. */
  datatype StatusRecord = StatusRecord(clazz: Option<JClass>, hasAll: bool)

  /** The contribution of `clazz` to the hash code: 0 for null. */
  function ClassHashOf(clazz: Option<JClass>, classHash: JClass -> Int32): int {
    if clazz.None? then 0 else classHash(clazz.value) as int
  }

  /** The contribution of the flag to the hash code, as `Boolean.hashCode`. */
  function FlagHash(b: bool): int {
    if b then 1231 else 1237
  }

  /** The second step of the hash: if the first partial result agrees with `base`
      modulo 2^32, so does the final one with `31 * base + flag`. */
  lemma HashStep(result1: Int32, base: int, flag: Int32)
    requires (result1 as int - base) % TWO_32 == 0
    ensures (Add(Mul(31, result1), flag) as int - (31 * base + flag as int)) % TWO_32 == 0
  {
    var m := Mul(31, result1);
    CongruentScale(result1 as int, base, 31);
    CongruentTrans(m as int, 31 * result1 as int, 31 * base);
    var r := Add(m, flag);
    assert (m as int + flag as int) - (31 * base + flag as int) == m as int - 31 * base;
    CongruentTrans(r as int, m as int + flag as int, 31 * base + flag as int);
  }

  class HasAllStatus {
    var clazz: Option<JClass>
    var hasAll: bool

    /** A new marker has Java's default field values. */
    constructor ()
      ensures clazz == None && !hasAll
    {
      clazz := None;
      hasAll := false;
    }

    function Record(): StatusRecord
      reads this
    {
      StatusRecord(clazz, hasAll)
    }

    /** `equals(Object)`: the same object, or another marker with an equal (null-safe)
        `clazz` and the same flag. */
    function Equals(obj: object?): (r: bool)
      reads this, obj
      ensures r <==> obj != null && obj is HasAllStatus
                     && (obj as HasAllStatus).clazz == clazz
                     && (obj as HasAllStatus).hasAll == hasAll
    {
      if this == obj then true
      else if obj == null then false
      else if !(obj is HasAllStatus) then false
      else
        var other := obj as HasAllStatus;
        if clazz.None? && other.clazz.Some? then false
        else if clazz.Some? && other.clazz != Some(clazz.value) then false
        else if hasAll != other.hasAll then false
        else true
    }

    /** `getClazz()`: the class the stored record is for. */
    function GetClazz(): (c: Option<JClass>)
      reads this
      ensures c == Record().clazz
    {
      clazz
    }

    /** `isHasAll()`: whether the stored record says the full set is stored. */
    function IsHasAll(): (b: bool)
      reads this
      ensures b == Record().hasAll
    {
      hasAll
    }

    /** `hashCode()`, evaluated step by step in 32-bit `int` arithmetic. */
    function HashCode(classHash: JClass -> Int32): (h: Int32)
      reads this
      ensures (h as int - (31 * (31 + ClassHashOf(clazz, classHash)) + FlagHash(hasAll))) % TWO_32 == 0
    {
      var prime: Int32 := 31;
      var result: Int32 := 1;
      var result1 := Add(Mul(prime, result), if clazz.None? then 0 else classHash(clazz.value));
      var result2 := Add(Mul(prime, result1), if hasAll then 1231 else 1237);
      HashStep(result1, 31 + ClassHashOf(clazz, classHash), if hasAll then 1231 else 1237);
      result2
    }

    method SetClazz(c: Option<JClass>)
      modifies this`clazz
      ensures GetClazz() == c && IsHasAll() == old(IsHasAll())
    {
      clazz := c;
    }

    method SetHasAll(b: bool)
      modifies this`hasAll
      ensures IsHasAll() == b && GetClazz() == old(GetClazz())
    {
      hasAll := b;
    }

    /** `toString()`: the class name, ": " and the flag. Java dereferences `clazz`,
        so a marker without a class has no string form. */
    function ToString(): (s: string)
      reads this
      requires clazz.Some?
      ensures var n := |clazz.value.name|;
              && |s| > n + 2
              && s[..n] == clazz.value.name
              && s[n..n + 2] == ": "
              && (hasAll <==> s[n + 2..] == "true")
              && (!hasAll <==> s[n + 2..] == "false")
    {
      clazz.value.name + ": " + BooleanToString(hasAll)
    }
  }

  /** `equals` is reflexive. */
  lemma EqualsReflexive(a: HasAllStatus)
    ensures a.Equals(a)
  {
  }

  /** `equals` is symmetric. */
  lemma EqualsSymmetric(a: HasAllStatus, b: object?)
    ensures a.Equals(b) <==> (b != null && b is HasAllStatus && (b as HasAllStatus).Equals(a))
  {
  }

  /** `equals` is transitive. */
  lemma EqualsTransitive(a: HasAllStatus, b: HasAllStatus, c: object?)
    requires a.Equals(b) && b.Equals(c)
    ensures a.Equals(c)
  {
  }

  /** Two markers are equal exactly when their records are. */
  lemma EqualsIsRecordEquality(a: HasAllStatus, b: HasAllStatus)
    ensures a.Equals(b) <==> a.Record() == b.Record()
  {
  }

  /** Equal markers have equal hash codes, whatever `Class.hashCode` is. */
  lemma EqualsConsistentWithHashCode(a: HasAllStatus, b: HasAllStatus, classHash: JClass -> Int32)
    requires a.Equals(b)
    ensures a.HashCode(classHash) == b.HashCode(classHash)
  {
  }

  /** For the same class, the two flag values give different hash codes. */
  lemma HashCodeSeparatesFlag(a: HasAllStatus, b: HasAllStatus, classHash: JClass -> Int32)
    requires a.clazz == b.clazz && a.hasAll != b.hasAll
    ensures a.HashCode(classHash) != b.HashCode(classHash)
  {
    var base := 31 * (31 + ClassHashOf(a.clazz, classHash));
    var ha, hb := a.HashCode(classHash) as int, b.HashCode(classHash) as int;
    var qa := (ha - (base + FlagHash(a.hasAll))) / TWO_32;
    var qb := (hb - (base + FlagHash(b.hasAll))) / TWO_32;
    assert ha == base + FlagHash(a.hasAll) + qa * TWO_32;
    assert hb == base + FlagHash(b.hasAll) + qb * TWO_32;
  }
}
