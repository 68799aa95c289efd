/**
 * A JSON object as an ordered list of (key, value) fields: lookups by linear search, updates in
 * place, new fields at the end.
 */
module OrderedFields {
  import opened Prelude

  datatype Field<K, V> = Field(key: K, value: V)

  ghost predicate UniqueKeys<K, V>(fields: seq<Field<K, V>>) {
    forall i, j :: 0 <= i < j < |fields| ==> fields[i].key != fields[j].key
  }

  /** Position of the first field with this key, or -1. */
  function IndexOf<K(==), V>(fields: seq<Field<K, V>>, key: K): int {
    if fields == [] then -1
    else if fields[0].key == key then 0
    else
      var i := IndexOf(fields[1..], key);
      if i < 0 then -1 else i + 1
  }

  lemma {:induction false} IndexOfShape<K, V>(fields: seq<Field<K, V>>, key: K)
    ensures -1 <= IndexOf(fields, key) < |fields|
    ensures IndexOf(fields, key) >= 0 ==>
              fields[IndexOf(fields, key)].key == key
              && forall j :: 0 <= j < IndexOf(fields, key) ==> fields[j].key != key
    ensures IndexOf(fields, key) < 0 ==> forall j :: 0 <= j < |fields| ==> fields[j].key != key
  {
    if fields != [] {
      IndexOfShape(fields[1..], key);
    }
  }

  /** A position is the first with its key iff nothing before it has that key. */
  lemma IndexOfIs<K, V>(fields: seq<Field<K, V>>, key: K, i: nat)
    requires i < |fields| && fields[i].key == key && forall j :: 0 <= j < i ==> fields[j].key != key
    ensures IndexOf(fields, key) == i
  {
    IndexOfShape(fields, key);
  }

  predicate Has<K(==), V>(fields: seq<Field<K, V>>, key: K) {
    IndexOf(fields, key) >= 0
  }

  function Get<K(==), V>(fields: seq<Field<K, V>>, key: K): Option<V> {
    IndexOfShape(fields, key);
    if Has(fields, key) then Some(fields[IndexOf(fields, key)].value) else None
  }

  /** Replaces a field's value in place, or appends a new field at the end. */
  function Set<K(==), V>(fields: seq<Field<K, V>>, key: K, value: V): seq<Field<K, V>> {
    IndexOfShape(fields, key);
    if Has(fields, key) then fields[IndexOf(fields, key) := Field(key, value)] else fields + [Field(key, value)]
  }

  /** Removes the first field with this key, if there is one. */
  function Del<K(==), V>(fields: seq<Field<K, V>>, key: K): seq<Field<K, V>> {
    IndexOfShape(fields, key);
    if Has(fields, key) then fields[..IndexOf(fields, key)] + fields[IndexOf(fields, key) + 1..] else fields
  }

  function SetAll<K(==), V>(fields: seq<Field<K, V>>, pairs: seq<Field<K, V>>): seq<Field<K, V>>
    decreases |pairs|
  {
    if pairs == [] then fields
    else Set(SetAll(fields, pairs[..|pairs| - 1]), pairs[|pairs| - 1].key, pairs[|pairs| - 1].value)
  }

  function Keys<K(==), V>(fields: seq<Field<K, V>>): seq<K> {
    seq(|fields|, i requires 0 <= i < |fields| => fields[i].key)
  }

  // ---- Laws ---------------------------------------------------------------------------------

  /** Setting one field reads back, leaves every other field alone and keeps the field order. */
  lemma SetLaw<K, V>(fields: seq<Field<K, V>>, key: K, value: V, other: K)
    ensures Get(Set(fields, key, value), key) == Some(value)
    ensures other != key ==> Get(Set(fields, key, value), other) == Get(fields, other)
    ensures Keys(Set(fields, key, value)) == if Has(fields, key) then Keys(fields) else Keys(fields) + [key]
    ensures UniqueKeys(fields) ==> UniqueKeys(Set(fields, key, value))
  {
    var after := Set(fields, key, value);
    IndexOfShape(fields, key);
    var i := if Has(fields, key) then IndexOf(fields, key) else |fields|;
    IndexOfIs(after, key, i);
    if other != key {
      IndexOfShape(fields, other);
      IndexOfShape(after, other);
      if Has(fields, other) {
        IndexOfIs(after, other, IndexOf(fields, other));
      } else {
        assert !Has(after, other);
      }
    }
  }

  /** Deleting one field of a document with unique keys removes it and nothing else. */
  lemma DelLaw<K, V>(fields: seq<Field<K, V>>, key: K, other: K)
    requires UniqueKeys(fields)
    ensures !Has(Del(fields, key), key)
    ensures other != key ==> Get(Del(fields, key), other) == Get(fields, other)
    ensures UniqueKeys(Del(fields, key))
    ensures |Del(fields, key)| == |fields| - if Has(fields, key) then 1 else 0
  {
    var after := Del(fields, key);
    IndexOfShape(fields, key);
    IndexOfShape(after, key);
    if other != key {
      IndexOfShape(fields, other);
      IndexOfShape(after, other);
      if Has(fields, other) {
        var j := IndexOf(fields, other);
        IndexOfIs(after, other, if Has(fields, key) && IndexOf(fields, key) < j then j - 1 else j);
      } else {
        assert !Has(after, other);
      }
    }
  }

  lemma {:induction false} SetAllAppend<K, V>(fields: seq<Field<K, V>>, a: seq<Field<K, V>>, b: seq<Field<K, V>>)
    ensures SetAll(fields, a + b) == SetAll(SetAll(fields, a), b)
    decreases |b|
  {
    if b == [] {
      assert a + b == a;
    } else {
      assert (a + b)[..|a + b| - 1] == a + b[..|b| - 1];
      SetAllAppend(fields, a, b[..|b| - 1]);
    }
  }

  lemma {:induction false} SetAllUnique<K, V>(fields: seq<Field<K, V>>, pairs: seq<Field<K, V>>)
    requires UniqueKeys(fields)
    ensures UniqueKeys(SetAll(fields, pairs))
    decreases |pairs|
  {
    if pairs != [] {
      SetAllUnique(fields, pairs[..|pairs| - 1]);
      SetLaw(SetAll(fields, pairs[..|pairs| - 1]), pairs[|pairs| - 1].key, pairs[|pairs| - 1].value, pairs[0].key);
    }
  }

  // ---- The mutable object -----------------------------------------------------------------------

  class JsonObject<K(==), V> {
    var fields: seq<Field<K, V>>

    constructor (fields: seq<Field<K, V>>)
      ensures this.fields == fields
    {
      this.fields := fields;
    }

    method Index(key: K) returns (i: int)
      ensures i == IndexOf(fields, key)
    {
      IndexOfShape(fields, key);
      for n := 0 to |fields|
        invariant forall j :: 0 <= j < n ==> fields[j].key != key
      {
        if fields[n].key == key {
          return n;
        }
      }
      return -1;
    }

    method HasField(key: K) returns (b: bool)
      ensures b == Has(fields, key)
    {
      var i := Index(key);
      b := i >= 0;
    }

    method GetField(key: K) returns (v: Option<V>)
      ensures v == Get(fields, key)
    {
      var i := Index(key);
      IndexOfShape(fields, key);
      v := if i >= 0 then Some(fields[i].value) else None;
    }

    method SetField(key: K, value: V)
      modifies this
      ensures fields == Set(old(fields), key, value)
    {
      var i := Index(key);
      IndexOfShape(fields, key);
      if i >= 0 {
        fields := fields[i := Field(key, value)];
      } else {
        fields := fields + [Field(key, value)];
      }
    }

    method DeleteField(key: K) returns (deleted: bool)
      modifies this
      ensures fields == Del(old(fields), key)
      ensures deleted == Has(old(fields), key)
    {
      var i := Index(key);
      IndexOfShape(fields, key);
      if i < 0 {
        return false;
      }
      fields := fields[..i] + fields[i + 1..];
      return true;
    }
  }
}
