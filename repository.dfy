/**
  The record store behind the service (`StudentRepository`, a Spring Data
  `JpaRepository<StudentEntity, Long>`). The framework supplies it; only the
  four operations the service calls are modelled: `save`, `findById`,
  `findAll` and `delete`.
 */
module Repository {
  import opened Wrappers
  import opened Records

  predicate Distinct(s: seq<int>) {
    forall i, j :: 0 <= i < j < |s| ==> s[i] != s[j]
  }

  /** `s` with every occurrence of `k` taken out, the rest in its original order. */
  function Without(s: seq<int>, k: int): (r: seq<int>)
    ensures forall x :: x in r <==> x in s && x != k
    ensures Distinct(s) ==> Distinct(r)
    ensures k !in s ==> r == s
  {
    if s == [] then []
    else if s[0] == k then Without(s[1..], k)
    else
      var rest := Without(s[1..], k);
      assert Distinct(s) ==> s[0] !in s[1..] && s[0] !in rest;
      [s[0]] + rest
  }

  /** Any two keys left by `Without` stand in `s` in the same relative order. */
  lemma {:induction false} WithoutKeepsOrder(s: seq<int>, k: int, i: int, j: int)
    requires 0 <= i < j < |Without(s, k)|
    ensures exists p, q :: 0 <= p < q < |s| && s[p] == Without(s, k)[i] && s[q] == Without(s, k)[j]
  {
    var r := Without(s, k);
    var rest := Without(s[1..], k);
    if s[0] == k {
      WithoutKeepsOrder(s[1..], k, i, j);
      var p, q :| 0 <= p < q < |s[1..]| && s[1..][p] == rest[i] && s[1..][q] == rest[j];
      assert s[p + 1] == r[i] && s[q + 1] == r[j];
    } else if i == 0 {
      assert r[j] == rest[j - 1] && rest[j - 1] in rest;
      var q :| 0 <= q < |s[1..]| && s[1..][q] == r[j];
      assert s[0] == r[i] && s[q + 1] == r[j];
    } else {
      WithoutKeepsOrder(s[1..], k, i - 1, j - 1);
      var p, q :| 0 <= p < q < |s[1..]| && s[1..][p] == rest[i - 1] && s[1..][q] == rest[j - 1];
      assert s[p + 1] == r[i] && s[q + 1] == r[j];
    }
  }

  /** A sequence without repetitions has as many distinct elements as positions. */
  lemma {:induction false} DistinctCardinality(s: seq<int>)
    requires Distinct(s)
    ensures |set x | x in s| == |s|
  {
    if s != [] {
      DistinctCardinality(s[1..]);
      assert (set x | x in s) == {s[0]} + (set x | x in s[1..]);
      assert s[0] !in s[1..];
    }
  }

  class StudentRepository {
    /** The table, keyed by primary key. */
    var rows: map<int, StudentEntity>
    /** The order in which `findAll` returns the rows: the order they were first inserted. */
    var order: seq<int>
    /**
      The next key the id generator hands out. Assigning a fresh key when the
      saved record has no id is an assumption about the framework: the
      generation strategy is not visible in the repository.
     */
    var nextId: int

    ghost predicate Valid()
      reads this
    {
      && (forall k :: k in rows ==> rows[k].id == Some(k) && k < nextId)
      && (forall i :: 0 <= i < |order| ==> order[i] in rows)
      && (forall k :: k in rows ==> k in order)
      && Distinct(order)
    }

    /** An empty table. */
    constructor ()
      ensures Valid()
      ensures rows == map[] && order == []
    {
      rows, order, nextId := map[], [], 1;
    }

    /**
      `save`: an upsert. A record with an id replaces (or inserts) the row with
      that key; a record without one is given a fresh key first. Returns the
      record as stored.
     */
    method Save(studentEntity: StudentEntity) returns (saved: StudentEntity)
      requires Valid()
      modifies this
      ensures Valid()
      ensures saved.id.Some?
      ensures studentEntity.id.Some? ==> saved == studentEntity
      ensures studentEntity.id.None? ==> saved == studentEntity.(id := saved.id) && saved.id.value !in old(rows)
      ensures rows == old(rows)[saved.id.value := saved]
      ensures order == if saved.id.value in old(rows) then old(order) else old(order) + [saved.id.value]
    {
      var key := if studentEntity.id.Some? then studentEntity.id.value else nextId;
      saved := studentEntity.(id := Some(key));
      if key !in rows {
        order := order + [key];
      }
      rows := rows[key := saved];
      if nextId <= key {
        nextId := key + 1;
      }
    }

    /** `findById`: the row with key `id`, if there is one. */
    method FindById(id: int) returns (found: Option<StudentEntity>)
      requires Valid()
      ensures found.Some? <==> id in rows
      ensures found.Some? ==> found.value == rows[id] && found.value.id == Some(id)
    {
      if id in rows {
        found := Some(rows[id]);
      } else {
        found := None;
      }
    }

    /** `findAll`: every row exactly once, in insertion order. */
    method FindAll() returns (all: seq<StudentEntity>)
      requires Valid()
      ensures |all| == |order| == |rows|
      ensures forall i :: 0 <= i < |all| ==> all[i] == rows[order[i]]
      ensures forall e :: e in all <==> e in rows.Values
    {
      var table, keys := rows, order;
      all := seq(|keys|, i requires 0 <= i < |keys| && keys[i] in table => table[keys[i]]);
      DistinctCardinality(order);
      forall x | x in order
        ensures x in rows
      {
        var i :| 0 <= i < |order| && order[i] == x;
      }
      ghost var listed := set x | x in order;
      assert listed <= rows.Keys;
      forall k | k in rows.Keys
        ensures k in listed
      {
        assert k in rows && k in order;
      }
      assert listed == rows.Keys;
      assert |rows| == |rows.Keys|;
      forall e | e in rows.Values
        ensures e in all
      {
        var k :| k in rows && rows[k] == e;
        var i :| 0 <= i < |order| && order[i] == k;
        assert all[i] == e;
      }
    }

    /**
      `delete(entity)`: removes the row whose key is the record's id. A record
      without an id, or one whose row is already gone, leaves the table as it is.
     */
    method Delete(studentEntity: StudentEntity)
      requires Valid()
      modifies this
      ensures Valid()
      ensures studentEntity.id.None? ==> rows == old(rows) && order == old(order)
      ensures studentEntity.id.Some? ==> rows == old(rows) - {studentEntity.id.value}
      ensures studentEntity.id.Some? ==> order == Without(old(order), studentEntity.id.value)
    {
      if studentEntity.id.Some? {
        rows := rows - {studentEntity.id.value};
        ghost var before := order;
        order := Without(order, studentEntity.id.value);
        forall i | 0 <= i < |order|
          ensures order[i] in rows
        {
          assert order[i] in order;
          var j :| 0 <= j < |before| && before[j] == order[i];
        }
      }
    }
  }
}
