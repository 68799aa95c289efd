/** Keeping a namespace within its key and byte limits, row by row and in batches. */
module Eviction {
  import opened Prelude

  datatype Row = Row(key: string, size: nat, lastAccessed: int, expiresAt: Option<int>)

  datatype Policy = Lru | SoonestExpiry | Random

  datatype Limits = Limits(maxKeys: Option<int>, maxBytes: Option<int>)

  const MAX_EVICTION_PASSES: nat := 1_000_000

  function Bytes(rows: seq<Row>): nat {
    if rows == [] then 0 else Bytes(rows[..|rows| - 1]) + rows[|rows| - 1].size
  }

  predicate Over(count: int, bytes: int, limits: Limits) {
    (limits.maxKeys.Some? && count > limits.maxKeys.value) || (limits.maxBytes.Some? && bytes > limits.maxBytes.value)
  }

  predicate IsOver(rows: seq<Row>, limits: Limits) {
    Over(|rows|, Bytes(rows), limits)
  }

  /**
   * `a` is evicted before `b`: least recently used first; rows with an expiry first, soonest first. Under
   * the random policy any row may be next.
   */
  predicate Precedes(policy: Policy, a: Row, b: Row) {
    match policy
    case Lru => a.lastAccessed < b.lastAccessed
    case SoonestExpiry => a.expiresAt.Some? && (b.expiresAt.None? || a.expiresAt.value < b.expiresAt.value)
    case Random => false
  }

  /**
   * Which rows may go before which: none goes that was used after one that stays; a row without an expiry,
   * or with a later one, stays as long as one with an expiry does. At random any row may go.
   */
  predicate MayGoFirst(policy: Policy, gone: Row, left: Row) {
    match policy
    case Lru => gone.lastAccessed <= left.lastAccessed
    case SoonestExpiry =>
      left.expiresAt.Some? ==> gone.expiresAt.Some? && gone.expiresAt.value <= left.expiresAt.value
    case Random => true
  }

  /** So many rows and bytes are within both limits, as far as they are set. */
  predicate Fits(count: int, bytes: int, limits: Limits) {
    && (limits.maxKeys.Some? ==> count <= limits.maxKeys.value)
    && (limits.maxBytes.Some? ==> bytes <= limits.maxBytes.value)
  }

  // ---- What eviction promises -------------------------------------------------------------------

  /** `victims` are the first rows of `original` in policy order, in that order; `rows` are the others. */
  ghost predicate Splits(original: seq<Row>, rows: seq<Row>, victims: seq<Row>, policy: Policy) {
    && multiset(rows) + multiset(victims) == multiset(original)
    && Bytes(rows) + Bytes(victims) == Bytes(original)
    && (forall i, j :: 0 <= i < j < |victims| ==> !Precedes(policy, victims[j], victims[i]))
    && (forall v, r :: v in victims && r in rows ==> !Precedes(policy, r, v))
  }

  /** With any shorter prefix evicted the namespace would still be over a limit. */
  ghost predicate EachNeeded(original: seq<Row>, victims: seq<Row>, limits: Limits) {
    forall n :: 0 <= n < |victims| ==> Over(|original| - n, Bytes(original) - Bytes(victims[..n]), limits)
  }

  ghost predicate ShortestFitting(original: seq<Row>, rows: seq<Row>, victims: seq<Row>,
                                    policy: Policy, limits: Limits) {
    && Splits(original, rows, victims, policy) && EachNeeded(original, victims, limits)
    && (rows == [] || !IsOver(rows, limits))
  }

  ghost predicate InPolicyOrder(policy: Policy, victims: seq<Row>, rows: seq<Row>) {
    forall gone, left :: gone in victims && left in rows ==> MayGoFirst(policy, gone, left)
  }

  /** Without its last victims the namespace would not have been within its limits. */
  ghost predicate NoneTooMany(original: seq<Row>, victims: seq<Row>, limits: Limits) {
    forall n :: 0 <= n < |victims| ==> !Fits(|original| - n, Bytes(original) - Bytes(victims[..n]), limits)
  }

  class Table {
    var rows: seq<Row>
    ghost var victims: seq<Row>

    constructor (rows: seq<Row>)
      ensures this.rows == rows && victims == []
    {
      this.rows, victims := rows, [];
    }

    /** ORDER BY the policy, first row; ties fall as they may. */
    method First(policy: Policy) returns (i: nat)
      requires rows != []
      ensures i < |rows| && forall r :: r in rows ==> !Precedes(policy, r, rows[i])
    {
      if policy.Random? {
        i :| 0 <= i < |rows|;
        return;
      }
      i := 0;
      for n := 1 to |rows|
        invariant i < n
        invariant forall j :: 0 <= j < n ==> !Precedes(policy, rows[j], rows[i])
      {
        if Precedes(policy, rows[n], rows[i]) {
          i := n;
        }
      }
    }

    method DeleteFirst(policy: Policy, ghost original: seq<Row>)
      requires rows != [] && Splits(original, rows, victims, policy)
      modifies this
      ensures Splits(original, rows, victims, policy)
      ensures |rows| == |old(rows)| - 1 && |victims| == |old(victims)| + 1 && victims[..|old(victims)|] == old(victims)
    {
      var i := First(policy);
      var left := rows[..i] + rows[i + 1..];
      ghost var more := victims + [rows[i]];
      MoveRow(original, rows, victims, policy, i);
      assert |left| == |rows| - 1 && |more| == |victims| + 1 && more[..|victims|] == victims;
      rows, victims := left, more;
    }

    /** One DELETE with LIMIT n: the first n rows of the policy order, or all there are. */
    method DeleteBatch(policy: Policy, n: nat, ghost original: seq<Row>, ghost limits: Limits) returns (deleted: nat)
      requires Splits(original, rows, victims, policy) && EachNeeded(original, victims, limits)
      requires rows != [] ==> IsOver(rows, limits)
      requires n > 1 ==> limits.maxKeys.Some? && n <= |rows| - limits.maxKeys.value
      modifies this
      ensures Splits(original, rows, victims, policy) && EachNeeded(original, victims, limits)
      ensures deleted == Min(n, |old(rows)|) && |rows| == |old(rows)| - deleted
      ensures |victims| == |old(victims)| + deleted
    {
      deleted := 0;
      while deleted < n && rows != []
        invariant Splits(original, rows, victims, policy) && EachNeeded(original, victims, limits)
        invariant deleted <= n && |rows| == |old(rows)| - deleted && |victims| == |old(victims)| + deleted
        invariant deleted < n && rows != [] ==> IsOver(rows, limits)
        decreases n - deleted
      {
        NeededOnce(original, rows, victims, policy, limits);
        ghost var before := victims;
        DeleteFirst(policy, original);
        StillNeeded(original, before, victims, limits);
        deleted := deleted + 1;
      }
    }

    /** One row at a time, re-checking the limits before each, for at most a million passes. */
    method EnforceCapacity(policy: Policy, limits: Limits)
      requires victims == []
      modifies this
      ensures Splits(old(rows), rows, victims, policy) && EachNeeded(old(rows), victims, limits)
      ensures rows == [] || Fits(|rows|, Bytes(rows), limits) || |victims| == 1_000_000
      ensures InPolicyOrder(policy, victims, rows) && NoneTooMany(old(rows), victims, limits)
    {
      ghost var original := rows;
      assert Bytes([]) == 0;
      for pass := 0 to MAX_EVICTION_PASSES
        invariant Splits(original, rows, victims, policy) && EachNeeded(original, victims, limits)
        invariant |victims| == pass
      {
        if !IsOver(rows, limits) {
          return;
        }
        var n := DeleteBatch(policy, 1, original, limits);
        if n == 0 {
          return;
        }
      }
    }

    /** As many rows at once as there are keys too many, or one while only the bytes are over. */
    method MaybeEvict(policy: Policy, limits: Limits)
      requires victims == []
      modifies this
      ensures ShortestFitting(old(rows), rows, victims, policy, limits)
      ensures rows == [] || Fits(|rows|, Bytes(rows), limits)
      ensures InPolicyOrder(policy, victims, rows) && NoneTooMany(old(rows), victims, limits)
    {
      ghost var original := rows;
      assert Bytes([]) == 0;
      while true
        invariant Splits(original, rows, victims, policy) && EachNeeded(original, victims, limits)
        decreases |rows|
      {
        var overKeys := if limits.maxKeys.Some? then |rows| - limits.maxKeys.value else 0;
        var overBytes := limits.maxBytes.Some? && Bytes(rows) > limits.maxBytes.value;
        if overKeys <= 0 && !overBytes {
          return;
        }
        var n := DeleteBatch(policy, Max(overKeys, 1), original, limits);
        if n == 0 {
          return;
        }
      }
    }
  }

  /** A namespace's bytes are its rows' sizes, each once. */
  lemma BytesRule(a: seq<Row>, r: Row, b: seq<Row>)
    ensures Bytes([]) == 0 && Bytes(a + [r] + b) == Bytes(a + b) + r.size
  {
    BytesAppend(a + [r], b);
    BytesAppend(a, [r]);
    BytesAppend(a, b);
    assert [r][..0] == [];
  }

  // ---- Lemmas -------------------------------------------------------------------------------------

  lemma {:induction false} BytesAppend(a: seq<Row>, b: seq<Row>)
    ensures Bytes(a + b) == Bytes(a) + Bytes(b)
    decreases |b|
  {
    if b == [] {
      assert a + b == a;
    } else {
      assert (a + b)[..|a + b| - 1] == a + b[..|b| - 1];
      BytesAppend(a, b[..|b| - 1]);
    }
  }

  lemma MoveRow(original: seq<Row>, rows: seq<Row>, victims: seq<Row>, policy: Policy, i: nat)
    requires i < |rows| && Splits(original, rows, victims, policy)
    requires forall r :: r in rows ==> !Precedes(policy, r, rows[i])
    ensures Splits(original, rows[..i] + rows[i + 1..], victims + [rows[i]], policy)
  {
    TakeOut(rows, i);
    StaysInOrder(rows, victims, policy, i);
  }

  lemma StaysInOrder(rows: seq<Row>, victims: seq<Row>, policy: Policy, i: nat)
    requires i < |rows| && forall r :: r in rows ==> !Precedes(policy, r, rows[i])
    requires forall k, j :: 0 <= k < j < |victims| ==> !Precedes(policy, victims[j], victims[k])
    requires forall v, r :: v in victims && r in rows ==> !Precedes(policy, r, v)
    ensures var more, left := victims + [rows[i]], rows[..i] + rows[i + 1..];
            && (forall k, j :: 0 <= k < j < |more| ==> !Precedes(policy, more[j], more[k]))
            && (forall v, r :: v in more && r in left ==> !Precedes(policy, r, v))
  {
    assert rows[i] in rows;
  }

  lemma TakeOut(rows: seq<Row>, i: nat)
    requires i < |rows|
    ensures var left := rows[..i] + rows[i + 1..];
            multiset(rows) == multiset(left) + multiset{rows[i]} && Bytes(rows) == Bytes(left) + rows[i].size
  {
    assert rows == rows[..i] + ([rows[i]] + rows[i + 1..]);
    BytesAppend(rows[..i], [rows[i]] + rows[i + 1..]);
    BytesAppend([rows[i]], rows[i + 1..]);
    BytesAppend(rows[..i], rows[i + 1..]);
    assert [rows[i]][..0] == [];
  }

  lemma NeededOnce(original: seq<Row>, rows: seq<Row>, victims: seq<Row>, policy: Policy, limits: Limits)
    requires Splits(original, rows, victims, policy) && IsOver(rows, limits)
    ensures Over(|original| - |victims|, Bytes(original) - Bytes(victims), limits)
  {
    assert |rows| == |multiset(rows)| && |victims| == |multiset(victims)| && |original| == |multiset(original)|;
  }

  lemma StillNeeded(original: seq<Row>, before: seq<Row>, after: seq<Row>, limits: Limits)
    requires EachNeeded(original, before, limits)
    requires Over(|original| - |before|, Bytes(original) - Bytes(before), limits)
    requires |after| == |before| + 1 && after[..|before|] == before
    ensures EachNeeded(original, after, limits)
  {
    forall n | 0 <= n < |after| ensures Over(|original| - n, Bytes(original) - Bytes(after[..n]), limits) {
      assert after[..n] == before[..n];
      assert before[..|before|] == before;
    }
  }

  // ---- Both loops evict the same rows ---------------------------------------------------------------

  /** No two rows tie under the policy, and keys are unique. */
  ghost predicate Strict(original: seq<Row>, policy: Policy) {
    forall i, j :: 0 <= i < j < |original| ==>
      original[i] != original[j]
      && (Precedes(policy, original[i], original[j]) || Precedes(policy, original[j], original[i]))
  }

  /** Every row but an earlier victim comes after victim n, or is it. */
  lemma VictimIsFirst(original: seq<Row>, rows: seq<Row>, victims: seq<Row>, policy: Policy, n: nat, other: Row)
    requires Strict(original, policy) && Splits(original, rows, victims, policy)
    requires n < |victims| && other in original && other !in victims[..n]
    ensures other == victims[n] || Precedes(policy, victims[n], other)
  {
    assert other in multiset(original) && victims[n] in multiset(victims);
    assert victims[n] in multiset(original);
    var i :| 0 <= i < |original| && original[i] == other;
    var j :| 0 <= j < |original| && original[j] == victims[n];
    assert !Precedes(policy, other, victims[n]) by {
      if other !in rows {
        assert other in multiset(victims);
        var k :| 0 <= k < |victims| && victims[k] == other;
        assert forall m :: 0 <= m < n ==> victims[..n][m] == victims[m];
      }
    }
  }

  /** No row is evicted twice. */
  lemma VictimsAreDistinct(original: seq<Row>, rows: seq<Row>, victims: seq<Row>, policy: Policy, n: nat)
    requires Strict(original, policy) && Splits(original, rows, victims, policy) && n < |victims|
    ensures victims[n] !in victims[..n] && victims[n] in original
  {
    OnceEach(original);
    CountedAgain(victims, n);
    assert multiset(original)[victims[n]] >= multiset(victims)[victims[n]] >= 1 + multiset(victims[..n])[victims[n]];
  }

  lemma CountedAgain(s: seq<Row>, n: nat)
    requires n < |s|
    ensures multiset(s)[s[n]] >= 1 + multiset(s[..n])[s[n]]
  {
    assert s == s[..n] + [s[n]] + s[n + 1..];
    assert multiset(s) == multiset(s[..n]) + multiset{s[n]} + multiset(s[n + 1..]);
  }

  lemma {:induction false} OnceEach(s: seq<Row>)
    requires forall i, j :: 0 <= i < j < |s| ==> s[i] != s[j]
    ensures forall r :: multiset(s)[r] <= 1
  {
    if s != [] {
      var front, last := s[..|s| - 1], s[|s| - 1];
      OnceEach(front);
      assert s == front + [last];
      assert last !in front;
    }
  }

  /** Under a strict order two evictions from the same rows agree as far as both go. */
  lemma {:induction false} SameVictims(original: seq<Row>, rowsA: seq<Row>, a: seq<Row>, rowsB: seq<Row>, b: seq<Row>,
                                      policy: Policy, n: nat)
    requires Strict(original, policy) && n <= |a| && n <= |b|
    requires Splits(original, rowsA, a, policy) && Splits(original, rowsB, b, policy)
    ensures a[..n] == b[..n]
  {
    if n > 0 {
      SameVictims(original, rowsA, a, rowsB, b, policy, n - 1);
      VictimsAreDistinct(original, rowsA, a, policy, n - 1);
      VictimsAreDistinct(original, rowsB, b, policy, n - 1);
      VictimIsFirst(original, rowsA, a, policy, n - 1, b[n - 1]);
      VictimIsFirst(original, rowsB, b, policy, n - 1, a[n - 1]);
      assert a[..n] == a[..n - 1] + [a[n - 1]] && b[..n] == b[..n - 1] + [b[n - 1]];
    }
  }

  /**
   * Under a strict order there is one shortest fitting prefix: whatever loop finds one evicts
   * exactly these rows, in this order.
   */
  lemma EvictionIsUnique(original: seq<Row>, rowsA: seq<Row>, a: seq<Row>, rowsB: seq<Row>, b: seq<Row>,
                         policy: Policy, limits: Limits)
    requires Strict(original, policy)
    requires ShortestFitting(original, rowsA, a, policy, limits) && ShortestFitting(original, rowsB, b, policy, limits)
    ensures a == b && multiset(rowsA) == multiset(rowsB)
  {
    var n := Min(|a|, |b|);
    SameVictims(original, rowsA, a, rowsB, b, policy, n);
    NoLonger(original, rowsA, a, rowsB, b, policy, limits);
    NoLonger(original, rowsB, b, rowsA, a, policy, limits);
    assert a[..n] == a && b[..n] == b;
    assert multiset(rowsA) == multiset(original) - multiset(a);
    assert multiset(rowsB) == multiset(original) - multiset(b);
  }

  lemma NoLonger(original: seq<Row>, rowsA: seq<Row>, a: seq<Row>, rowsB: seq<Row>, b: seq<Row>,
                   policy: Policy, limits: Limits)
    requires ShortestFitting(original, rowsA, a, policy, limits) && ShortestFitting(original, rowsB, b, policy, limits)
    requires a[..Min(|a|, |b|)] == b[..Min(|a|, |b|)]
    ensures |a| >= |b|
  {
    assert |rowsA| == |multiset(rowsA)| && |a| == |multiset(a)| && |original| == |multiset(original)|;
    assert |rowsB| == |multiset(rowsB)| && |b| == |multiset(b)|;
    var n := Min(|a|, |b|);
    assert Bytes(b[..n]) == Bytes(a[..n]) && a[..|a|] == a;
  }
}
