/** Listing keys page by page while other processes insert and delete between the pages. */
module KeyPages {
  // ---- The order of keys ------------------------------------------------------------------------

  /** Byte order, as ORDER BY and > use it on keys. */
  predicate Less(a: string, b: string) {
    if b == [] then false
    else if a == [] then true
    else a[0] < b[0] || (a[0] == b[0] && Less(a[1..], b[1..]))
  }

  lemma {:induction false} LessIsStrict(a: string)
    ensures !Less(a, a)
  {
    if a != [] {
      LessIsStrict(a[1..]);
    }
  }

  lemma {:induction false} LessIsTotal(a: string, b: string)
    ensures a == b || Less(a, b) || Less(b, a)
  {
    if a != [] && b != [] && a[0] == b[0] {
      LessIsTotal(a[1..], b[1..]);
      assert a == [a[0]] + a[1..] && b == [b[0]] + b[1..];
    }
  }

  lemma {:induction false} LessIsTransitive(a: string, b: string, c: string)
    requires Less(a, b) && Less(b, c)
    ensures Less(a, c)
  {
    if a != [] && a[0] == b[0] == c[0] {
      LessIsTransitive(a[1..], b[1..], c[1..]);
    }
  }

  /** `a` and `b` agree on their first `n` characters; then `a` ends, or has the smaller character. */
  ghost predicate PartsAt(a: string, b: string, n: nat) {
    && n <= |a| && n < |b| && a[..n] == b[..n]
    && (n == |a| || a[n] as int < b[n] as int)
  }

  /** One key comes before another exactly when it does so at the first place where they differ. */
  lemma {:induction false} LessIsByteOrder(a: string, b: string)
    ensures Less(a, b) <==> exists n: nat :: PartsAt(a, b, n)
  {
    if a == [] || b == [] {
      if b != [] {
        assert PartsAt(a, b, 0);
      }
    } else {
      LessIsByteOrder(a[1..], b[1..]);
      if n: nat :| PartsAt(a, b, n) {
        if n > 0 {
          assert a[0] == a[..n][0] == b[..n][0];
          assert a[1..][..n - 1] == a[..n][1..] && b[1..][..n - 1] == b[..n][1..];
          assert PartsAt(a[1..], b[1..], n - 1);
        }
      }
      if Less(a, b) {
        if a[0] < b[0] {
          assert PartsAt(a, b, 0);
        } else {
          var n: nat :| PartsAt(a[1..], b[1..], n);
          assert a[..n + 1] == [a[0]] + a[1..][..n] && b[..n + 1] == [b[0]] + b[1..][..n];
          assert PartsAt(a, b, n + 1);
        }
      }
    }
  }

  ghost predicate Increasing(keys: seq<string>) {
    forall i, j :: 0 <= i < j < |keys| ==> Less(keys[i], keys[j])
  }

  lemma IncreasingAppend(a: seq<string>, last: string, b: seq<string>)
    requires Increasing(a) && Increasing(b)
    requires a == [] || last == a[|a| - 1]
    requires forall k :: k in b ==> Less(last, k)
    ensures Increasing(a + b)
  {
    forall i, j | 0 <= i < j < |a + b| ensures Less((a + b)[i], (a + b)[j]) {
      if i < |a| <= j {
        assert (a + b)[j] == b[j - |a|];
        if i < |a| - 1 {
          LessIsTransitive(a[i], last, b[j - |a|]);
        }
      }
    }
  }

  // ---- One page -----------------------------------------------------------------------------------

  const BATCH_SIZE: nat := 500

  /** `rows` are the first `limit` keys of the table after `last`, in order, or all of them. */
  ghost predicate IsPage(table: set<string>, last: string, limit: nat, rows: seq<string>) {
    && Increasing(rows) && |rows| <= limit
    && (forall k :: k in rows ==> k in table && Less(last, k))
    && (forall k :: k in table && Less(last, k) ==>
          k in rows || (|rows| == limit && (limit == 0 || Less(rows[limit - 1], k))))
  }

  /** The least key of the table after `last`. */
  method LeastAfter(table: set<string>, last: string) returns (found: bool, least: string)
    ensures found ==> least in table && Less(last, least)
    ensures found ==> forall k :: k in table && Less(last, k) ==> k == least || Less(least, k)
    ensures !found ==> forall k :: k in table ==> !Less(last, k)
  {
    found, least := false, "";
    var left := table;
    while left != {}
      invariant left <= table
      invariant found ==> least in table && Less(last, least)
      invariant found ==> forall k :: k in table && k !in left && Less(last, k) ==> k == least || Less(least, k)
      invariant !found ==> forall k :: k in table && k !in left ==> !Less(last, k)
      decreases |left|
    {
      var k :| k in left;
      left := left - {k};
      if Less(last, k) {
        if !found {
          found, least := true, k;
        } else if Less(k, least) {
          forall j | j in table && j !in left && Less(last, j) ensures j == k || Less(k, j) {
            if j != k && j != least {
              LessIsTransitive(k, least, j);
            }
          }
          least := k;
        } else {
          LessIsTotal(k, least);
        }
      }
    }
  }

  /** SELECT key ... WHERE key > last ORDER BY key LIMIT limit. */
  method SelectPage(table: set<string>, last: string, limit: nat) returns (rows: seq<string>)
    ensures IsPage(table, last, limit, rows)
  {
    rows := [];
    var from := last;
    while |rows| < limit
      invariant IsPage(table, last, |rows|, rows)
      invariant from == if rows == [] then last else rows[|rows| - 1]
      invariant |rows| <= limit
    {
      var found, k := LeastAfter(table, from);
      if !found {
        return;
      }
      GrowPage(table, last, rows, from, k);
      rows := rows + [k];
      from := k;
    }
  }

  lemma GrowPage(table: set<string>, last: string, rows: seq<string>, from: string, next: string)
    requires IsPage(table, last, |rows|, rows) && from == if rows == [] then last else rows[|rows| - 1]
    requires next in table && Less(from, next)
    requires forall k :: k in table && Less(from, k) ==> k == next || Less(next, k)
    ensures IsPage(table, last, |rows| + 1, rows + [next])
  {
    var more := rows + [next];
    IncreasingAppend(rows, from, [next]);
    if rows != [] {
      LessIsTransitive(last, from, next);
    }
    forall k | k in table && Less(last, k) ensures k in more || Less(more[|rows|], k) {
      if k !in rows {
        assert Less(from, k);
      }
    }
  }

  // ---- The whole scan -------------------------------------------------------------------------------

  /**
   * A scan that reads page n from `tables[n]`: the live, matching keys at that moment, whatever
   * other processes have done since the page before. `complete` tells whether it came to its end
   * within these pages.
   */
  method Scan(tables: seq<set<string>>) returns (keys: seq<string>, complete: bool, pages: nat)
    ensures Increasing(keys) && pages <= |tables|
    ensures forall k :: k in keys ==> k != "" && exists n :: 0 <= n < pages && k in tables[n]
    ensures complete ==> forall k :: k != "" && (forall n :: 0 <= n < pages ==> k in tables[n]) ==> k in keys
    ensures !complete ==> pages == |tables| && |keys| == 500 * pages
  {
    keys, complete, pages := [], false, 0;
    var last := "";
    while pages < |tables|
      invariant pages <= |tables| && |keys| == BATCH_SIZE * pages && !complete
      invariant Increasing(keys) && last == if keys == [] then "" else keys[|keys| - 1]
      invariant forall k :: k in keys ==> k != "" && exists n :: 0 <= n < pages && k in tables[n]
      invariant forall k :: k != "" && (forall n :: 0 <= n < pages ==> k in tables[n]) ==> k in keys || Less(last, k)
    {
      var rows := SelectPage(tables[pages], last, BATCH_SIZE);
      ghost var before := pages;
      IncreasingAppend(keys, last, rows);
      pages := pages + 1;
      assert forall k :: k in rows ==> k in tables[before];
      if rows == [] {
        complete := true;
        return;
      }
      keys := keys + rows;
      last := rows[|rows| - 1];
      if |rows| < BATCH_SIZE {
        complete := true;
        return;
      }
    }
  }

  /** On a quiet table the scan ends, and lists every key but the empty one, in order. */
  method ScanQuiet(table: set<string>, n: nat) returns (keys: seq<string>)
    requires 500 * n > |table|
    ensures Increasing(keys) && forall k :: k in keys <==> k in table && k != ""
  {
    var tables := seq(n, i requires 0 <= i < n => table);
    var complete, pages;
    keys, complete, pages := Scan(tables);
    forall k | k in keys ensures k in table {
      var m :| 0 <= m < pages && k in tables[m];
    }
    DistinctKeys(keys, table);
    assert complete;
  }

  lemma {:induction false} DistinctKeys(keys: seq<string>, table: set<string>)
    requires Increasing(keys) && forall k :: k in keys ==> k in table
    ensures |keys| <= |table|
    decreases |keys|
  {
    if keys != [] {
      var front, last := keys[..|keys| - 1], keys[|keys| - 1];
      forall i | 0 <= i < |front| ensures front[i] != last {
        LessIsStrict(last);
      }
      DistinctKeys(front, table - {last});
    }
  }
}
