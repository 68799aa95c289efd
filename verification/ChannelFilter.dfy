/** Which channels a watch sees: compiling patterns to a SQL filter, and the same rule in Go. */
module ChannelFilter {
  import opened Prelude

  /** One disjunct of the compiled WHERE clause. */
  datatype Clause =
    | PrefixIs(length: nat, prefix: string)  // substr(channel, 1, length) = prefix
    | NameIs(name: string)                   // channel = name

  /** The compiled filter: the constant 1, or a disjunction of clauses. */
  datatype Filter = Everything | AnyOf(clauses: seq<Clause>)

  /** SQL substr(s, 1, n): the first n characters, or all of s when it is shorter. */
  function Substr(s: string, n: nat): string {
    if n <= |s| then s[..n] else s
  }

  predicate ClauseHolds(c: Clause, channel: string) {
    match c
    case PrefixIs(n, prefix) => Substr(channel, n) == prefix
    case NameIs(name) => channel == name
  }

  predicate Accepts(f: Filter, channel: string) {
    f.Everything? || exists i :: 0 <= i < |f.clauses| && ClauseHolds(f.clauses[i], channel)
  }

  predicate EndsInStar(p: string) {
    p != "" && p[|p| - 1] == '*'
  }

  /** The matching rule as the admin tooling states it, on one pattern. */
  predicate MatchChannel(pattern: string, channel: string) {
    if pattern == "" then false
    else if EndsInStar(pattern) then pattern[..|pattern| - 1] <= channel
    else channel == pattern
  }

  /** A pattern stands for one channel, or for every channel that begins with what stands before its final star. */
  lemma MatchRule(pattern: string, channel: string)
    ensures MatchChannel(pattern, channel) <==>
            || (exists prefix, rest :: pattern == prefix + "*" && channel == prefix + rest)
            || (pattern == channel && pattern != "" && pattern[|pattern| - 1] != '*')
  {
    if EndsInStar(pattern) {
      var prefix := pattern[..|pattern| - 1];
      assert pattern == prefix + "*";
      assert prefix <= channel ==> channel == prefix + channel[|prefix|..];
    }
    forall prefix, rest | pattern == prefix + "*" && channel == prefix + rest ensures MatchChannel(pattern, channel) {
      assert pattern[..|pattern| - 1] == prefix;
    }
  }

  predicate MatchesAny(patterns: seq<string>, channel: string) {
    exists i :: 0 <= i < |patterns| && MatchChannel(patterns[i], channel)
  }

  lemma SubstrIsPrefix(channel: string, prefix: string)
    ensures Substr(channel, |prefix|) == prefix <==> prefix <= channel
  {
  }

  lemma AppendClause(f: Filter, c: Clause, channel: string)
    requires f.AnyOf?
    ensures Accepts(AnyOf(f.clauses + [c]), channel) <==> Accepts(f, channel) || ClauseHolds(c, channel)
  {
    var g := AnyOf(f.clauses + [c]);
    if ClauseHolds(c, channel) {
      assert g.clauses[|f.clauses|] == c;
    }
    if Accepts(f, channel) {
      var i :| 0 <= i < |f.clauses| && ClauseHolds(f.clauses[i], channel);
      assert g.clauses[i] == f.clauses[i];
    }
  }

  /**
   * Compiles watch patterns. A lone star answers at once, so an empty pattern is rejected only
   * when no lone star stands before it.
   */
  method Compile(patterns: seq<string>) returns (r: Option<Filter>)
    ensures r.None? <==>
            exists i :: 0 <= i < |patterns| && patterns[i] == "" && forall j :: 0 <= j < i ==> patterns[j] != "*"
    ensures r.Some? ==> forall channel :: Accepts(r.value, channel) <==> MatchesAny(patterns, channel)
  {
    var clauses: seq<Clause> := [];
    for n := 0 to |patterns|
      invariant forall j :: 0 <= j < n ==> patterns[j] != "" && patterns[j] != "*"
      invariant forall channel :: Accepts(AnyOf(clauses), channel) <==> MatchesAny(patterns[..n], channel)
    {
      var p := patterns[n];
      if p == "" {
        return None;
      }
      if p == "*" {
        forall channel ensures MatchesAny(patterns, channel) {
          assert MatchChannel(patterns[n], channel);
        }
        return Some(Everything);
      }
      var clause := if EndsInStar(p) then PrefixIs(|p| - 1, p[..|p| - 1]) else NameIs(p);
      forall channel
        ensures Accepts(AnyOf(clauses + [clause]), channel) <==> MatchesAny(patterns[..n + 1], channel)
      {
        AppendClause(AnyOf(clauses), clause, channel);
        assert ClauseHolds(clause, channel) <==> MatchChannel(p, channel) by {
          if EndsInStar(p) { SubstrIsPrefix(channel, p[..|p| - 1]); }
        }
      }
      clauses := clauses + [clause];
    }
    assert patterns[..|patterns|] == patterns;
    return Some(AnyOf(clauses));
  }
}
