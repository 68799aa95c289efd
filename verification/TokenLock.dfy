/**
 * The distributed lock: a row holding its owner's token, added only where there is no live row,
 * released only by the token it holds, removed by sweeps and lazy deletes once expired. Every
 * process judges expiry by a clock reading that may be old by the time its statement runs.
 */
module TokenLock {
  import opened Prelude

  type Token = nat

  datatype Holding = Holding(token: Token, expiresAt: int)

  // ---- The statements on the lock's row ---------------------------------------------------------

  predicate FreeAt(row: Option<Holding>, read: int) {
    row.None? || row.value.expiresAt <= read
  }

  class LockTable {
    var row: Option<Holding>

    constructor ()
      ensures row == None
    {
      row := None;
    }

    /** SET NX with a TTL. */
    method Add(token: Token, ttl: int, read: int) returns (won: bool)
      modifies this
      ensures won <==> old(row).None? || old(row).value.expiresAt <= read
      ensures row == if won then Some(Holding(token, read + ttl)) else old(row)
    {
      won := row.None? || row.value.expiresAt <= read;
      if won {
        row := Some(Holding(token, read + ttl));
      }
    }

    /** Read and delete in one transaction: only the row that still holds this token. */
    method Release(token: Token) returns (deleted: bool)
      modifies this
      ensures deleted <==> old(row).Some? && old(row).value.token == token
      ensures row == if deleted then None else old(row)
    {
      if row.None? || row.value.token != token {
        return false;
      }
      row := None;
      return true;
    }

    /** A sweep, or the lazy delete of a reader that found the row expired. */
    method DeleteExpired(read: int)
      modifies this
      ensures row == if old(row).Some? && old(row).value.expiresAt <= read then None else old(row)
    {
      if row.Some? && row.value.expiresAt <= read {
        row := None;
      }
    }
  }

  /** What a waiting process meets at one attempt: the row others left, its clock before and after. */
  datatype Round = Round(row: Option<Holding>, read: int, check: int)

  class CacheLock {
    const token: Token
    const ttl: int
    var released: bool

    constructor (token: Token, ttl: int)
      ensures this.token == token && this.ttl == ttl && !released
    {
      this.token := token;
      this.ttl := ttl;
      released := false;
    }

    /**
     * Polls until the row is free or the deadline has passed after a failed attempt. It stops at
     * the first free round, and otherwise at the first round past the deadline.
     */
    method Acquire(table: LockTable, rounds: seq<Round>, deadline: int) returns (won: bool, n: nat)
      requires rounds != [] && rounds[|rounds| - 1].check >= deadline
      modifies table
      ensures n < |rounds|
      ensures forall i :: 0 <= i < n ==> !FreeAt(rounds[i].row, rounds[i].read) && rounds[i].check < deadline
      ensures won <==> FreeAt(rounds[n].row, rounds[n].read)
      ensures !won ==> rounds[n].check >= deadline
      ensures table.row == if won then Some(Holding(token, rounds[n].read + ttl)) else rounds[n].row
    {
      n := 0;
      while true
        invariant n < |rounds|
        invariant forall i :: 0 <= i < n ==> !FreeAt(rounds[i].row, rounds[i].read) && rounds[i].check < deadline
        decreases |rounds| - n
      {
        table.row := rounds[n].row;
        won := table.Add(token, ttl, rounds[n].read);
        if won {
          return;
        }
        if rounds[n].check >= deadline {
          return;
        }
        n := n + 1;
      }
    }

    /** Safe to call more than once: only the first call touches the table. */
    method Release(table: LockTable)
      modifies this, table
      ensures released
      ensures table.row == if !old(released) && old(table.row).Some? && old(table.row).value.token == token
                           then None else old(table.row)
    {
      if !released {
        released := true;
        var _ := table.Release(token);
      }
    }
  }

  // ---- Every run --------------------------------------------------------------------------------

  /** The row, the time, and what each process that ever won was promised and has given up. */
  datatype State = State(now: int, row: Option<Holding>, granted: map<Token, int>, released: set<Token>)

  datatype Step =
    | Tick(now: int)
    | TryAdd(token: Token, ttl: int, read: int)
    | GiveUp(token: Token)
    | Remove(read: int)

  const Start := State(0, None, map[], {})

  /** Clocks never run ahead; a token is drawn afresh for each lock and wins at most once; only a winner releases. */
  predicate Enabled(s: State, step: Step) {
    match step
    case Tick(now) => s.now <= now
    case TryAdd(token, _, read) => read <= s.now && token !in s.granted
    case GiveUp(token) => token in s.granted
    case Remove(read) => read <= s.now
  }

  function Next(s: State, step: Step): State {
    match step
    case Tick(now) => s.(now := now)
    case TryAdd(token, ttl, read) =>
      if FreeAt(s.row, read) then s.(row := Some(Holding(token, read + ttl)), granted := s.granted[token := read + ttl])
      else s
    case GiveUp(token) =>
      s.(row := if s.row.Some? && s.row.value.token == token then None else s.row, released := s.released + {token})
    case Remove(read) => s.(row := if FreeAt(s.row, read) then None else s.row)
  }

  predicate Possible(s: State, steps: seq<Step>)
    decreases |steps|
  {
    steps == [] || (Enabled(s, steps[0]) && Possible(Next(s, steps[0]), steps[1..]))
  }

  function Run(s: State, steps: seq<Step>): State
    decreases |steps|
  {
    if steps == [] then s else Run(Next(s, steps[0]), steps[1..])
  }

  /** Won, not released, and its time not yet up. */
  predicate Holds(s: State, token: Token) {
    token in s.granted && token !in s.released && s.now < s.granted[token]
  }

  /** A live holder's row is there with its token and its expiry; a row always belongs to an unreleased winner. */
  ghost predicate Inv(s: State) {
    && (forall t :: t in s.granted && Holds(s, t) ==> s.row == Some(Holding(t, s.granted[t])))
    && (s.row.Some? ==> s.row.value.token in s.granted && s.row.value.token !in s.released
                        && s.granted[s.row.value.token] == s.row.value.expiresAt)
    && s.released <= s.granted.Keys
  }

  lemma StepKeepsInv(s: State, step: Step)
    requires Inv(s) && Enabled(s, step)
    ensures Inv(Next(s, step))
  {
    var after := Next(s, step);
    forall t | t in after.granted && Holds(after, t) ensures after.row == Some(Holding(t, after.granted[t])) {
      if t in s.granted {
        assert Holds(s, t);
      }
    }
  }

  lemma {:induction false} RunKeepsInv(s: State, steps: seq<Step>)
    requires Inv(s) && Possible(s, steps)
    ensures Inv(Run(s, steps))
    decreases |steps|
  {
    if steps != [] {
      StepKeepsInv(s, steps[0]);
      RunKeepsInv(Next(s, steps[0]), steps[1..]);
    }
  }

  /** Whatever the interleaving, two processes never hold the lock at the same time. */
  lemma AtMostOneHolder(steps: seq<Step>, a: Token, b: Token)
    requires Possible(Start, steps) && Holds(Run(Start, steps), a) && Holds(Run(Start, steps), b)
    ensures a == b && Run(Start, steps).row == Some(Holding(a, Run(Start, steps).granted[a]))
  {
    RunKeepsInv(Start, steps);
  }

  /** A release, a sweep, a lazy delete or another's attempt never takes a holder's row away. */
  lemma OthersNeverRemoveIt(steps: seq<Step>, step: Step, holder: Token)
    requires Possible(Start, steps) && Enabled(Run(Start, steps), step)
    requires Holds(Run(Start, steps), holder)
    requires !step.Tick? && step != GiveUp(holder)
    ensures var s := Run(Start, steps); Next(s, step).row == s.row && Holds(Next(s, step), holder)
  {
    RunKeepsInv(Start, steps);
  }

  /** An attempt with an up-to-date reading wins exactly when nobody holds the lock. */
  lemma FreshAttemptWins(steps: seq<Step>, token: Token, ttl: int)
    requires Possible(Start, steps) && token !in Run(Start, steps).granted
    ensures var s := Run(Start, steps);
            token in Next(s, TryAdd(token, ttl, s.now)).granted <==> forall t :: t in s.granted ==> !Holds(s, t)
  {
    RunKeepsInv(Start, steps);
    var s := Run(Start, steps);
    if !FreeAt(s.row, s.now) {
      assert Holds(s, s.row.value.token);
    }
  }

  /** Whatever happens after a win, its token holds the lock until it gives up or its time is over. */
  lemma WinnerHoldsUntil(steps: seq<Step>, token: Token, ttl: int, read: int, more: seq<Step>)
    requires Possible(Start, steps) && Enabled(Run(Start, steps), TryAdd(token, ttl, read))
    requires Run(Start, steps).row.None? || Run(Start, steps).row.value.expiresAt <= read
    requires Possible(Next(Run(Start, steps), TryAdd(token, ttl, read)), more)
    ensures var end := Run(Next(Run(Start, steps), TryAdd(token, ttl, read)), more);
            Holds(end, token) <==> GiveUp(token) !in more && end.now < read + ttl
  {
    RunKeepsInv(Start, steps);
    PromiseIsKept(Next(Run(Start, steps), TryAdd(token, ttl, read)), token, more);
  }

  lemma {:induction false} PromiseIsKept(s: State, token: Token, more: seq<Step>)
    requires token in s.granted && Possible(s, more)
    ensures var end := Run(s, more);
            && token in end.granted && end.granted[token] == s.granted[token]
            && (token in end.released <==> token in s.released || GiveUp(token) in more)
    decreases |more|
  {
    if more != [] {
      PromiseIsKept(Next(s, more[0]), token, more[1..]);
      assert more == [more[0]] + more[1..];
    }
  }

  // ---- Without the guard ----------------------------------------------------------------------------

  /** A delete by key alone, as the Go client's lazy delete issues after it saw an expired row. */
  function RawDelete(s: State): State {
    s.(row := None)
  }

  ghost predicate TwoHolders(s: State) {
    exists a, b :: a != b && Holds(s, a) && Holds(s, b)
  }

  /** Some run from here, with none but the guarded steps, ends with two holders. */
  ghost predicate CanBreak(s: State) {
    exists steps :: Possible(s, steps) && TwoHolders(Run(s, steps))
  }

  /** The lock has a holder exactly when its row is there and has not expired. */
  lemma HolderIffRowIsLive(steps: seq<Step>)
    requires Possible(Start, steps)
    ensures var s := Run(Start, steps); (exists t :: Holds(s, t)) <==> !FreeAt(s.row, s.now)
  {
    RunKeepsInv(Start, steps);
    var s := Run(Start, steps);
    if !FreeAt(s.row, s.now) {
      assert Holds(s, s.row.value.token);
    }
  }

  /** There is always a token nobody has drawn yet. */
  lemma {:induction false} FreshToken(drawn: set<Token>) returns (t: Token)
    ensures forall d :: d in drawn ==> d < t
    decreases |drawn|
  {
    if drawn == {} {
      t := 0;
    } else {
      var d :| d in drawn;
      assert drawn == (drawn - {d}) + {d};
      t := FreshToken(drawn - {d});
      t := if d < t then t else d + 1;
    }
  }

  /**
   * Such a delete can lead to two holders exactly when, as it runs, the row it removes has not expired:
   * that is the guard the delete lacks.
   */
  lemma RawDeleteIsSafe(steps: seq<Step>)
    requires Possible(Start, steps)
    ensures var s := Run(Start, steps); CanBreak(RawDelete(s)) <==> !FreeAt(s.row, s.now)
  {
    RunKeepsInv(Start, steps);
    var s := Run(Start, steps);
    var r := RawDelete(s);
    if FreeAt(s.row, s.now) {
      assert forall t :: t in s.granted ==> !Holds(s, t);
      assert forall t :: t in r.granted ==> Holds(r, t) == Holds(s, t);
      forall more | Possible(r, more) ensures !TwoHolders(Run(r, more)) {
        RunKeepsInv(r, more);
      }
    } else {
      var t := FreshToken(s.granted.Keys);
      var more := [TryAdd(t, 1, s.now)];
      var after := Next(r, more[0]);
      assert more[1..] == [] && Run(after, []) == after && Possible(after, []);
      assert Run(r, more) == after && Possible(r, more);
      assert Holds(after, t) && Holds(after, s.row.value.token);
    }
  }

  /**
   * And a reader cannot know that: it sees the lock of process 1 expired at time 10, process 2
   * takes the lock, the reader's delete runs, and process 3 takes it as well.
   */
  lemma RawDeleteBreaksTheLock()
    ensures var before := [TryAdd(1, 10, 0), Tick(10), TryAdd(2, 10, 10)];
            && Possible(Start, before)
            && FreeAt(Run(Start, before[..2]).row, 10)
            && var s := RawDelete(Run(Start, before));
               Enabled(s, TryAdd(3, 10, 10))
               && Holds(Next(s, TryAdd(3, 10, 10)), 2)
               && Holds(Next(s, TryAdd(3, 10, 10)), 3)
  {
    var a, b, c := TryAdd(1, 10, 0), Tick(10), TryAdd(2, 10, 10);
    var s1 := Next(Start, a);
    var s2 := Next(s1, b);
    var s3 := Next(s2, c);
    assert [a, b, c][1..] == [b, c] && [b, c][1..] == [c] && [c][1..] == [];
    assert [a, b, c][..2] == [a, b] && [a, b][1..] == [b] && [b][1..] == [];
    assert Run(s3, []) == s3 && Run(s2, [c]) == s3 && Run(s1, [b, c]) == s3;
    assert Run(s2, []) == s2 && Run(s1, [b]) == s2;
    assert Possible(s3, []) && Possible(s2, [c]) && Possible(s1, [b, c]);
  }
}
