/** Hash calls come to their end: statements at once, read-modify-writes whatever others try meanwhile. */
module HashProgress {
  import opened Prelude
  import HashSpec
  import opened HashRuns
  import HashStore

  /** Steps that are not this process's. */
  ghost predicate Others(steps: seq<Step>, p: nat) {
    forall i :: 0 <= i < |steps| ==> steps[i].Write? || steps[i].process != p
  }

  lemma {:induction false} RunsCompose(s: System, first: seq<Step>, rest: seq<Step>)
    ensures Execute(s, first + rest) == Execute(Execute(s, first), rest)
    decreases |rest|
  {
    if rest == [] {
      assert first + rest == first;
    } else {
      RunsCompose(s, first, rest[..|rest| - 1]);
      assert (first + rest)[..|first + rest| - 1] == first + rest[..|rest| - 1];
    }
  }

  /** While a process holds the lock nothing that others do has any effect. */
  lemma OthersWait(rows0: Rows, s: System, p: nat, step: Step)
    requires Inv(rows0, s) && s.holder == Some(p) && (step.Write? || step.process != p)
    ensures Next(s, step) == s
  {
    if !step.Write? && step.process in s.phases {
      assert PhaseInv(rows0, s, step.process);
    }
  }

  lemma {:induction false} AllWait(rows0: Rows, s: System, p: nat, steps: seq<Step>)
    requires Inv(rows0, s) && s.holder == Some(p) && Others(steps, p)
    ensures Execute(s, steps) == s
    decreases |steps|
  {
    if steps != [] {
      AllWait(rows0, s, p, steps[..|steps| - 1]);
      OthersWait(rows0, s, p, steps[|steps| - 1]);
    }
  }

  /** A step of the holder, after whatever others tried. */
  lemma ThenStep(rows0: Rows, s: System, p: nat, waiting: seq<Step>, step: Step)
    requires Inv(rows0, s) && s.holder == Some(p) && Others(waiting, p)
    ensures Execute(s, waiting + [step]) == Next(s, step) && Inv(rows0, Next(s, step))
  {
    AllWait(rows0, s, p, waiting);
    assert (waiting + [step])[..|waiting + [step]| - 1] == waiting;
    StepKeepsInv(rows0, s, step);
  }

  /** The call has been done: its row is stored, its answer given, the lock free, nothing else changed. */
  ghost predicate IsDone(s: System, t: System, p: nat, path: Path, key: string, call: HashSpec.Call) {
    var (row, answer) := Effect(path, call, Look(s.rows, key));
    && Look(t.rows, key) == row && (forall k :: k != key ==> Look(t.rows, k) == Look(s.rows, k))
    && t.holder.None? && t.log == s.log + [Hashed(path, key, call)]
    && t.phases == s.phases[p := Answered(|s.log|, answer)]
  }

  /** A statement of an idle process is done in its one step, unless another holds the lock. */
  lemma StatementIsDone(s: System, p: nat, key: string, call: HashSpec.Call)
    requires s.holder.None? && Free(s, p)
    ensures IsDone(s, Next(s, Statement(p, key, call)), p, Statements, key, call)
  {
  }

  /** A read-modify-write that has begun is done by its three further steps, whatever others try in between. */
  lemma CallIsDone(rows0: Rows, steps: seq<Step>, p: nat, client: HashStore.Client, key: string, call: HashSpec.Call,
                   a: seq<Step>, b: seq<Step>, c: seq<Step>)
    requires Execute(Initial(rows0), steps).holder.None? && Free(Execute(Initial(rows0), steps), p)
    requires Others(a, p) && Others(b, p) && Others(c, p)
    ensures var run := [Begin(p, client, key, call)] + (a + [Load(p)]) + (b + [Compute(p)]) + (c + [Commit(p)]);
            var s := Execute(Initial(rows0), steps);
            IsDone(s, Execute(s, run), p, ReadModifyWrite(client), key, call)
  {
    var s := Execute(Initial(rows0), steps);
    var begin := [Begin(p, client, key, call)];
    RunKeepsInv(rows0, steps);
    StepKeepsInv(rows0, s, begin[0]);
    assert begin[..0] == [];
    var s1 := Next(s, begin[0]);
    assert Execute(s, begin) == s1;
    ThenStep(rows0, s1, p, a, Load(p));
    var s2 := Next(s1, Load(p));
    ThenStep(rows0, s2, p, b, Compute(p));
    var s3 := Next(s2, Compute(p));
    ThenStep(rows0, s3, p, c, Commit(p));
    RunsCompose(s, begin, a + [Load(p)]);
    RunsCompose(s, begin + (a + [Load(p)]), b + [Compute(p)]);
    RunsCompose(s, begin + (a + [Load(p)]) + (b + [Compute(p)]), c + [Commit(p)]);
    CommitIsDone(s, p, client, key, call);
  }

  lemma CommitIsDone(s: System, p: nat, client: HashStore.Client, key: string, call: HashSpec.Call)
    requires s.holder.None? && Free(s, p)
    ensures var t := Next(Next(Next(Next(s, Begin(p, client, key, call)), Load(p)), Compute(p)), Commit(p));
            IsDone(s, t, p, ReadModifyWrite(client), key, call)
  {
  }
}
