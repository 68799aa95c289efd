/**
 * Many processes changing hashes at once: single statements, and transactions that begin, read,
 * mutate and commit as separate steps under SQLite's one write lock. No update is lost.
 */
module HashRuns {
  import opened Prelude
  import opened OrderedFields
  import opened HashDoc
  import opened HashSpec
  import HashMany
  import HashStore

  type Rows = map<string, Row>

  function Look(rows: Rows, key: string): Option<Row> {
    if key in rows then Some(rows[key]) else None
  }

  function Store(rows: Rows, key: string, row: Option<Row>): Rows {
    if row.Some? then rows[key := row.value] else rows - {key}
  }

  type Answer = Result<Outcome, Error>

  /** How a process performs its hash calls. */
  datatype Path = Statements | ReadModifyWrite(client: HashStore.Client)

  function Effect(path: Path, call: Call, row: Option<Row>): (Option<Row>, Answer) {
    match path
    case Statements => HashMany.NativePerform(call, row)
    case ReadModifyWrite(client) => HashStore.FallbackPerform(client, call, row)
  }

  /** Where a process is: idle, inside a read-modify-write, or holding its latest answer. */
  datatype Phase =
    | Began(path: Path, key: string, call: Call)
    | Loaded(path: Path, key: string, call: Call, seen: Option<Row>)
    | Computed(path: Path, key: string, call: Call, next: Option<Row>, answer: Answer)
    | Answered(position: nat, answer: Answer)

  /** The commit order: a hash call, or any other whole-row write (set, delete, sweep, eviction). */
  datatype Entry = Hashed(path: Path, key: string, call: Call) | Written(key: string, row: Option<Row>)

  datatype System = System(rows: Rows, holder: Option<nat>, phases: map<nat, Phase>, log: seq<Entry>)

  datatype Step =
    | Statement(process: nat, key: string, call: Call)
    | Begin(process: nat, client: HashStore.Client, key: string, call: Call)
    | Load(process: nat)
    | Compute(process: nat)
    | Commit(process: nat)
    | Write(key: string, row: Option<Row>)

  predicate Free(s: System, p: nat) {
    p !in s.phases || s.phases[p].Answered?
  }

  function Finish(s: System, p: nat, path: Path, key: string, call: Call, next: Option<Row>, answer: Answer): System {
    s.(rows := Store(s.rows, key, next),
       phases := s.phases[p := Answered(|s.log|, answer)],
       log := s.log + [Hashed(path, key, call)])
  }

  /** One step; writers wait while another process holds the lock. */
  function Next(s: System, step: Step): System {
    match step
    case Statement(p, key, call) =>
      if s.holder.None? && Free(s, p) then
        var (next, answer) := Effect(Statements, call, Look(s.rows, key));
        Finish(s, p, Statements, key, call, next, answer)
      else s
    case Begin(p, client, key, call) =>
      if s.holder.None? && Free(s, p) then
        s.(holder := Some(p), phases := s.phases[p := Began(ReadModifyWrite(client), key, call)])
      else s
    case Load(p) =>
      if p in s.phases && s.phases[p].Began? then
        var Began(path, key, call) := s.phases[p];
        s.(phases := s.phases[p := Loaded(path, key, call, Look(s.rows, key))])
      else s
    case Compute(p) =>
      if p in s.phases && s.phases[p].Loaded? then
        var Loaded(path, key, call, seen) := s.phases[p];
        s.(phases := s.phases[p := Computed(path, key, call, Effect(path, call, seen).0, Effect(path, call, seen).1)])
      else s
    case Commit(p) =>
      if p in s.phases && s.phases[p].Computed? then
        var Computed(path, key, call, next, answer) := s.phases[p];
        Finish(s, p, path, key, call, next, answer).(holder := None)
      else s
    case Write(key, row) =>
      if s.holder.None? then s.(rows := Store(s.rows, key, row), log := s.log + [Written(key, row)]) else s
  }

  function Execute(s: System, steps: seq<Step>): System
    decreases |steps|
  {
    if steps == [] then s else Next(Execute(s, steps[..|steps| - 1]), steps[|steps| - 1])
  }

  function Initial(rows: Rows): System {
    System(rows, None, map[], [])
  }

  // ---- One after another ------------------------------------------------------------------------

  function Apply(rows: Rows, e: Entry): Rows {
    match e
    case Hashed(path, key, call) => Store(rows, key, Effect(path, call, Look(rows, key)).0)
    case Written(key, row) => Store(rows, key, row)
  }

  function Replay(rows: Rows, log: seq<Entry>): Rows
    decreases |log|
  {
    if log == [] then rows else Apply(Replay(rows, log[..|log| - 1]), log[|log| - 1])
  }

  ghost predicate PhaseInv(rows0: Rows, s: System, p: nat)
    requires p in s.phases
  {
    match s.phases[p]
    case Began(_, _, _) => s.holder == Some(p)
    case Loaded(_, key, _, seen) => s.holder == Some(p) && seen == Look(s.rows, key)
    case Computed(path, key, call, next, answer) =>
      s.holder == Some(p) && (next, answer) == Effect(path, call, Look(s.rows, key))
    case Answered(i, answer) =>
      i < |s.log| && s.log[i].Hashed?
      && answer == Effect(s.log[i].path, s.log[i].call, Look(Replay(rows0, s.log[..i]), s.log[i].key)).1
  }

  ghost predicate Inv(rows0: Rows, s: System) {
    && s.rows == Replay(rows0, s.log)
    && forall p :: p in s.phases ==> PhaseInv(rows0, s, p)
  }

  /** Answers already given stay right as the log grows. */
  lemma LogGrows(rows0: Rows, s: System, t: System, e: Entry)
    requires Inv(rows0, s) && t.log == s.log + [e] && t.rows == Apply(s.rows, e)
    ensures t.rows == Replay(rows0, t.log)
    ensures forall p :: p in s.phases && p in t.phases && s.phases[p].Answered? && t.phases[p] == s.phases[p] ==>
                  PhaseInv(rows0, t, p)
  {
    assert t.log[..|s.log|] == s.log;
    forall p | p in s.phases && p in t.phases && s.phases[p].Answered? && t.phases[p] == s.phases[p]
      ensures PhaseInv(rows0, t, p)
    {
      assert PhaseInv(rows0, s, p);
      assert t.log[..s.phases[p].position] == s.log[..s.phases[p].position];
    }
  }

  /** Whoever holds no lock, or is not the holder, is idle or answered. */
  lemma OthersAreAnswered(rows0: Rows, s: System, p: nat)
    requires Inv(rows0, s) && (s.holder.None? || s.holder == Some(p))
    ensures forall q :: q in s.phases && (q != p || s.holder.None?) ==> s.phases[q].Answered?
  {
    forall q | q in s.phases ensures PhaseInv(rows0, s, q) {
    }
  }

  lemma FinishKeepsInv(rows0: Rows, s: System, p: nat, path: Path, key: string, call: Call)
    requires Inv(rows0, s) && (s.holder.None? || s.holder == Some(p))
    ensures var (next, answer) := Effect(path, call, Look(s.rows, key));
            Inv(rows0, Finish(s, p, path, key, call, next, answer).(holder := None))
  {
    var (next, answer) := Effect(path, call, Look(s.rows, key));
    var t := Finish(s, p, path, key, call, next, answer).(holder := None);
    OthersAreAnswered(rows0, s, p);
    LogGrows(rows0, s, t, Hashed(path, key, call));
    assert t.log[..|s.log|] == s.log;
    assert PhaseInv(rows0, t, p);
  }

  lemma WriteKeepsInv(rows0: Rows, s: System, key: string, row: Option<Row>)
    requires Inv(rows0, s) && s.holder.None?
    ensures Inv(rows0, Next(s, Write(key, row)))
  {
    OthersAreAnswered(rows0, s, 0);
    LogGrows(rows0, s, Next(s, Write(key, row)), Written(key, row));
  }

  /** Steps inside a transaction move one process and leave the table and the log alone. */
  lemma InsideKeepsInv(rows0: Rows, s: System, step: Step)
    requires Inv(rows0, s) && (step.Begin? || step.Load? || step.Compute?)
    ensures Inv(rows0, Next(s, step))
  {
    var t := Next(s, step);
    if step.Begin? && s.holder.None? {
      OthersAreAnswered(rows0, s, step.process);
    }
    forall p | p in t.phases ensures PhaseInv(rows0, t, p) {
      if p in s.phases { assert PhaseInv(rows0, s, p); }
    }
  }

  lemma StepKeepsInv(rows0: Rows, s: System, step: Step)
    requires Inv(rows0, s)
    ensures Inv(rows0, Next(s, step))
  {
    match step
    case Statement(p, key, call) =>
      if s.holder.None? {
        FinishKeepsInv(rows0, s, p, Statements, key, call);
      }
    case Commit(p) =>
      if p in s.phases && s.phases[p].Computed? {
        assert PhaseInv(rows0, s, p);
        FinishKeepsInv(rows0, s, p, s.phases[p].path, s.phases[p].key, s.phases[p].call);
      }
    case Write(key, row) =>
      if s.holder.None? {
        WriteKeepsInv(rows0, s, key, row);
      }
    case _ => InsideKeepsInv(rows0, s, step);
  }

  lemma {:induction false} RunKeepsInv(rows0: Rows, steps: seq<Step>)
    ensures Inv(rows0, Execute(Initial(rows0), steps))
    decreases |steps|
  {
    if steps != [] {
      RunKeepsInv(rows0, steps[..|steps| - 1]);
      StepKeepsInv(rows0, Execute(Initial(rows0), steps[..|steps| - 1]), steps[|steps| - 1]);
    }
  }

  /**
   * Every run is equivalent to its calls performed one by one in commit order: the committed table
   * is theirs, and every answer given is the one its call gets at its place in that order.
   */
  lemma RunsAreSerial(rows0: Rows, steps: seq<Step>)
    ensures var s := Execute(Initial(rows0), steps);
            && s.rows == Replay(rows0, s.log)
            && forall p :: p in s.phases && s.phases[p].Answered? ==>
                 var i := s.phases[p].position;
                 && i < |s.log| && s.log[i].Hashed?
                 && s.phases[p].answer
                    == Effect(s.log[i].path, s.log[i].call, Look(Replay(rows0, s.log[..i]), s.log[i].key)).1
  {
    RunKeepsInv(rows0, steps);
    var s := Execute(Initial(rows0), steps);
    assert forall p :: p in s.phases ==> PhaseInv(rows0, s, p);
  }

  lemma RowsAreReplayed(rows0: Rows, steps: seq<Step>)
    ensures Execute(Initial(rows0), steps).rows == Replay(rows0, Execute(Initial(rows0), steps).log)
  {
    RunKeepsInv(rows0, steps);
  }

  // ---- Field by field ------------------------------------------------------------------------------

  /** The last value a batch of pairs gives a field. */
  function LastValue(pairs: seq<Pair>, f: string, v: Option<Value>): Option<Value>
    decreases |pairs|
  {
    if pairs == [] then v
    else if pairs[|pairs| - 1].key == f then Some(pairs[|pairs| - 1].value)
    else LastValue(pairs[..|pairs| - 1], f, v)
  }

  /** What an operation does to one field, seen alone. */
  function OnField(op: Op, f: string, v: Option<Value>): Option<Value> {
    match op
    case HSet(g, x) => if g == f then Some(x) else v
    case HSetNX(g, x) => if g == f && v.None? then Some(x) else v
    case HDel(fs) => if f in fs then None else v
    case HIncrBy(g, a) =>
      if g != f || !InInt64(a) then v
      else (match v
            case None => Some(Int(a))
            case Some(Int(n)) => if InInt64(n + a) then Some(Int(n + a)) else v
            case Some(Other(_, _)) => v)
    case HSetMany(pairs) => LastValue(pairs, f, v)
  }

  /** The clock readings a span of calls may take. */
  datatype Span = Span(first: int, last: int)

  /** No row, or one that has expired before the span begins. */
  predicate Absent(row: Option<Row>, span: Span) {
    row.None? || !Live(row.value, span.first)
  }

  /** A hash that is live throughout the span. */
  ghost predicate Lasting(row: Option<Row>, span: Span) {
    row.Some? && Live(row.value, span.last) && row.value.content.Hash? && UniqueKeys(row.value.content.doc)
  }

  /** The key holds no value or a hash, and time alone changes nothing about that during the span. */
  ghost predicate Settled(row: Option<Row>, span: Span) {
    span.first <= span.last && (Absent(row, span) || Lasting(row, span))
  }

  /** The call falls into the span, and a row it creates outlives it. */
  predicate Within(call: Call, span: Span) {
    span.first <= call.now <= span.last && (call.exp.None? || call.exp.value > span.last)
  }

  function FieldOf(row: Option<Row>, span: Span, f: string): Option<Value> {
    if !Absent(row, span) && row.value.content.Hash? then Get(row.value.content.doc, f) else None
  }

  lemma {:induction false} SetAllField(doc: Doc, pairs: seq<Pair>, f: string)
    ensures Get(SetAll(doc, pairs), f) == LastValue(pairs, f, Get(doc, f))
    decreases |pairs|
  {
    if pairs != [] {
      var n := |pairs| - 1;
      SetAllField(doc, pairs[..n], f);
      SetLaw(SetAll(doc, pairs[..n]), pairs[n].key, pairs[n].value, f);
    }
  }

  lemma EffectOnField(op: Op, doc: Doc, f: string)
    requires UniqueKeys(doc) && EarlyAnswer(op).None?
    ensures match OnDoc(op, doc)
            case Err(_) => OnField(op, f, Get(doc, f)) == Get(doc, f)
            case Ok(eff) => Get(if eff.changed then eff.doc else doc, f) == OnField(op, f, Get(doc, f))
  {
    match op
    case HSet(g, x) => SetLaw(doc, g, x, f);
    case HSetNX(g, x) => SetLaw(doc, g, x, f);
    case HDel(fs) => DelAllField(doc, fs, f);
    case HIncrBy(g, a) => IncrOnField(doc, g, a, f);
    case HSetMany(pairs) => SetAllField(doc, pairs, f);
  }

  lemma IncrOnField(doc: Doc, g: string, a: int, f: string)
    requires UniqueKeys(doc) && InInt64(a)
    ensures match OnDoc(HIncrBy(g, a), doc)
            case Err(_) => OnField(HIncrBy(g, a), f, Get(doc, f)) == Get(doc, f)
            case Ok(eff) => eff.changed && Get(eff.doc, f) == OnField(HIncrBy(g, a), f, Get(doc, f))
  {
    var base := if Get(doc, g).Some? && Get(doc, g).value.Int? then Get(doc, g).value.n else 0;
    SetLaw(doc, g, Int(base + a), f);
  }

  lemma DelAllField(doc: Doc, fs: seq<string>, f: string)
    requires UniqueKeys(doc)
    ensures Get(if Removed(doc, fs) > 0 then DelAll(doc, fs) else doc, f) == if f in fs then None else Get(doc, f)
  {
    DelAllLaw(doc, fs, f);
    if Removed(doc, fs) == 0 && f in fs {
      RemovedCounts(doc, fs);
      var found := set g | g in fs && Has(doc, g);
      assert f !in found;
    }
  }

  /** The same row but for the access count. */
  predicate SameValue(a: Option<Row>, b: Option<Row>) {
    a == b || (a.Some? && b.Some? && a.value.content == b.value.content && a.value.expiresAt == b.value.expiresAt)
  }

  /** Within a span either path does what the call means but for the access count, or refuses and leaves the row. */
  lemma EffectIsMeant(path: Path, call: Call, row: Option<Row>, span: Span)
    requires Settled(row, span) && Within(call, span)
    ensures var (after, r) := Effect(path, call, row);
            var (meant, r') := Perform(call, row);
            || (r.Err? && after == row)
            || (r.Ok? && r == r' && SameValue(after, meant))
  {
    FailureWritesNothing(call, row);
  }

  /** A successful call acts on each field alone; a refused one leaves every field. */
  lemma CallOnField(path: Path, call: Call, row: Option<Row>, span: Span, f: string)
    requires Settled(row, span) && Within(call, span)
    ensures var (after, r) := Effect(path, call, row);
            && Settled(after, span)
            && FieldOf(after, span, f)
               == if r.Ok? then OnField(call.op, f, FieldOf(row, span, f)) else FieldOf(row, span, f)
  {
    EffectIsMeant(path, call, row, span);
    MeantOnField(call, row, span, f);
  }

  lemma MeantOnField(call: Call, row: Option<Row>, span: Span, f: string)
    requires Settled(row, span) && Within(call, span)
    ensures var (after, r) := Perform(call, row);
            && Settled(after, span)
            && FieldOf(after, span, f)
               == if r.Ok? then OnField(call.op, f, FieldOf(row, span, f)) else FieldOf(row, span, f)
  {
    if EarlyAnswer(call.op).None? {
      var doc := if LiveAt(row, call.now) then row.value.content.doc else [];
      EffectOnField(call.op, doc, f);
      OnDocKeepsUnique(call.op, doc);
    }
  }

  // ---- Many calls on one key --------------------------------------------------------------------------

  /**
   * An entry is about another key, or is a call within the span, or is the removal of a row that has
   * expired already (a sweep, a lazy delete).
   */
  ghost predicate Undisturbed(e: Entry, rows: Rows, key: string, span: Span) {
    e.key == key ==>
      match e
      case Hashed(_, _, call) => Within(call, span)
      case Written(_, row) => row.None? && Absent(Look(rows, key), span)
  }

  ghost predicate AllUndisturbed(rows0: Rows, log: seq<Entry>, key: string, span: Span) {
    forall i :: 0 <= i < |log| ==> Undisturbed(log[i], Replay(rows0, log[..i]), key, span)
  }

  lemma FrontUndisturbed(rows0: Rows, log: seq<Entry>, key: string, span: Span)
    requires log != [] && AllUndisturbed(rows0, log, key, span)
    ensures AllUndisturbed(rows0, log[..|log| - 1], key, span)
    ensures Undisturbed(log[|log| - 1], Replay(rows0, log[..|log| - 1]), key, span)
  {
    var front := log[..|log| - 1];
    forall i | 0 <= i < |front| ensures Undisturbed(front[i], Replay(rows0, front[..i]), key, span) {
      assert front[..i] == log[..i];
    }
  }

  predicate Succeeds(e: Entry, rows: Rows, key: string) {
    e.Hashed? && e.key == key && Effect(e.path, e.call, Look(rows, key)).1.Ok?
  }

  /** A field's value when only the successful calls on its key are applied to it, one by one. */
  function FieldReplay(v: Option<Value>, rows0: Rows, log: seq<Entry>, key: string, f: string): Option<Value>
    decreases |log|
  {
    if log == [] then v
    else
      var front, e := log[..|log| - 1], log[|log| - 1];
      var before := FieldReplay(v, rows0, front, key, f);
      if Succeeds(e, Replay(rows0, front), key) then OnField(e.call.op, f, before) else before
  }

  /** Entry by entry, a field holds what its own successful operations leave. */
  lemma {:induction false} ReplayFieldByField(rows0: Rows, log: seq<Entry>, key: string, f: string, span: Span)
    requires Settled(Look(rows0, key), span) && AllUndisturbed(rows0, log, key, span)
    ensures var row := Look(Replay(rows0, log), key);
            Settled(row, span)
            && FieldOf(row, span, f) == FieldReplay(FieldOf(Look(rows0, key), span, f), rows0, log, key, f)
    decreases |log|
  {
    if log != [] {
      var n := |log| - 1;
      FrontUndisturbed(rows0, log, key, span);
      ReplayFieldByField(rows0, log[..n], key, f, span);
      var row := Look(Replay(rows0, log[..n]), key);
      if log[n].Hashed? && log[n].key == key {
        CallOnField(log[n].path, log[n].call, row, span, f);
      }
    }
  }

  /**
   * In every run no field update is lost: whatever other fields, keys and processes do, and whether or not
   * the key is there to begin with, a field ends up with its own successful operations in commit order.
   */
  lemma NoFieldUpdateIsLost(rows0: Rows, steps: seq<Step>, key: string, f: string, span: Span)
    requires Settled(Look(rows0, key), span)
    requires AllUndisturbed(rows0, Execute(Initial(rows0), steps).log, key, span)
    ensures var s := Execute(Initial(rows0), steps);
            && Settled(Look(s.rows, key), span)
            && FieldOf(Look(s.rows, key), span, f)
               == FieldReplay(FieldOf(Look(rows0, key), span, f), rows0, s.log, key, f)
  {
    RowsAreReplayed(rows0, steps);
    ReplayFieldByField(rows0, Execute(Initial(rows0), steps).log, key, f, span);
  }

  /** An entry that adds to the field, or one that has nothing to do with it. */
  predicate AddsOnly(e: Entry, key: string, f: string) {
    e.Hashed? && e.key == key ==> !Names(e.call.op, f) || e.call.op.HIncrBy?
  }

  /** What an entry adds to the field: its amount, if it is an increment of it answered with success. */
  function Addition(e: Entry, rows: Rows, key: string, f: string): int {
    if Succeeds(e, rows, key) && e.call.op.HIncrBy? && e.call.op.field == f then e.call.op.amount else 0
  }

  /** The table as the entries leave it, and what they added to the field. */
  datatype Tally = Tally(rows: Rows, added: int)

  function TallyOne(t: Tally, e: Entry, key: string, f: string): Tally {
    Tally(Apply(t.rows, e), t.added + Addition(e, t.rows, key, f))
  }

  function Tallied(rows0: Rows, log: seq<Entry>, key: string, f: string): Tally
    decreases |log|
  {
    if log == [] then Tally(rows0, 0)
    else TallyOne(Tallied(rows0, log[..|log| - 1], key, f), log[|log| - 1], key, f)
  }

  /** The sum of the amounts of all successful increments of the field. */
  function Added(rows0: Rows, log: seq<Entry>, key: string, f: string): int {
    Tallied(rows0, log, key, f).added
  }

  lemma {:induction false} TallyReplays(rows0: Rows, log: seq<Entry>, key: string, f: string)
    ensures Tallied(rows0, log, key, f).rows == Replay(rows0, log)
    decreases |log|
  {
    if log != [] {
      TallyReplays(rows0, log[..|log| - 1], key, f);
    }
  }

  /** The field counts v: it holds that integer, or is not there and counts 0. */
  ghost predicate RowCounts(row: Option<Row>, f: string, v: int, span: Span) {
    && Settled(row, span)
    && (FieldOf(row, span, f) == Some(Int(v)) || (FieldOf(row, span, f) == None && v == 0))
  }

  ghost predicate Counts(rows: Rows, key: string, f: string, v: int, span: Span) {
    RowCounts(Look(rows, key), f, v, span)
  }

  /** A successful increment adds its amount and answers the new count; nothing else changes it. */
  lemma EntryAdds(e: Entry, rows: Rows, key: string, f: string, v: int, span: Span)
    requires Counts(rows, key, f, v, span) && AddsOnly(e, key, f) && Undisturbed(e, rows, key, span)
    ensures Counts(Apply(rows, e), key, f, v + Addition(e, rows, key, f), span)
    ensures Succeeds(e, rows, key) && e.call.op.HIncrBy? && e.call.op.field == f ==>
              Effect(e.path, e.call, Look(rows, key)).1 == Ok(Number(v + e.call.op.amount))
  {
    if e.Hashed? && e.key == key {
      CallAdds(e.path, e.call, Look(rows, key), f, v, span);
    }
  }

  lemma CallAdds(path: Path, call: Call, row: Option<Row>, f: string, v: int, span: Span)
    requires RowCounts(row, f, v, span) && Within(call, span) && (!Names(call.op, f) || call.op.HIncrBy?)
    ensures var (after, r) := Effect(path, call, row);
            var added := r.Ok? && call.op.HIncrBy? && call.op.field == f;
            && RowCounts(after, f, if added then v + call.op.amount else v, span)
            && (added ==> r == Ok(Number(v + call.op.amount)))
  {
    CallOnField(path, call, row, span, f);
    EffectIsMeant(path, call, row, span);
    if !Names(call.op, f) {
      OnOtherField(call.op, f, FieldOf(row, span, f));
    }
  }

  ghost predicate AllAddOnly(log: seq<Entry>, key: string, f: string) {
    forall i :: 0 <= i < |log| ==> AddsOnly(log[i], key, f)
  }

  ghost predicate TallyCounts(t: Tally, key: string, f: string, start: int, span: Span) {
    Counts(t.rows, key, f, start + t.added, span)
  }

  lemma TallyStep(t: Tally, e: Entry, key: string, f: string, start: int, span: Span)
    requires TallyCounts(t, key, f, start, span) && AddsOnly(e, key, f) && Undisturbed(e, t.rows, key, span)
    ensures TallyCounts(TallyOne(t, e, key, f), key, f, start, span)
  {
    EntryAdds(e, t.rows, key, f, start + t.added, span);
  }

  lemma {:induction false} EntriesAddUp(rows0: Rows, log: seq<Entry>, key: string, f: string, start: int, span: Span)
    requires Counts(rows0, key, f, start, span) && AllUndisturbed(rows0, log, key, span) && AllAddOnly(log, key, f)
    ensures TallyCounts(Tallied(rows0, log, key, f), key, f, start, span)
    decreases |log|
  {
    if log != [] {
      var front := log[..|log| - 1];
      FrontUndisturbed(rows0, log, key, span);
      assert forall i :: 0 <= i < |front| ==> front[i] == log[i];
      EntriesAddUp(rows0, front, key, f, start, span);
      TallyReplays(rows0, front, key, f);
      TallyStep(Tallied(rows0, front, key, f), log[|log| - 1], key, f, start, span);
    }
  }

  /** In `rows` the field counts what it started with and every amount these entries added. */
  ghost predicate CountsSum(rows: Rows, rows0: Rows, log: seq<Entry>, key: string, f: string, start: int, span: Span) {
    Counts(rows, key, f, start + Added(rows0, log, key, f), span)
  }

  /**
   * In every run concurrent increments add exactly the sum of the successful ones to a field that may not
   * have been there, nor its key, among any other traffic.
   */
  lemma IncrementsAddUp(rows0: Rows, steps: seq<Step>, key: string, f: string, start: int, span: Span)
    requires Counts(rows0, key, f, start, span)
    requires AllUndisturbed(rows0, Execute(Initial(rows0), steps).log, key, span)
    requires AllAddOnly(Execute(Initial(rows0), steps).log, key, f)
    ensures var s := Execute(Initial(rows0), steps); CountsSum(s.rows, rows0, s.log, key, f, start, span)
  {
    RowsAreReplayed(rows0, steps);
    AddUpInRows(Execute(Initial(rows0), steps).rows, rows0, Execute(Initial(rows0), steps).log, key, f, start, span);
  }

  lemma AddUpInRows(rows: Rows, rows0: Rows, log: seq<Entry>, key: string, f: string, start: int, span: Span)
    requires rows == Replay(rows0, log) && Counts(rows0, key, f, start, span)
    requires AllUndisturbed(rows0, log, key, span) && AllAddOnly(log, key, f)
    ensures CountsSum(rows, rows0, log, key, f, start, span)
  {
    EntriesAddUp(rows0, log, key, f, start, span);
    TallyReplays(rows0, log, key, f);
  }

  /**
   * An increment within the span is refused exactly when the amount or the sum leaves int64, when a
   * missing key meets a full namespace, or when the count is beyond int64 already and the path is one
   * that cannot add to that.
   */
  lemma IncrementSucceeds(path: Path, call: Call, rows: Rows, key: string, v: int, span: Span)
    requires call.op.HIncrBy? && Counts(rows, key, call.op.field, v, span) && Within(call, span)
    ensures Effect(path, call, Look(rows, key)).1.Ok? <==>
            && InInt64(call.op.amount) && InInt64(v + call.op.amount)
            && !(call.full && Absent(Look(rows, key), span))
            && (InInt64(v) || (path.ReadModifyWrite? && HashStore.Refusal(path.client).None?))
  {
  }

  lemma OnOtherField(op: Op, f: string, v: Option<Value>)
    requires !Names(op, f)
    ensures OnField(op, f, v) == v
  {
    if op.HSetMany? {
      NoLastValue(op.pairs, f, v);
    }
  }

  lemma {:induction false} NoLastValue(pairs: seq<Pair>, f: string, v: Option<Value>)
    requires forall i :: 0 <= i < |pairs| ==> pairs[i].key != f
    ensures LastValue(pairs, f, v) == v
    decreases |pairs|
  {
    if pairs != [] {
      NoLastValue(pairs[..|pairs| - 1], f, v);
    }
  }
}
