/** Integer counters, over any run in which any number of processes take part. */
module Counters {
  import opened Prelude
  import opened CacheModel
  import Decimal

  /** Nobody writes `key` but by incr, expire, persist and delete; anything may happen to other keys. */
  predicate OnlyCounts(e: Event, key: string) {
    e.Sweep? ||
    match e.op
    case Put(k, _, _) => k != key
    case Add(k, _, _) => k != key
    case Replace(k, _, _) => k != key
    case GetSet(k, _) => k != key
    case Hash(k, _, _) => k != key
    case _ => true
  }

  predicate Increments(e: Event, key: string) {
    e.Call? && e.op.Incr? && e.op.key == key && InInt64(e.op.amount)
  }

  /** The amounts committed to `key` since it was created, or last expired or deleted. */
  function Amounts(m: Entries, events: seq<Event>, key: string): seq<int>
    decreases |events|
  {
    if events == [] then []
    else
      var front, e := events[..|events| - 1], events[|events| - 1];
      var earlier := if key in Aged(StateAfter(m, front), e.now) then Amounts(m, front, key) else [];
      if Increments(e, key) then earlier + [e.op.amount] else earlier
  }

  function SumOf(amounts: seq<int>): int {
    if amounts == [] then 0 else SumOf(amounts[..|amounts| - 1]) + amounts[|amounts| - 1]
  }

  /** Every partial sum is a 64-bit integer. */
  predicate NeverOverflows(amounts: seq<int>) {
    amounts == [] || (NeverOverflows(amounts[..|amounts| - 1]) && InInt64(SumOf(amounts)))
  }

  /** What the counter's row holds after these amounts. */
  function Holds(amounts: seq<int>): Stored {
    if NeverOverflows(amounts) then IntText(Decimal.Encode(SumOf(amounts))) else RealText
  }

  lemma OneMoreAmount(amounts: seq<int>, amount: int)
    requires InInt64(amount) && (NeverOverflows(amounts) ==> InInt64(SumOf(amounts)))
    ensures var more := amounts + [amount];
            && SumOf(more) == SumOf(amounts) + amount
            && (NeverOverflows(more) <==> NeverOverflows(amounts) && InInt64(SumOf(more)))
            && (amounts == [] ==> Holds(more) == IntText(Decimal.Encode(amount)))
            && Added(Holds(amounts), amount) == Holds(more)
            && Sum(Holds(amounts), amount) == if NeverOverflows(more) then Number(SumOf(more)) else Unreadable
  {
    assert (amounts + [amount])[..|amounts|] == amounts;
  }

  lemma IncrementStep(e: Event, m: Entries, key: string)
    requires Increments(e, key)
    ensures var live := Aged(m, e.now);
            var (after, answer) := Step(e, m);
            && (key !in live ==> answer == Number(e.op.amount)
                                 && key in after && after[key].value == IntText(Decimal.Encode(e.op.amount)))
            && (key in live && IsIntType(m[key].value) ==>
                  answer == Sum(m[key].value, e.op.amount)
                  && key in after && after[key].value == Added(m[key].value, e.op.amount))
  {
  }

  /**
   * A counter that started absent holds the decimal text of the sum of all amounts committed since
   * it was created, or last expired or deleted, exactly as long as every partial sum fits 64 bits.
   */
  lemma {:induction false} CounterHoldsTheSum(m: Entries, events: seq<Event>, key: string)
    requires key !in m && forall i :: 0 <= i < |events| ==> OnlyCounts(events[i], key)
    ensures key in StateAfter(m, events) ==>
              Amounts(m, events, key) != [] && StateAfter(m, events)[key].value == Holds(Amounts(m, events, key))
    decreases |events|
  {
    if events != [] {
      var front, e := events[..|events| - 1], events[|events| - 1];
      CounterHoldsTheSum(m, front, key);
      var before := StateAfter(m, front);
      if Increments(e, key) {
        IncrementStep(e, before, key);
        var earlier := if key in Aged(before, e.now) then Amounts(m, front, key) else [];
        OneMoreAmount(earlier, e.op.amount);
      }
    }
  }

  /** Each incr answers with that sum, its own amount included; past an overflow it cannot be read. */
  lemma IncrAnswersTheSum(m: Entries, events: seq<Event>, key: string)
    requires key !in m && forall i :: 0 <= i < |events| ==> OnlyCounts(events[i], key)
    requires events != [] && Increments(events[|events| - 1], key)
    ensures var amounts := Amounts(m, events, key);
            Answers(m, events)[|events| - 1] == if NeverOverflows(amounts) then Number(SumOf(amounts)) else Unreadable
  {
    var front, e := events[..|events| - 1], events[|events| - 1];
    CounterHoldsTheSum(m, front, key);
    var before := StateAfter(m, front);
    IncrementStep(e, before, key);
    var earlier := if key in Aged(before, e.now) then Amounts(m, front, key) else [];
    OneMoreAmount(earlier, e.op.amount);
  }

  /**
   * The overflow itself, on any live row of integer type: the call is answered, and leaves a counter that
   * can be read, exactly when the row holds a 64-bit integer and the sum is one too. Otherwise it fails, yet
   * has already replaced what was there.
   */
  lemma OverflowIsCommitted(m: Entries, key: string, amount: int, now: int)
    requires key in m && IsIntType(m[key].value) && InInt64(amount)
    ensures var (after, answer) := Plain(Incr(key, amount), m, now);
            var n := Value(m[key].value);
            var fits := n.Some? && InInt64(n.value + amount);
            && (answer.Number? <==> fits)
            && (Value(after[key].value).Some? <==> fits)
            && (fits ==> answer == Number(n.value + amount) && Value(after[key].value) == Some(n.value + amount))
            && (!fits ==> answer == Unreadable && after == m[key := Entry(RealText, m[key].expiresAt)])
  {
  }

  /** One step past the largest integer, and a step back: both fail, though the step back alone would not. */
  lemma OverflowBreaksACounter(text: Decimal.DecimalText, now: int)
    requires Decimal.Parse(text) == Some(INT64_MAX)
    ensures var full := map["n" := Entry(IntText(text), None)];
            var (broken, answer) := Plain(Incr("n", 1), full, now);
            && answer == Unreadable
            && Plain(Incr("n", -1), broken, now).1 == Unreadable
            && Plain(Incr("n", -1), full, now).1 == Number(INT64_MAX - 1)
  {
    var full := map["n" := Entry(IntText(text), None)];
    OverflowIsCommitted(full, "n", 1, now);
    OverflowIsCommitted(Plain(Incr("n", 1), full, now).0, "n", -1, now);
    OverflowIsCommitted(full, "n", -1, now);
  }
}
