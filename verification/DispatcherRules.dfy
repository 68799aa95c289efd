/** What the dispatcher's names and a listener's actions mean. */
module DispatcherRules {
  import opened Prelude
  import opened Dispatcher

  /** The name of a kind of change. */
  function NameOf(op: ChangeOp): string {
    match op
    case SetOp => "set"
    case DeleteOp => "delete"
    case FlushOp => "flush"
  }

  ghost predicate NamesOnlyOps(names: seq<string>) {
    names != [] && forall i :: 0 <= i < |names| ==> exists op :: names[i] == NameOf(op)
  }

  lemma OpOfIsNamed(name: string, op: ChangeOp)
    ensures OpOf(name) == Some(op) <==> name == NameOf(op)
  {
    assert "set" != "delete" && "set"[0] != "flush"[0] && "delete"[0] != "flush"[0];
  }

  lemma OpOfIsSome(name: string)
    ensures OpOf(name).Some? <==> exists op :: name == NameOf(op)
  {
    if OpOf(name).Some? {
      OpOfIsNamed(name, OpOf(name).value);
    }
    if op :| name == NameOf(op) {
      OpOfIsNamed(name, op);
    }
  }

  /** A list of names is accepted if it names known kinds of change only, and then stands for those it names. */
  lemma {:induction false} OpsAreTheNamed(names: seq<string>, op: ChangeOp)
    ensures AreOps(names) <==> NamesOnlyOps(names)
    ensures op in OpsOf(names) <==> exists i :: 0 <= i < |names| && names[i] == NameOf(op)
    decreases |names|
  {
    forall i | 0 <= i < |names| ensures OpOf(names[i]).Some? <==> exists op :: names[i] == NameOf(op) {
      OpOfIsSome(names[i]);
    }
    if names != [] {
      var n := |names| - 1;
      OpsAreTheNamed(names[..n], op);
      OpOfIsNamed(names[n], op);
      assert forall i :: 0 <= i < n ==> names[..n][i] == names[i];
    }
  }

  /**
   * What each action of a listener does: a write is queued one level deeper for those who listen for it, and
   * published if such changes are; a new listener goes last; one that unsubscribes is dropped, the others stay.
   */
  lemma ActionRule(d: Desk, action: Action, depth: nat)
    requires Ascending(IdsOf(d.listeners))
    ensures var after := AfterAction(d, action, depth);
            && after.log == d.log && after.publishOps == d.publishOps
            && (d.closed && (action.Write? || action.Subscribe?) ==> after == d)
            && (action.Write? && !d.closed ==> Wrote(d, after, action.record, depth))
            && (action.Subscribe? && !d.closed ==> Subscribed(d, after, action.ops))
            && (action.Unsubscribe? ==> Unsubscribed(d, after, action.id))
            && (action.Close? ==>
                  after == Desk([], d.nextId, [], true, d.log, d.publishOps, d.published))
  {
    match action
    case Write(record) =>
    case Subscribe(ops) =>
      forall op ensures op in OpsOf(ops) <==> exists i :: 0 <= i < |ops| && ops[i] == NameOf(op) {
        OpsAreTheNamed(ops, op);
      }
      OpsAreTheNamed(ops, SetOp);
    case Unsubscribe(id) =>
      WithoutIds(d.listeners, id);
      WithoutKeepsOthers(d.listeners, id);
    case Close =>
  }

  ghost predicate Wrote(d: Desk, after: Desk, record: ChangeRecord, depth: nat) {
    var wanted := exists i :: 0 <= i < |d.listeners| && record.op in d.listeners[i].ops;
    && after.listeners == d.listeners && after.nextId == d.nextId && !after.closed
    && after.queue == d.queue + (if wanted && depth < 8 then [Queued(record, depth + 1)] else [])
    && after.published == d.published + if record.op in d.publishOps then [record] else []
  }

  ghost predicate Subscribed(d: Desk, after: Desk, names: seq<string>) {
    && after.queue == d.queue && after.published == d.published && !after.closed
    && (!NamesOnlyOps(names) ==> after == d)
    && (NamesOnlyOps(names) ==>
          && after.nextId == d.nextId + 1 && |after.listeners| == |d.listeners| + 1
          && after.listeners[..|d.listeners|] == d.listeners && after.listeners[|d.listeners|].id == d.nextId
          && forall op :: op in after.listeners[|d.listeners|].ops
                          <==> exists i :: 0 <= i < |names| && names[i] == NameOf(op))
  }

  ghost predicate Unsubscribed(d: Desk, after: Desk, id: nat) {
    && after.queue == d.queue && after.published == d.published && after.closed == d.closed
    && after.nextId == d.nextId && Ascending(IdsOf(after.listeners))
    && forall l :: l in after.listeners <==> l in d.listeners && l.id != id
  }

  lemma {:induction false} WithoutKeepsOthers(listeners: seq<Listener>, id: nat)
    requires Ascending(IdsOf(listeners))
    ensures forall l :: l in Without(listeners, id) <==> l in listeners && l.id != id
  {
    if listeners != [] {
      var ids := IdsOf(listeners);
      var rest := listeners[1..];
      assert ids == [ids[0]] + IdsOf(rest);
      forall i, j | 0 <= i < j < |rest| ensures IdsOf(rest)[i] < IdsOf(rest)[j] {
        assert ids[i + 1] < ids[j + 1];
      }
      WithoutKeepsOthers(rest, id);
      forall l | l in rest ensures l.id != listeners[0].id {
        var i :| 0 <= i < |rest| && rest[i] == l;
        assert ids[0] < ids[i + 1];
      }
      assert forall l :: l in listeners <==> l == listeners[0] || l in rest;
    }
  }

  /** A listener's actions take effect one after the other, in the order it takes them. */
  lemma {:induction false} ActionsInOrder(d: Desk, first: Action, rest: seq<Action>, depth: nat)
    ensures AfterActions(d, [first] + rest, depth) == AfterActions(AfterAction(d, first, depth), rest, depth)
    decreases |rest|
  {
    if rest == [] {
      assert [first] + rest == [first] && [first][..0] == [];
      assert AfterActions(d, [first][..0], depth) == d;
    } else {
      var n := |rest| - 1;
      ActionsInOrder(d, first, rest[..n], depth);
      assert ([first] + rest)[..|[first] + rest| - 1] == [first] + rest[..n];
    }
  }

  /** Two listeners for one change: the first unsubscribes the second and writes; the second is not called. */
  lemma UnsubscribedInTheSameTurn(record: ChangeRecord, d: Desk, react: Reaction)
    requires d == Desk([Listener(0, {record.op}), Listener(1, {record.op})], 2, [Queued(record, 1)], false, [], {}, [])
    requires react([Delivery(0, record)]) == [Unsubscribe(1), Write(record)]
    ensures AfterTurn(d, react)
            == Desk([Listener(0, {record.op})], 2, [Queued(record, 2)], false, [Delivery(0, record)], {}, [])
  {
    var l0, l1 := Listener(0, {record.op}), Listener(1, {record.op});
    var item := Queued(record, 1);
    var start := d.(queue := []);
    assert d.queue[..0] == [] && AfterBatch(start, [], react) == start;
    assert start.listeners[..1] == [l0] && [l0][..0] == [] && AfterCalls(start, [], item, react) == start;
    assert IdsOf(start.listeners) == [0, 1];
    var called := start.(log := [Delivery(0, record)]);
    assert start.log + [Delivery(0, record)] == [Delivery(0, record)];
    assert [Unsubscribe(1), Write(record)] == [Unsubscribe(1)] + [Write(record)];
    ActionsInOrder(called, Unsubscribe(1), [Write(record)], 1);
    assert [l0, l1][1..] == [l1] && [l1][1..] == [] && Without([l1], 1) == [];
    var dropped := called.(listeners := [l0]);
    assert AfterAction(called, Unsubscribe(1), 1) == dropped;
    assert [Write(record)][..0] == [] && AfterActions(dropped, [], 1) == dropped;
    assert dropped.listeners[0] == l0 && Wanted(dropped.listeners, record.op);
    var after := AfterAction(dropped, Write(record), 1);
    assert AfterCalls(start, [l0], item, react) == after;
    assert IdsOf(after.listeners) == [0];
    assert AfterCall(after, l1, item, react) == after;
  }
}
