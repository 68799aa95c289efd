/** Write-behind bookkeeping of reads: last access and access count are buffered and flushed in batches. */
module LruBuffer {
  datatype Meta = Meta(lastAccessed: int, accessCount: nat)

  type Metas = map<string, Meta>

  const FLUSH_THRESHOLD: nat := 200

  datatype Op = Read(key: string, now: int) | Write(key: string, now: int) | Delete(key: string) | Flush

  // ---- The eager store the buffer stands for -----------------------------------------------------

  /** Every read updates its row at once. */
  function EagerStep(rows: Metas, op: Op): Metas {
    match op
    case Read(k, now) => if k in rows then rows[k := Meta(now, rows[k].accessCount + 1)] else rows
    case Write(k, now) => rows[k := Meta(now, 0)]
    case Delete(k) => rows - {k}
    case Flush => rows
  }

  function EagerRun(rows: Metas, ops: seq<Op>): Metas
    decreases |ops|
  {
    if ops == [] then rows else EagerStep(EagerRun(rows, ops[..|ops| - 1]), ops[|ops| - 1])
  }

  /** The times of the reads of a key in a run. */
  function ReadTimes(ops: seq<Op>, key: string): seq<int>
    decreases |ops|
  {
    if ops == [] then []
    else
      var op := ops[|ops| - 1];
      ReadTimes(ops[..|ops| - 1], key) + if op.Read? && op.key == key then [op.now] else []
  }

  ghost predicate OnlyReads(ops: seq<Op>, key: string) {
    forall i :: 0 <= i < |ops| && (ops[i].Write? || ops[i].Delete?) ==> ops[i].key != key
  }

  /** A key that is only read has its reads counted and the time of the last one; a missing one stays missing. */
  lemma {:induction false} ReadsAreCounted(rows: Metas, ops: seq<Op>, key: string)
    requires OnlyReads(ops, key)
    ensures var after, times := EagerRun(rows, ops), ReadTimes(ops, key);
            && (key in after <==> key in rows)
            && (key in rows ==>
                  && after[key].accessCount == rows[key].accessCount + |times|
                  && after[key].lastAccessed == if times == [] then rows[key].lastAccessed else times[|times| - 1])
    decreases |ops|
  {
    if ops != [] {
      ReadsAreCounted(rows, ops[..|ops| - 1], key);
    }
  }

  /** From a write on only the reads after it count; from a delete on there is no row. */
  lemma CountedSinceWrite(rows: Metas, before: seq<Op>, op: Op, ops: seq<Op>)
    requires (op.Write? || op.Delete?) && OnlyReads(ops, op.key)
    ensures var after, times := EagerRun(rows, before + [op] + ops), ReadTimes(ops, op.key);
            && (op.Delete? ==> op.key !in after)
            && (op.Write? ==>
                  && op.key in after && after[op.key].accessCount == |times|
                  && after[op.key].lastAccessed == if times == [] then op.now else times[|times| - 1])
  {
    RunsCompose(rows, before + [op], ops);
    assert (before + [op])[..|before + [op]| - 1] == before;
    ReadsAreCounted(EagerRun(rows, before + [op]), ops, op.key);
  }

  lemma {:induction false} RunsCompose(rows: Metas, a: seq<Op>, b: seq<Op>)
    ensures EagerRun(rows, a + b) == EagerRun(EagerRun(rows, a), b)
    decreases |b|
  {
    if b == [] {
      assert a + b == a;
    } else {
      RunsCompose(rows, a, b[..|b| - 1]);
      assert (a + b)[..|a + b| - 1] == a + b[..|b| - 1];
    }
  }

  /** The rows once everything buffered has been written. */
  function Flushed(rows: Metas, buffer: Metas): Metas {
    map k | k in rows ::
      if k in buffer then Meta(buffer[k].lastAccessed, rows[k].accessCount + buffer[k].accessCount) else rows[k]
  }

  /** Which keys are buffered after one operation on a table with these keys. */
  function KeysAfter(before: set<string>, present: set<string>, op: Op): set<string> {
    match op
    case Read(k, _) =>
      if k !in present then before else if |before + {k}| >= FLUSH_THRESHOLD then {} else before + {k}
    case Write(_, _) => before
    case Delete(k) => before - {k}
    case Flush => {}
  }

  function BufferedKeys(rows: Metas, ops: seq<Op>): set<string>
    decreases |ops|
  {
    if ops == [] then {}
    else
      var front := ops[..|ops| - 1];
      KeysAfter(BufferedKeys(rows, front), EagerRun(rows, front).Keys, ops[|ops| - 1])
  }

  /** No key is written while a read of it is still in the buffer. */
  ghost predicate NoBufferedKeyIsWritten(rows: Metas, ops: seq<Op>) {
    forall i :: 0 <= i < |ops| && ops[i].Write? ==> ops[i].key !in BufferedKeys(rows, ops[..i])
  }

  class Bookkeeping {
    var rows: Metas
    var buffer: Metas

    constructor (rows: Metas)
      ensures this.rows == rows && buffer == map[]
    {
      this.rows, buffer := rows, map[];
    }

    ghost predicate Valid()
      reads this
    {
      |buffer.Keys| < FLUSH_THRESHOLD && forall k :: k in buffer ==> buffer[k].accessCount >= 1
    }

    /** Writes the buffer out, one UPDATE a key; a key whose row is gone updates nothing. */
    method FlushBuffer()
      modifies this
      ensures rows == Flushed(old(rows), old(buffer)) && buffer == map[]
    {
      var pending := buffer;
      buffer := map[];
      var left := pending.Keys;
      while left != {}
        invariant left <= pending.Keys && buffer == map[]
        invariant rows == Flushed(old(rows), map k | k in pending && k !in left :: pending[k])
        decreases |left|
      {
        var k :| k in left;
        if k in rows {
          rows := rows[k := Meta(pending[k].lastAccessed, rows[k].accessCount + pending[k].accessCount)];
        }
        left := left - {k};
      }
      assert (map k | k in pending && k !in left :: pending[k]) == pending;
    }

    /** A read that found its row; the buffer is flushed when it reaches the threshold. */
    method BufferRead(key: string, now: int)
      requires Valid() && key in rows
      modifies this
      ensures Valid()
      ensures Flushed(rows, buffer) == EagerStep(Flushed(old(rows), old(buffer)), Read(key, now))
      ensures buffer.Keys == if |old(buffer).Keys + {key}| >= 200 then {} else old(buffer).Keys + {key}
    {
      var count := if key in buffer then buffer[key].accessCount else 0;
      ReadIsEager(rows, buffer, key, now);
      buffer := buffer[key := Meta(now, count + 1)];
      assert buffer.Keys == old(buffer).Keys + {key};
      if |buffer.Keys| >= FLUSH_THRESHOLD {
        FlushBuffer();
      }
    }

    /** A write replaces the row and resets its bookkeeping; the buffer is left as it is. */
    method WriteKey(key: string, now: int)
      requires Valid()
      modifies this
      ensures Valid() && rows == old(rows)[key := Meta(now, 0)] && buffer == old(buffer)
      ensures Flushed(rows, buffer) == EagerStep(Flushed(old(rows), old(buffer)), Write(key, now)) <==>
              key !in old(buffer)
    {
      rows := rows[key := Meta(now, 0)];
      WriteIsEager(old(rows), buffer, key, now);
    }

    method DeleteKey(key: string)
      requires Valid()
      modifies this
      ensures Valid() && buffer.Keys == old(buffer).Keys - {key}
      ensures Flushed(rows, buffer) == EagerStep(Flushed(old(rows), old(buffer)), Delete(key))
    {
      Fewer(buffer - {key}, buffer);
      rows := rows - {key};
      buffer := buffer - {key};
    }

    method Apply(op: Op)
      requires Valid()
      modifies this
      ensures Valid()
      ensures (op.Write? ==> op.key !in old(buffer)) ==>
                Flushed(rows, buffer) == EagerStep(Flushed(old(rows), old(buffer)), op)
      ensures buffer.Keys == KeysAfter(old(buffer).Keys, old(rows).Keys, op)
    {
      match op {
        case Read(k, now) => if k in rows { BufferRead(k, now); }
        case Write(k, now) => WriteKey(k, now);
        case Delete(k) => DeleteKey(k);
        case Flush => FlushBuffer();
      }
    }

    /** Over any run in which no key is written while buffered, the flushed rows are the eager ones. */
    method Execute(ops: seq<Op>)
      requires buffer == map[] && NoBufferedKeyIsWritten(rows, ops)
      modifies this
      ensures rows == EagerRun(old(rows), ops) && buffer == map[]
    {
      for i := 0 to |ops|
        invariant Valid() && buffer.Keys == BufferedKeys(old(rows), ops[..i])
        invariant Flushed(rows, buffer) == EagerRun(old(rows), ops[..i])
      {
        OneMore(old(rows), ops, i);
        Apply(ops[i]);
      }
      assert ops[..|ops|] == ops;
      FlushBuffer();
    }
  }

  lemma OneMore(rows: Metas, ops: seq<Op>, i: nat)
    requires i < |ops|
    ensures EagerRun(rows, ops[..i + 1]) == EagerStep(EagerRun(rows, ops[..i]), ops[i])
    ensures BufferedKeys(rows, ops[..i + 1])
            == KeysAfter(BufferedKeys(rows, ops[..i]), EagerRun(rows, ops[..i]).Keys, ops[i])
  {
    assert ops[..i + 1][..i] == ops[..i];
  }

  lemma Fewer(a: Metas, b: Metas)
    requires a.Keys <= b.Keys
    ensures |a.Keys| <= |b.Keys|
  {
    assert b.Keys == a.Keys + (b.Keys - a.Keys);
  }

  lemma ReadIsEager(rows: Metas, buffer: Metas, key: string, now: int)
    requires key in rows
    ensures var count := if key in buffer then buffer[key].accessCount else 0;
            Flushed(rows, buffer[key := Meta(now, count + 1)]) == EagerStep(Flushed(rows, buffer), Read(key, now))
  {
    var count := if key in buffer then buffer[key].accessCount else 0;
    var after := Flushed(rows, buffer[key := Meta(now, count + 1)]);
    var eager := EagerStep(Flushed(rows, buffer), Read(key, now));
    assert after.Keys == rows.Keys && eager.Keys == rows.Keys;
    forall k | k in rows ensures after[k] == eager[k] {
    }
  }

  /** A write keeps in step with the eager store exactly when its key is not buffered. */
  lemma WriteIsEager(rows: Metas, buffer: Metas, key: string, now: int)
    requires forall k :: k in buffer ==> buffer[k].accessCount >= 1
    ensures Flushed(rows[key := Meta(now, 0)], buffer) == EagerStep(Flushed(rows, buffer), Write(key, now)) <==>
            key !in buffer
  {
    var after, eager := Flushed(rows[key := Meta(now, 0)], buffer), EagerStep(Flushed(rows, buffer), Write(key, now));
    assert after.Keys == eager.Keys;
    assert eager[key] == Meta(now, 0);
    if key in buffer {
      assert after[key].accessCount >= 1;
    } else {
      assert after == eager;
    }
  }

  /**
   * What happens otherwise: the flush puts the earlier read's time back over the write's, and the
   * new value starts with a read it never had.
   */
  lemma FlushedReadUndoesAWrite(key: string, read: int, write: int)
    requires read < write
    ensures var rows: Metas := map[key := Meta(0, 0)];
            var after := Flushed(rows[key := Meta(write, 0)], map[key := Meta(read, 1)]);
            && after[key] == Meta(read, 1)
            && EagerRun(rows, [Read(key, read), Write(key, write)])[key] == Meta(write, 0)
  {
    assert [Read(key, read), Write(key, write)][..1] == [Read(key, read)];
    assert [Read(key, read)][..0] == [];
  }
}
