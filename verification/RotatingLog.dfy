/** The size-rotated log: the current file and its numbered backups. */
module RotatingLog {
  import opened Prelude

  type Byte = b: int | 0 <= b < 256

  type Bytes = seq<Byte>

  /** Backup number n + 1 at position n, if that file exists. */
  type Backups = seq<Option<Bytes>>

  function Data(file: Option<Bytes>): Bytes {
    if file.Some? then file.value else []
  }

  /** All backups' contents, from the highest number (the oldest) down to number 1. */
  function OldestFirst(backups: Backups): Bytes {
    if backups == [] then [] else OldestFirst(backups[1..]) + Data(backups[0])
  }

  ghost predicate IsSuffix(a: Bytes, b: Bytes) {
    |a| <= |b| && b[|b| - |a|..] == a
  }

  ghost predicate BackupsFit(backups: Backups, max: int) {
    forall i :: 0 <= i < |backups| ==> |Data(backups[i])| <= max
  }

  /**
   * The backups after a rotation that puts `first` at number 1: one number up each. The file in the
   * last place is overwritten if there is one before it, and stays otherwise.
   */
  function Rotated(backups: Backups, first: Bytes): Backups
    requires backups != []
  {
    var n := |backups|;
    if n == 1 then [Some(first)]
    else [Some(first)] + backups[..n - 2] + [if backups[n - 2].Some? then backups[n - 2] else backups[n - 1]]
  }

  /**
   * `first` has become backup 1 and every backup has moved one number up; the last stays in its place if
   * there is none to take it.
   */
  ghost predicate MovedUp(before: Backups, first: Bytes, after: Backups) {
    var n := |before|;
    && |after| == n && (n > 0 ==> after[0] == Some(first))
    && (forall i :: 0 < i < n - 1 ==> after[i] == before[i - 1])
    && (n > 1 ==> after[n - 1] == if before[n - 2].Some? then before[n - 2] else before[n - 1])
  }

  /** What is on disk, and the size the writer remembers for the current file. */
  datatype Files = Files(backups: Backups, current: Bytes, size: int)

  function OnDisk(s: Files): Bytes {
    OldestFirst(s.backups) + s.current
  }

  predicate Rotates(s: Files, p: Bytes, maxBytes: int) {
    maxBytes > 0 && s.size + |p| > maxBytes
  }

  /** A rotation; with no backups kept the same file is opened again and goes on growing. */
  function AfterRotate(s: Files): Files {
    if s.backups == [] then s.(size := 0) else Files(Rotated(s.backups, s.current), [], 0)
  }

  function AfterWrite(s: Files, p: Bytes, maxBytes: int): Files {
    var r := if Rotates(s, p, maxBytes) then AfterRotate(s) else s;
    r.(current := r.current + p, size := r.size + |p|)
  }

  function AfterWrites(s: Files, writes: seq<Bytes>, maxBytes: int): Files
    decreases |writes|
  {
    if writes == [] then s
    else AfterWrite(AfterWrites(s, writes[..|writes| - 1], maxBytes), writes[|writes| - 1], maxBytes)
  }

  class RotatingWriter {
    const maxBytes: int
    const maxBackups: int
    var backups: Backups
    var current: Bytes
    var size: int

    ghost function State(): Files
      reads this
    {
      Files(backups, current, size)
    }

    ghost predicate Valid()
      reads this
    {
      |backups| == Max(maxBackups, 0)
    }

    /** Opens the log for appending, beside whatever backups an earlier writer left. */
    constructor (found: Bytes, backups: Backups, maxBytes: int, maxBackups: int)
      requires |backups| == Max(maxBackups, 0)
      ensures this.maxBytes == maxBytes && this.maxBackups == maxBackups
      ensures Valid() && State() == Files(backups, found, |found|)
    {
      this.maxBytes, this.maxBackups := maxBytes, maxBackups;
      this.backups, current, size := backups, found, |found|;
    }

    method Write(p: Bytes)
      requires Valid()
      modifies this
      ensures Valid() && State() == AfterWrite(old(State()), p, maxBytes)
      ensures maxBytes <= 0 || old(size) + |p| <= maxBytes ==>
                backups == old(backups) && current == old(current) + p && size == old(size) + |p|
      ensures 0 < maxBytes < old(size) + |p| ==>
                && size == |p| && MovedUp(old(backups), old(current), backups)
                && current == (if maxBackups > 0 then [] else old(current)) + p
    {
      if maxBytes > 0 && size + |p| > maxBytes {
        Rotate();
      }
      current := current + p;
      size := size + |p|;
    }

    method Rotate()
      requires Valid()
      modifies this
      ensures Valid() && State() == AfterRotate(old(State()))
      ensures size == 0 && current == if maxBackups > 0 then [] else old(current)
      ensures MovedUp(old(backups), old(current), backups)
    {
      if maxBackups > 0 {
        ghost var was := backups;
        ShiftBackups();
        backups := backups[0 := Some(current)];
        assert backups == [Some(current)] + backups[1..];
        assert backups == Rotated(was, current);
        current := [];
      }
      size := 0;
    }

    /** Renames every backup to the next number, from the oldest; a rename of a missing file does nothing. */
    method ShiftBackups()
      requires backups != []
      modifies `backups
      ensures |backups| == |old(backups)|
      && forall first :: [Some(first)] + backups[1..] == Rotated(old(backups), first)
    {
      ghost var was, n := backups, |backups|;
      var i := |backups| - 1;
      while i >= 1
        invariant 0 <= i < n == |backups|
        invariant backups[..i] == was[..i]
        invariant i == n - 1 ==> backups == was
        invariant i < n - 1 ==> backups[i].None? && backups[i + 1..] == was[i..n - 2] + Last(was)
      {
        assert backups[i - 1] == backups[..i][i - 1] == was[i - 1];
        ghost var before := backups;
        if backups[i - 1].Some? {
          backups := backups[i := backups[i - 1]][i - 1 := None];
        }
        assert backups[..i - 1] == was[..i - 1];
        assert backups[i..] == [backups[i]] + before[i + 1..];
        if i == n - 1 {
          assert before[i + 1..] == [] && was[i - 1..n - 2] == [];
        } else {
          assert was[i - 1..n - 2] == [was[i - 1]] + was[i..n - 2];
          assert [was[i - 1]] + (was[i..n - 2] + Last(was)) == was[i - 1..n - 2] + Last(was);
        }
        i := i - 1;
      }
      forall first ensures [Some(first)] + backups[1..] == Rotated(was, first) {
        if n > 1 {
          assert was[0..n - 2] == was[..n - 2];
          assert [Some(first)] + (was[..n - 2] + Last(was)) == [Some(first)] + was[..n - 2] + Last(was);
        }
      }
    }
  }

  /** What the renames leave in the last place. */
  function Last(backups: Backups): Backups
    requires backups != []
  {
    var n := |backups|;
    if n == 1 then [] else [if backups[n - 2].Some? then backups[n - 2] else backups[n - 1]]
  }

  // ---- One rotation ---------------------------------------------------------------------------------

  /** What a rotation overwrites: the last place, if a file moves into it. */
  function Dropped(backups: Backups): Bytes
    requires backups != []
  {
    var n := |backups|;
    if n == 1 || backups[n - 2].Some? then Data(backups[n - 1]) else []
  }

  /** The last place's content comes first. */
  lemma {:induction false} OldestAtFront(backups: Backups, last: Option<Bytes>)
    ensures OldestFirst(backups + [last]) == Data(last) + OldestFirst(backups)
    decreases |backups|
  {
    if backups == [] {
      assert [last][1..] == [] && [] + Data(last) == Data(last) + [];
    } else {
      OldestAtFront(backups[1..], last);
      assert (backups + [last])[1..] == backups[1..] + [last];
      assert (Data(last) + OldestFirst(backups[1..])) + Data(backups[0])
             == Data(last) + (OldestFirst(backups[1..]) + Data(backups[0]));
    }
  }

  /** A rotation drops what it overwrites, at the old end, and keeps everything else in order. */
  lemma RotationDropsOldest(s: Files)
    requires s.backups != []
    ensures OnDisk(s) == Dropped(s.backups) + OnDisk(AfterRotate(s))
  {
    var n := |s.backups|;
    var front, last := s.backups[..n - 1], s.backups[n - 1];
    var rotated := Rotated(s.backups, s.current);
    assert s.backups == front + [last];
    OldestAtFront(front, last);
    if n == 1 {
      assert rotated[1..] == [];
    } else {
      var older, moved := s.backups[..n - 2], s.backups[n - 2];
      assert front == older + [moved];
      OldestAtFront(older, moved);
      OldestAtFront(older, if moved.Some? then moved else last);
      assert rotated[1..] == older + [if moved.Some? then moved else last];
    }
    assert OnDisk(AfterRotate(s)) == OldestFirst(rotated[1..]) + s.current;
    Regroup(Data(last), OldestFirst(front), s.current);
  }

  lemma Regroup(a: Bytes, b: Bytes, c: Bytes)
    ensures (a + b) + c == a + (b + c)
  {
  }

  // ---- Every run of writes ------------------------------------------------------------------------

  function Joined(writes: seq<Bytes>): Bytes {
    if writes == [] then [] else Joined(writes[..|writes| - 1]) + writes[|writes| - 1]
  }

  lemma WriteKeepsSuffix(s: Files, p: Bytes, maxBytes: int, written: Bytes)
    requires IsSuffix(OnDisk(s), written)
    ensures IsSuffix(OnDisk(AfterWrite(s, p, maxBytes)), written + p)
  {
    var r := if Rotates(s, p, maxBytes) then AfterRotate(s) else s;
    if Rotates(s, p, maxBytes) && s.backups != [] {
      RotationDropsOldest(s);
    }
    Regroup(OldestFirst(r.backups), r.current, p);
  }

  /**
   * Over any run of writes of any sizes, what is on disk, from the oldest backup to the current file, is
   * a suffix of what was there at the start followed by everything written.
   */
  lemma {:induction false} DiskIsNewestPart(s: Files, writes: seq<Bytes>, maxBytes: int)
    ensures IsSuffix(OnDisk(AfterWrites(s, writes, maxBytes)), OnDisk(s) + Joined(writes))
    decreases |writes|
  {
    if writes == [] {
      assert OnDisk(s) + [] == OnDisk(s);
    } else {
      var front, last := writes[..|writes| - 1], writes[|writes| - 1];
      DiskIsNewestPart(s, front, maxBytes);
      WriteKeepsSuffix(AfterWrites(s, front, maxBytes), last, maxBytes, OnDisk(s) + Joined(front));
      Regroup(OnDisk(s), Joined(front), last);
    }
  }

  // ---- The bound ------------------------------------------------------------------------------------

  /** No file over the limit, and the remembered size is the file's. */
  ghost predicate Bounded(s: Files, maxBytes: int) {
    s.size == |s.current| <= maxBytes && BackupsFit(s.backups, maxBytes)
  }

  ghost predicate WritesFit(writes: seq<Bytes>, maxBytes: int) {
    forall i :: 0 <= i < |writes| ==> |writes[i]| <= maxBytes
  }

  lemma {:induction false} StaysBounded(s: Files, writes: seq<Bytes>, maxBytes: int)
    requires s.backups != [] && maxBytes > 0 && Bounded(s, maxBytes) && WritesFit(writes, maxBytes)
    ensures var t := AfterWrites(s, writes, maxBytes); |t.backups| == |s.backups| && Bounded(t, maxBytes)
    decreases |writes|
  {
    if writes != [] {
      var front := writes[..|writes| - 1];
      assert WritesFit(front, maxBytes);
      StaysBounded(s, front, maxBytes);
    }
  }

  /** Without backups nothing is ever dropped. */
  lemma {:induction false} NothingIsDropped(s: Files, writes: seq<Bytes>, maxBytes: int)
    requires s.backups == []
    ensures var t := AfterWrites(s, writes, maxBytes); t.backups == [] && t.current == s.current + Joined(writes)
    decreases |writes|
  {
    if writes == [] {
      assert s.current + [] == s.current;
    } else {
      NothingIsDropped(s, writes[..|writes| - 1], maxBytes);
      Regroup(s.current, Joined(writes[..|writes| - 1]), writes[|writes| - 1]);
    }
  }

  lemma {:induction false} BackupsTotal(backups: Backups, max: int)
    requires BackupsFit(backups, max)
    ensures |OldestFirst(backups)| <= |backups| * max
  {
    if backups != [] {
      BackupsTotal(backups[1..], max);
      assert |backups| * max == |backups[1..]| * max + max;
    }
  }

  /**
   * Over any run of writes that fit the limit one by one, the log takes at most (n + 1) * maxBytes, n
   * being the backups kept, exactly when n is at least 1 or the start and all the writes fit one file.
   */
  lemma DiskIsBounded(s: Files, writes: seq<Bytes>, maxBytes: int)
    requires maxBytes > 0 && Bounded(s, maxBytes) && WritesFit(writes, maxBytes)
    ensures |OnDisk(AfterWrites(s, writes, maxBytes))| <= (|s.backups| + 1) * maxBytes <==>
            |s.backups| >= 1 || |s.current| + |Joined(writes)| <= maxBytes
  {
    if s.backups == [] {
      NothingIsDropped(s, writes, maxBytes);
    } else {
      StaysBounded(s, writes, maxBytes);
      var t := AfterWrites(s, writes, maxBytes);
      BackupsTotal(t.backups, maxBytes);
      assert (|s.backups| + 1) * maxBytes == |s.backups| * maxBytes + maxBytes;
    }
  }

  /** Two writes of one byte with a limit of one byte and no backups: the file has two bytes. */
  lemma UnboundedWithoutBackups(b: Byte)
    ensures var t := AfterWrites(Files([], [], 0), [[b], [b]], 1); OnDisk(t) == [b, b] && |OnDisk(t)| > (0 + 1) * 1
  {
    assert [[b], [b]][..1] == [[b]] && [[b]][..0] == [];
    assert Joined([]) == [] && [] + [b] == [b] && [b] + [b] == [b, b];
    assert Joined([[b]]) == [b] && Joined([[b], [b]]) == [b, b];
    NothingIsDropped(Files([], [], 0), [[b], [b]], 1);
    assert [] + [b, b] == [b, b];
  }
}
