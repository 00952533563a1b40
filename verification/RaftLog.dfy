/** The raft log: appends, commits, truncation and the thread that applies
    committed entries to the database. */
module RaftLog {
  import opened ByteOrder
  import opened Runs

  /** An entry of the log; commited is the leader's commit index it carries. */
  datatype LogEntry = LogEntry(index: nat, key: Bytes, value: Bytes, term: int, commited: nat)

  // ---- the log as a transition system ----

  /** log[i] is the entry with index i + 1. An entry that was taken by the apply
      thread but not yet written to the database is in flight. */
  datatype LogState = LogState(
    start: nat,                  // index at the last open
    log: seq<LogEntry>,
    commited: nat,
    lastAppend: nat,
    inFlight: Option<LogEntry>,
    written: seq<LogEntry>)      // what the database received, in order

  datatype Step =
    | Append(entry: LogEntry)    // either Put, when the queue has room
    | Commit(leaderCommit: nat)  // UpdateCommit
    | Truncate(upTo: nat)      // Reset
    | Take                       // apply thread, under the lock
    | WriteDb                    // apply thread, after unlocking
    | Reopen                     // clean close, then open again

  function Max(a: nat, b: nat): nat {
    if a > b then a else b
  }

  function Min(a: nat, b: nat): nat {
    if a < b then a else b
  }

  predicate Enabled(s: LogState, step: Step) {
    match step
    case Take => s.inFlight.None? && s.lastAppend < s.commited <= |s.log|
    case WriteDb => s.inFlight.Some?
    case Reopen => s.inFlight.None? && s.lastAppend >= s.commited
    case _ => true
  }

  function After(s: LogState, step: Step): LogState
    requires Enabled(s, step)
  {
    match step
    case Append(entry) =>
      s.(log := s.log + [entry], commited := Max(s.commited, entry.commited))
    case Commit(leaderCommit) =>
      s.(commited := Max(s.commited, Min(|s.log|, leaderCommit)))
    case Truncate(upTo) =>
      // only what this session appended can be removed
      if |s.log| > upTo && |s.log| >= s.start then s.(log := s.log[..Max(upTo, s.start)]) else s
    case Take =>
      s.(lastAppend := s.lastAppend + 1, inFlight := Some(s.log[s.lastAppend]))
    case WriteDb =>
      s.(inFlight := None, written := s.written + [s.inFlight.value])
    case Reopen =>
      LogState(s.commited, s.log[..Min(s.commited, |s.log|)], s.commited, s.commited, None, s.written)
  }

  function Pending(s: LogState): seq<LogEntry> {
    if s.inFlight.Some? then [s.inFlight.value] else []
  }

  /** Applied at most what is committed, committed at most what is there, and the
      database received exactly the applied prefix, but for the one in flight. */
  ghost predicate Invariant(s: LogState) {
    && s.start <= s.lastAppend <= s.commited <= |s.log|
    && s.written + Pending(s) == s.log[..s.lastAppend]
  }

  /** What the peers guarantee: an entry carries no commit index beyond itself,
      and truncation spares what is committed. */
  predicate Permitted(s: LogState, step: Step) {
    && (step.Append? ==> step.entry.commited <= |s.log| + 1)
    && (step.Truncate? ==> s.commited <= Max(step.upTo, s.start) || |s.log| <= step.upTo)
  }

  /** A step keeps the invariant exactly when it is permitted. */
  lemma InvariantIff(s: LogState, step: Step)
    requires Invariant(s) && Enabled(s, step)
    ensures Permitted(s, step) <==> Invariant(After(s, step))
  {
    var s' := After(s, step);
    match step
    case Append(entry) => assert s'.log[..s.lastAppend] == s.log[..s.lastAppend];
    case Commit(_) =>
    case Truncate(upTo) =>
      if Permitted(s, step) { assert s'.log[..s.lastAppend] == s.log[..s.lastAppend]; }
    case Take => assert s.log[..s.lastAppend + 1] == s.log[..s.lastAppend] + [s.log[s.lastAppend]];
    case WriteDb =>
    case Reopen => assert s'.log[..s.commited] == s.log[..s.lastAppend];
  }

  // ---- runs ----

  ghost predicate StepOk(trace: seq<LogState>, steps: seq<Step>, i: nat)
    requires |trace| == |steps| + 1 && i < |steps|
  {
    Enabled(trace[i], steps[i]) && Permitted(trace[i], steps[i]) && trace[i + 1] == After(trace[i], steps[i])
  }

  ghost predicate IsRun(trace: seq<LogState>, steps: seq<Step>) {
    && |trace| == |steps| + 1
    && Invariant(trace[0])
    && forall i: nat :: i < |steps| ==> StepOk(trace, steps, i)
  }

  lemma {:induction false} RunInvariant(trace: seq<LogState>, steps: seq<Step>, i: nat)
    requires IsRun(trace, steps) && i < |trace|
    ensures Invariant(trace[i])
  {
    if i > 0 {
      RunInvariant(trace, steps, i - 1);
      assert StepOk(trace, steps, i - 1);
      InvariantIff(trace[i - 1], steps[i - 1]);
    }
  }

  /** What one step may not undo: commits, the committed prefix and database writes. */
  lemma StepExtends(s: LogState, step: Step)
    requires Invariant(s) && Enabled(s, step) && Permitted(s, step)
    ensures var s' := After(s, step);
            && s.commited <= s'.commited && s.lastAppend <= s'.lastAppend
            && s.commited <= |s'.log| && s'.log[..s.commited] == s.log[..s.commited]
            && s.written <= s'.written
  {
  }

  /** The log applies a stable prefix once: in every run, restarts included, the
      committed prefix never changes once committed, and the database receives
      the entries in index order, each exactly once. */
  lemma {:induction false} AppliesStablePrefix(trace: seq<LogState>, steps: seq<Step>, i: nat, j: nat)
    requires IsRun(trace, steps) && i <= j < |trace|
    ensures trace[i].commited <= trace[j].commited <= |trace[j].log| && trace[i].commited <= |trace[i].log|
    ensures trace[j].log[..trace[i].commited] == trace[i].log[..trace[i].commited]
    ensures trace[i].written <= trace[j].written
    ensures trace[j].lastAppend <= |trace[j].log| && trace[j].written <= trace[j].log[..trace[j].lastAppend]
    ensures |trace[j].written| + (if trace[j].inFlight.Some? then 1 else 0) == trace[j].lastAppend
    decreases j
  {
    hide After, Enabled, Permitted;
    RunInvariant(trace, steps, j);
    RunInvariant(trace, steps, i);
    if i < j {
      AppliesStablePrefix(trace, steps, i, j - 1);
      assert StepOk(trace, steps, j - 1);
      RunInvariant(trace, steps, j - 1);
      StepExtends(trace[j - 1], steps[j - 1]);
      var c, d := trace[i].commited, trace[j - 1].commited;
      assert trace[j].log[..d][..c] == trace[j].log[..c];
      assert trace[j - 1].log[..d][..c] == trace[j - 1].log[..c];
    }
    assert |trace[j].written + Pending(trace[j])| == trace[j].lastAppend;
  }

  // ---- progress ----

  /** The apply thread running until it has caught up. */
  function CaughtUp(s: LogState): LogState
    requires s.commited <= |s.log|
    decreases if s.lastAppend < s.commited then s.commited - s.lastAppend else 0, |Pending(s)|
  {
    if s.inFlight.Some? then CaughtUp(After(s, WriteDb))
    else if s.lastAppend < s.commited then CaughtUp(After(s, Take))
    else s
  }

  /** It writes exactly the committed entries, and changes nothing else. */
  lemma {:induction false} CaughtUpWrites(s: LogState)
    requires Invariant(s)
    ensures var t := CaughtUp(s);
            Invariant(t) && t.inFlight.None? && t.written == s.log[..s.commited]
            && t.log == s.log && t.commited == s.commited == t.lastAppend
    decreases s.commited - s.lastAppend, |Pending(s)|
  {
    if s.inFlight.Some? {
      InvariantIff(s, WriteDb);
      CaughtUpWrites(After(s, WriteDb));
    } else if s.lastAppend < s.commited {
      InvariantIff(s, Take);
      CaughtUpWrites(After(s, Take));
    } else {
      assert s.written + [] == s.written;
    }
  }

  /** A commit takes effect: every entry up to the leader's commit index that is
      there reaches the database once the apply thread has caught up, and so does
      everything that an appended entry carries as committed. */
  lemma CommitIsApplied(s: LogState, n: nat)
    requires Invariant(s)
    ensures var t := CaughtUp(After(s, Commit(n)));
            && t.written == s.log[..Max(s.commited, Min(n, |s.log|))]
            && (n <= |s.log| ==> s.log[..n] <= t.written)
  {
    InvariantIff(s, Commit(n));
    CaughtUpWrites(After(s, Commit(n)));
  }

  lemma AppendIsApplied(s: LogState, entry: LogEntry)
    requires Invariant(s) && entry.commited <= |s.log| + 1
    ensures CaughtUp(After(s, Append(entry))).written == (s.log + [entry])[..Max(s.commited, entry.commited)]
  {
    InvariantIff(s, Append(entry));
    CaughtUpWrites(After(s, Append(entry)));
  }

  // ---- the queue ----

  const RING_SIZE: nat := 0x40000

  /** The queue under the log: a fixed array, with an unmasked write index. */
  class RingBufferQueue<T(0)> {
    const data: array<T>
    var head: nat
    var tail: nat

    ghost predicate Valid()
      reads this, data
    {
      data.Length == RING_SIZE && tail <= head < RING_SIZE
    }

    ghost function Contents(): seq<T>
      requires Valid()
      reads this, data
    {
      data[tail + 1..head + 1]
    }

    constructor ()
      ensures Valid() && Contents() == [] && tail == 0 && fresh(data)
    {
      data := new T[RING_SIZE];
      head, tail := 0, 0;
    }

    /** As long as nothing was popped from the front the mask test refuses exactly
        the write that would leave the array. */
    method PushBack(x: T) returns (ok: bool)
      requires Valid() && tail == 0
      modifies this`head, data
      ensures Valid() && tail == 0
      ensures ok <==> |old(Contents())| + 1 < RING_SIZE
      ensures Contents() == if ok then old(Contents()) + [x] else old(Contents())
    {
      if (head + 1) % RING_SIZE == tail {
        return false;
      }
      ghost var before := Contents();
      head := head + 1;
      data[head] := x;
      assert Contents() == before + [x];
      return true;
    }

    /** Truncate: drop up to count from the back. */
    method Truncate(count: nat) returns (removed: nat)
      requires Valid()
      modifies this`head
      ensures Valid() && removed == Min(count, |old(Contents())|)
      ensures Contents() == old(Contents())[..|old(Contents())| - removed]
    {
      if tail == head {
        return 0;
      }
      removed := Min(count, head - tail);
      ghost var before := Contents();
      head := head - removed;
      assert Contents() == before[..|before| - removed];
    }

    method At(i: nat) returns (x: T)
      requires Valid() && i < |Contents()|
      ensures x == Contents()[i]
    {
      x := data[tail + i + 1];
    }

    /** Counted from the back. */
    method RAt(i: nat) returns (x: T)
      requires Valid() && i < |Contents()|
      ensures x == Contents()[|Contents()| - 1 - i]
    {
      x := data[head - i];
    }
  }

  /** After a PopFront the same test lets a write past the end through, so the
      log's queue is sound exactly as long as nothing was popped. */
  lemma PushGuardIff(head: nat, tail: nat)
    requires tail <= head < RING_SIZE
    ensures ((head + 1) % RING_SIZE == tail || head + 1 < RING_SIZE) <==> !(tail > 0 && head == RING_SIZE - 1)
  {
    if head + 1 == RING_SIZE { assert (head + 1) % RING_SIZE == 0; }
  }

  // ---- the log object ----

  class Log {
    var index: nat
    var commited: nat
    var lastAppend: nat
    var startIndex: nat
    const queue: RingBufferQueue<LogEntry>
    /** The entry the apply thread holds between taking and writing it. */
    var inFlight: Option<LogEntry>
    ghost var log: seq<LogEntry>
    ghost var written: seq<LogEntry>

    ghost function State(): LogState
      reads this
    {
      LogState(startIndex, log, commited, lastAppend, inFlight, written)
    }

    ghost predicate Valid()
      reads this, queue, queue.data
    {
      && Invariant(State())
      && queue.Valid() && queue.tail == 0
      && index == |log| && queue.Contents() == log[startIndex..]
    }

    /** Opening: everything starts at the saved commit index, the queue is empty. */
    constructor (saved: nat, ghost history: seq<LogEntry>)
      requires |history| == saved
      ensures Valid() && State() == LogState(saved, history, saved, saved, None, history)
      ensures fresh(queue) && fresh(queue.data)
    {
      startIndex, index, commited, lastAppend := saved, saved, saved, saved;
      inFlight := None;
      queue := new RingBufferQueue<LogEntry>();
      log, written := history, history;
      new;
      assert history[..saved] == history && history[saved..] == [];
      assert history + [] == history;
    }

    /** Put of a received entry, and the tail of a local Put. */
    method PutEntry(entry: LogEntry) returns (ok: bool)
      requires Valid() && entry.commited <= index + 1
      modifies this`index, this`commited, this`log, queue`head, queue.data
      ensures Valid() && (ok <==> old(index) - startIndex + 1 < RING_SIZE)
      ensures State() == if ok then After(old(State()), Append(entry)) else old(State())
      ensures ok ==> index == old(index) + 1 && log == old(log) + [entry]
                     && commited == if entry.commited > old(commited) then entry.commited else old(commited)
    {
      InvariantIff(State(), Append(entry));
      ok := queue.PushBack(entry);
      if ok {
        index := index + 1;
        if entry.commited > commited {
          commited := entry.commited;
        }
        assert (log + [entry])[startIndex..] == log[startIndex..] + [entry];
        log := log + [entry];
      }
    }

    /** Put of a local key and value: the entry carries no commit index. */
    method Put(key: Bytes, value: Bytes, term: int) returns (ok: bool, idx: nat)
      requires Valid()
      modifies this`index, this`commited, this`log, queue`head, queue.data
      ensures Valid() && commited == old(commited)
      ensures ok ==> idx == index == old(index) + 1 && log == old(log) + [LogEntry(idx, key, value, term, 0)]
      ensures !ok ==> State() == old(State())
    {
      var entry := LogEntry(index + 1, key, value, term, 0);
      ok := PutEntry(entry);
      idx := index;
    }

    /** The entry with a given index, counted back from the newest. */
    method At(i: nat) returns (e: LogEntry)
      requires Valid() && startIndex < i <= index
      ensures e == log[i - 1]
    {
      e := queue.RAt(index - i);
    }

    method Reset(upTo: nat)
      requires Valid() && commited <= upTo
      modifies this`index, this`log, queue`head
      ensures Valid() && State() == After(old(State()), Truncate(upTo))
      ensures index == Min(old(index), upTo) && log == old(log)[..index]
    {
      InvariantIff(State(), Truncate(upTo));
      if index > upTo {
        var count := index - upTo;
        var removed := queue.Truncate(count);
        index := index - removed;
        assert log[..upTo][startIndex..] == log[startIndex..][..upTo - startIndex];
        log := log[..upTo];
      }
    }

    method UpdateCommit(leaderCommit: nat)
      requires Valid()
      modifies this`commited
      ensures Valid() && State() == After(old(State()), Commit(leaderCommit))
      ensures commited == Max(old(commited), Min(index, leaderCommit))
    {
      InvariantIff(State(), Commit(leaderCommit));
      commited := Max(commited, Min(index, leaderCommit));
    }

    /** Apply thread under the lock: the read from the queue is in range. */
    method TakeNext()
      requires Valid() && inFlight.None? && lastAppend < commited
      modifies this`lastAppend, this`inFlight
      ensures Valid() && State() == After(old(State()), Take)
      ensures lastAppend == old(lastAppend) + 1 && inFlight == Some(log[old(lastAppend)])
    {
      InvariantIff(State(), Take);
      var entry := queue.At(lastAppend - startIndex);
      assert entry == log[lastAppend];
      lastAppend := lastAppend + 1;
      inFlight := Some(entry);
    }

    /** Apply thread after unlocking: db_->Put. */
    method WriteNext()
      requires Valid() && inFlight.Some?
      modifies this`inFlight, this`written
      ensures Valid() && State() == After(old(State()), WriteDb)
      ensures inFlight.None? && written == old(written) + [old(inFlight).value]
    {
      InvariantIff(State(), WriteDb);
      written := written + [inFlight.value];
      inFlight := None;
    }

    /** The destructor: the apply thread writes the entry it holds and runs until
        it has caught up, then the commit index is saved. What a reopened log starts
        from is exactly what the database has received. */
    method Close() returns (saved: nat)
      requires Valid()
      modifies this`lastAppend, this`inFlight, this`written
      ensures Valid() && inFlight.None? && saved == commited == lastAppend
      ensures written == log[..saved] && log == old(log) && commited == old(commited)
    {
      if inFlight.Some? {
        WriteNext();
      }
      while lastAppend < commited
        invariant Valid() && inFlight.None? && log == old(log) && commited == old(commited)
      {
        TakeNext();
        WriteNext();
      }
      saved := commited;
      assert written + [] == written;
    }
  }
}
