/** The k-way merge at the heart of a compaction. Sources are numbered in the
    order they enter the queue, newest first; that number is `second_value`. */
module Merge {
  import opened ByteOrder
  import opened Runs

  /** The answer of the first source that knows the key. */
  function Newest(sources: seq<seq<Entry>>, key: Bytes): (r: Option<Bytes>)
    ensures r.None? <==> forall i :: 0 <= i < |sources| ==> Lookup(sources[i], key).None?
  {
    if sources == [] then None
    else if Lookup(sources[0], key).Some? then Lookup(sources[0], key)
    else
      var r := Newest(sources[1..], key);
      assert forall i :: 0 < i < |sources| ==> sources[i] == sources[1..][i - 1];
      r
  }

  lemma {:induction false} NewestIs(sources: seq<seq<Entry>>, key: Bytes, i: nat)
    requires i < |sources| && Lookup(sources[i], key).Some?
    requires forall j :: 0 <= j < i ==> Lookup(sources[j], key).None?
    ensures Newest(sources, key) == Lookup(sources[i], key)
  {
    if i > 0 {
      NewestIs(sources[1..], key, i - 1);
    }
  }

  lemma {:induction false} NewestConcat(a: seq<seq<Entry>>, b: seq<seq<Entry>>, key: Bytes)
    ensures Newest(a + b, key) == if Newest(a, key).Some? then Newest(a, key) else Newest(b, key)
  {
    if a == [] {
      assert a + b == b;
    } else {
      assert (a + b)[1..] == a[1..] + b;
      NewestConcat(a[1..], b, key);
    }
  }

  /** One element of the queue: an iterator into a source, and its number. */
  datatype Cursor = Cursor(rank: nat, pos: nat)

  predicate OnEntry(sources: seq<seq<Entry>>, c: Cursor) {
    c.rank < |sources| && c.pos < |sources[c.rank]|
  }

  function Here(sources: seq<seq<Entry>>, c: Cursor): Entry
    requires OnEntry(sources, c)
  {
    sources[c.rank][c.pos]
  }

  /** The queue's order: smaller key first, then the newer source. */
  predicate Before(sources: seq<seq<Entry>>, c: Cursor, d: Cursor)
    requires OnEntry(sources, c) && OnEntry(sources, d)
  {
    Lt(Here(sources, c).key, Here(sources, d).key)
    || (Here(sources, c).key == Here(sources, d).key && c.rank < d.rank)
  }

  predicate IsTop(sources: seq<seq<Entry>>, queue: set<Cursor>, c: Cursor)
    requires forall d :: d in queue ==> OnEntry(sources, d)
  {
    c in queue && forall d :: d in queue ==> d == c || Before(sources, c, d)
  }

  ghost predicate DistinctRanks(queue: set<Cursor>) {
    forall c, d :: c in queue && d in queue && c.rank == d.rank ==> c == d
  }

  lemma {:induction false} TopExists(sources: seq<seq<Entry>>, queue: set<Cursor>)
    requires queue != {} && DistinctRanks(queue)
    requires forall d :: d in queue ==> OnEntry(sources, d)
    ensures exists c :: IsTop(sources, queue, c)
  {
    var x :| x in queue;
    var rest := queue - {x};
    if rest == {} {
      assert queue == {x};
      assert IsTop(sources, queue, x);
    } else {
      TopExists(sources, rest);
      var y :| IsTop(sources, rest, y);
      Trichotomy(Here(sources, x).key, Here(sources, y).key);
      if Before(sources, x, y) {
        forall d | d in rest ensures Before(sources, x, d) {
          Chain(Here(sources, x).key, Here(sources, y).key, Here(sources, d).key);
        }
        assert forall d :: d in queue ==> d == x || d in rest;
        assert IsTop(sources, queue, x);
      } else {
        assert IsTop(sources, queue, y);
      }
    }
  }

  /** Entries not yet taken from the sources. */
  ghost function Remaining(sources: seq<seq<Entry>>, pos: seq<nat>): nat
    requires |pos| == |sources|
    requires forall r :: 0 <= r < |sources| ==> pos[r] <= |sources[r]|
  {
    if sources == [] then 0 else |sources[0]| - pos[0] + Remaining(sources[1..], pos[1..])
  }

  lemma {:induction false} RemainingStep(sources: seq<seq<Entry>>, pos: seq<nat>, r: nat)
    requires |pos| == |sources| && r < |sources| && pos[r] < |sources[r]|
    requires forall q :: 0 <= q < |sources| ==> pos[q] <= |sources[q]|
    ensures Remaining(sources, pos[r := pos[r] + 1]) == Remaining(sources, pos) - 1
  {
    var next := pos[r := pos[r] + 1];
    if r == 0 {
      assert next[1..] == pos[1..];
    } else {
      assert next[1..] == pos[1..][r - 1 := pos[r] + 1];
      RemainingStep(sources[1..], pos[1..], r - 1);
    }
  }

  ghost predicate AllSorted(sources: seq<seq<Entry>>) {
    forall r :: 0 <= r < |sources| ==> Sorted(sources[r])
  }

  /** The queue holds exactly the sources that still have entries. */
  ghost predicate QueueInvariant(sources: seq<seq<Entry>>, queue: set<Cursor>, pos: seq<nat>) {
    && |pos| == |sources|
    && (forall r :: 0 <= r < |sources| ==> pos[r] <= |sources[r]|)
    && (forall c :: c in queue ==> OnEntry(sources, c) && c.pos == pos[c.rank])
    && (forall r :: 0 <= r < |sources| && pos[r] < |sources[r]| ==> Cursor(r, pos[r]) in queue)
  }

  /** What is behind the iterators is at most the last key written, what is
      ahead is at least that key. */
  ghost predicate Frontier(sources: seq<seq<Entry>>, pos: seq<nat>, last: Bytes)
    requires |pos| == |sources|
    requires forall r :: 0 <= r < |sources| ==> pos[r] <= |sources[r]|
  {
    && (forall r, i :: 0 <= r < |sources| && 0 <= i < pos[r] ==> Le(sources[r][i].key, last))
    && (forall r, i :: 0 <= r < |sources| && pos[r] <= i < |sources[r]| ==> Le(last, sources[r][i].key))
  }

  /** Up to the last key written the output is complete. */
  ghost predicate MergeInvariant(sources: seq<seq<Entry>>, queue: set<Cursor>, pos: seq<nat>, out: seq<Entry>) {
    && QueueInvariant(sources, queue, pos)
    && Sorted(out)
    && (out == [] ==> forall r :: 0 <= r < |sources| ==> pos[r] == 0)
    && (out != [] ==>
          && Frontier(sources, pos, out[|out| - 1].key)
          && (forall k :: Le(k, out[|out| - 1].key) ==> Lookup(out, k) == Newest(sources, k)))
  }

  /** The next key of the output: nothing between it and the last key was
      skipped, and the queue's top holds its newest value. */
  lemma TopIsNext(sources: seq<seq<Entry>>, queue: set<Cursor>, pos: seq<nat>, out: seq<Entry>, top: Cursor, k: Bytes)
    requires AllSorted(sources) && MergeInvariant(sources, queue, pos, out) && IsTop(sources, queue, top)
    requires Le(k, Here(sources, top).key)
    requires out != [] ==> Lt(out[|out| - 1].key, k)
    ensures Newest(sources, k) == if k == Here(sources, top).key then Some(Here(sources, top).value) else None
  {
    var topKey := Here(sources, top).key;
    forall r | 0 <= r < |sources| && HasKey(sources[r], k)
      ensures k == topKey && top.rank <= r
    {
      var i :| 0 <= i < |sources[r]| && sources[r][i].key == k;
      if out != [] { Trichotomy(k, out[|out| - 1].key); }
      assert pos[r] <= i;
      assert Cursor(r, pos[r]) in queue;
      var head := sources[r][pos[r]].key;
      Chain(topKey, head, k);
      Trichotomy(topKey, k);
    }
    if k == topKey {
      LookupAt(sources[top.rank], top.pos);
      NewestIs(sources, k, top.rank);
    }
  }

  lemma WriteTop(sources: seq<seq<Entry>>, queue: set<Cursor>, pos: seq<nat>, out: seq<Entry>, top: Cursor,
                 out': seq<Entry>)
    requires AllSorted(sources) && MergeInvariant(sources, queue, pos, out) && IsTop(sources, queue, top)
    requires out != [] ==> out[|out| - 1].key != Here(sources, top).key
    requires out' == out + [Here(sources, top)]
    ensures Sorted(out')
    ensures forall k :: Le(k, Here(sources, top).key) ==> Lookup(out', k) == Newest(sources, k)
  {
    var e := Here(sources, top);
    AppendSorted(out, e);
    forall k | Le(k, e.key) ensures Lookup(out', k) == Newest(sources, k) {
      LookupAppend(out, e, k);
      if out == [] {
        TopIsNext(sources, queue, pos, out, top, k);
      } else {
        var last := out[|out| - 1].key;
        Trichotomy(last, k);
        Trichotomy(last, e.key);
        if Lt(last, k) {
          TopIsNext(sources, queue, pos, out, top, k);
          AboveLast(out, k);
        }
      }
    }
  }

  lemma AppendSorted(out: seq<Entry>, e: Entry)
    requires Sorted(out)
    requires out != [] ==> Lt(out[|out| - 1].key, e.key)
    ensures Sorted(out + [e])
  {
    forall i | 0 <= i < |out| ensures Lt(out[i].key, e.key) {
      Chain(out[i].key, out[|out| - 1].key, e.key);
    }
  }

  lemma AboveLast(out: seq<Entry>, k: Bytes)
    requires Sorted(out) && out != [] && Lt(out[|out| - 1].key, k)
    ensures Lookup(out, k) == None
  {
    forall i | 0 <= i < |out| ensures out[i].key != k {
      Chain(out[i].key, out[|out| - 1].key, k);
    }
  }

  lemma LookupAppend(out: seq<Entry>, e: Entry, k: Bytes)
    requires Sorted(out + [e])
    ensures Lookup(out + [e], k) == if k == e.key then Some(e.value) else Lookup(out, k)
  {
    var out' := out + [e];
    assert out'[|out|] == e;
    if k == e.key {
      LookupAt(out', |out|);
    } else if HasKey(out, k) {
      var i :| 0 <= i < |out| && out[i].key == k;
      assert Sorted(out) by { assert forall i :: 0 <= i < |out| ==> out[i] == out'[i]; }
      assert out'[i] == out[i];
      LookupAt(out, i);
      LookupAt(out', i);
    } else {
      assert forall i :: 0 <= i < |out| ==> out'[i] == out[i];
    }
  }

  /** Taking the top, writing it when its key is new, and advancing its iterator
      keeps the invariant. */
  lemma MergeStep(sources: seq<seq<Entry>>, queue: set<Cursor>, pos: seq<nat>, out: seq<Entry>, top: Cursor,
                  queue': set<Cursor>, pos': seq<nat>, out': seq<Entry>)
    requires AllSorted(sources) && MergeInvariant(sources, queue, pos, out) && IsTop(sources, queue, top)
    requires out' == if out == [] || out[|out| - 1].key != Here(sources, top).key
               then out + [Here(sources, top)] else out
    requires pos' == pos[top.rank := pos[top.rank] + 1]
    requires queue' == queue - {top}
             + (if top.pos + 1 < |sources[top.rank]| then {Cursor(top.rank, top.pos + 1)} else {})
    ensures MergeInvariant(sources, queue', pos', out')
  {
    if out' != out {
      WriteTop(sources, queue, pos, out, top, out');
    }
    AdvanceFrontier(sources, queue, pos, out, top, pos');
    assert out'[|out'| - 1].key == Here(sources, top).key;
  }

  lemma AdvanceFrontier(sources: seq<seq<Entry>>, queue: set<Cursor>, pos: seq<nat>, out: seq<Entry>, top: Cursor,
                        pos': seq<nat>)
    requires AllSorted(sources) && MergeInvariant(sources, queue, pos, out) && IsTop(sources, queue, top)
    requires pos' == pos[top.rank := pos[top.rank] + 1]
    ensures Frontier(sources, pos', Here(sources, top).key)
  {
    var key := Here(sources, top).key;
    forall r, i | 0 <= r < |sources| && pos'[r] <= i < |sources[r]| ensures Le(key, sources[r][i].key) {
      if r != top.rank {
        assert Cursor(r, pos[r]) in queue;
        Chain(key, sources[r][pos[r]].key, sources[r][i].key);
      }
    }
    forall r, i | 0 <= r < |sources| && 0 <= i < pos'[r] ensures Le(sources[r][i].key, key) {
      if out != [] && i < pos[r] {
        Chain(sources[r][i].key, out[|out| - 1].key, key);
      }
    }
  }

  /** When the queue is empty nothing is left above the last key. */
  lemma AllTaken(sources: seq<seq<Entry>>, pos: seq<nat>, out: seq<Entry>)
    requires AllSorted(sources) && MergeInvariant(sources, {}, pos, out)
    requires forall r :: 0 <= r < |sources| ==> sources[r] != []
    ensures forall k :: Lookup(out, k) == Newest(sources, k)
  {
    forall k ensures Lookup(out, k) == Newest(sources, k) {
      if out != [] {
        var last := out[|out| - 1].key;
        Trichotomy(k, last);
        if Lt(last, k) {
          forall r | 0 <= r < |sources| ensures Lookup(sources[r], k).None? {
            assert pos[r] == |sources[r]|;
          }
          AboveLast(out, k);
        }
      }
    }
  }

  /** The reference merge: start from the oldest source and write each newer one
      over it, entry by entry. */
  function Overlay(top: seq<Entry>, below: seq<Entry>): seq<Entry> {
    if top == [] then below else Upsert(Overlay(top[1..], below), top[0].key, top[0].value)
  }

  function Merged(sources: seq<seq<Entry>>): seq<Entry> {
    if sources == [] then [] else Overlay(sources[0], Merged(sources[1..]))
  }

  lemma {:induction false} OverlayAnswers(top: seq<Entry>, below: seq<Entry>, k: Bytes)
    requires Sorted(below)
    ensures Sorted(Overlay(top, below))
    ensures Lookup(Overlay(top, below), k) == if Lookup(top, k).Some? then Lookup(top, k) else Lookup(below, k)
  {
    if top != [] {
      OverlayAnswers(top[1..], below, k);
      UpsertSorted(Overlay(top[1..], below), top[0].key, top[0].value);
      UpsertLookup(Overlay(top[1..], below), top[0].key, top[0].value, k);
    }
  }

  /** The reference merge is sorted, has exactly the union of the keys, and each
      key has the value of the newest source that knows it. */
  lemma {:induction false} MergedAnswers(sources: seq<seq<Entry>>, k: Bytes)
    ensures Sorted(Merged(sources))
    ensures Lookup(Merged(sources), k) == Newest(sources, k)
  {
    if sources != [] {
      MergedAnswers(sources[1..], k);
      OverlayAnswers(sources[0], Merged(sources[1..]), k);
    }
  }

  /** The queue loop of a compaction computes the reference merge. */
  method HeapMerge(sources: seq<seq<Entry>>) returns (out: seq<Entry>)
    requires AllSorted(sources)
    requires forall r :: 0 <= r < |sources| ==> sources[r] != []
    ensures out == Merged(sources)
  {
    hide Lt, Lookup, Merged;
    var queue: set<Cursor> := set r | 0 <= r < |sources| :: Cursor(r, 0);
    ghost var pos: seq<nat> := seq(|sources|, _ => 0);
    out := [];
    while queue != {}
      invariant MergeInvariant(sources, queue, pos, out)
      decreases Remaining(sources, pos)
    {
      TopExists(sources, queue);
      var top :| IsTop(sources, queue, top);
      ghost var queue0, pos0, out0 := queue, pos, out;
      queue := queue - {top};
      if out == [] || out[|out| - 1].key != Here(sources, top).key {
        out := out + [Here(sources, top)];
      }
      RemainingStep(sources, pos, top.rank);
      pos := pos[top.rank := pos[top.rank] + 1];
      if top.pos + 1 < |sources[top.rank]| {
        queue := queue + {Cursor(top.rank, top.pos + 1)};
      }
      MergeStep(sources, queue0, pos0, out0, top, queue, pos, out);
    }
    AllTaken(sources, pos, out);
    forall k ensures Sorted(Merged(sources)) && Lookup(Merged(sources), k) == Newest(sources, k) {
      MergedAnswers(sources, k);
    }
    MergedAnswers(sources, []);
    RunExtensionality(out, Merged(sources));
  }
}
