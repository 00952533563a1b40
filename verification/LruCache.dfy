/** The LRU cache: a hash map into a circular doubly linked list. */
module LruCache {
  import opened Runs
  import opened Arithmetic

  class Node<V> {
    var value: V
    var promotions: nat
    var nxt: Node?<V>
    var pre: Node?<V>

    constructor (value: V)
      ensures this.value == value && promotions == 0
    {
      this.value, promotions, nxt, pre := value, 0, null, null;
    }
  }

  /** What one place of the list holds. */
  datatype Slot<V> = Slot(value: V, promotions: nat)

  // ---- the ring ----

  /** The node after place i of the ring, and the node before it. */
  ghost function Following<V>(ring: seq<Node<V>>, i: nat): Node<V>
    requires i < |ring|
  {
    if i + 1 < |ring| then ring[i + 1] else ring[0]
  }

  ghost function Preceding<V>(ring: seq<Node<V>>, i: nat): Node<V>
    requires i < |ring|
  {
    if i > 0 then ring[i - 1] else ring[|ring| - 1]
  }

  /** The nodes, dummy first, are linked into a ring both ways: the backward walk
      is the mirror image of the forward walk. */
  ghost predicate Ring<V>(ring: seq<Node<V>>)
    reads (set n | n in ring)`nxt, (set n | n in ring)`pre
  {
    && ring != []
    && Distinct(ring)
    && (forall i: nat {:trigger Following(ring, i)} :: i < |ring| ==> ring[i].nxt == Following(ring, i))
    && (forall i: nat {:trigger Preceding(ring, i)} :: i < |ring| ==> ring[i].pre == Preceding(ring, i))
  }

  ghost predicate Distinct<V>(ring: seq<Node<V>>) {
    forall i, j :: 0 <= i < j < |ring| ==> ring[i] != ring[j]
  }

  lemma FrontDistinct<V>(ring: seq<Node<V>>, node: Node<V>, ring': seq<Node<V>>)
    requires ring != [] && Distinct(ring) && node !in ring && ring' == [ring[0], node] + ring[1..]
    ensures Distinct(ring') && forall i :: 2 <= i < |ring'| ==> ring'[i] == ring[i - 1]
  {
  }

  lemma OutDistinct<V>(ring: seq<Node<V>>, i: nat, ring': seq<Node<V>>)
    requires i < |ring| && Distinct(ring) && ring' == ring[..i] + ring[i + 1..]
    ensures Distinct(ring') && ring[i] !in ring'
  {
  }

  /** Front to back, without the dummy. */
  ghost function View<V>(ring: seq<Node<V>>): (view: seq<Slot<V>>)
    requires ring != []
    reads ring
    ensures |view| == |ring| - 1
    ensures forall i :: 0 <= i < |view| ==> view[i] == Slot(ring[i + 1].value, ring[i + 1].promotions)
  {
    seq(|ring| - 1, i requires 0 <= i < |ring| - 1 reads ring => Slot(ring[i + 1].value, ring[i + 1].promotions))
  }

  class List<V> {
    const dummy: Node<V>
    var size: nat
    ghost var ring: seq<Node<V>>

    ghost predicate Valid()
      reads this, ring
    {
      ring != [] && ring[0] == dummy && Ring(ring) && size == |ring| - 1
    }

    constructor (blank: V)
      ensures Valid() && ring == [dummy] && fresh(dummy)
    {
      var d := new Node<V>(blank);
      d.nxt, d.pre := d, d;
      dummy, size := d, 0;
      ring := [d];
    }

    method PushFront(value: V) returns (node: Node<V>)
      requires Valid()
      modifies this, ring
      ensures Valid() && fresh(node) && ring == [dummy, node] + old(ring)[1..]
      ensures node.value == value && node.promotions == 0
      ensures forall n :: n in old(ring) ==> n.value == old(n.value) && n.promotions == old(n.promotions)
    {
      node := new Node<V>(value);
      LinkFront(node);
      size := size + 1;
    }

    /** The four pointer writes that put a node behind the dummy. */
    method LinkFront(node: Node<V>)
      requires ring != [] && ring[0] == dummy && Ring(ring) && node !in ring
      modifies this`ring, (set n | n in ring)`nxt, (set n | n in ring)`pre, node`nxt, node`pre
      ensures ring == [dummy, node] + old(ring)[1..] && Ring(ring)
    {
      ghost var before := ring;
      ghost var n := |before|;
      assert before[0].nxt == Following(before, 0);
      node.nxt := dummy.nxt;
      node.pre := dummy;
      dummy.nxt.pre := node;
      dummy.nxt := node;
      ring := [dummy, node] + ring[1..];
      FrontDistinct(before, node, ring);
      forall i: nat | i < |ring| ensures ring[i].nxt == Following(ring, i) && ring[i].pre == Preceding(ring, i) {
        if i >= 2 {
          assert old(before[i - 1].nxt) == Following(before, i - 1)
                 && old(before[i - 1].pre) == Preceding(before, i - 1);
        } else if i == 0 {
          assert old(before[0].pre) == Preceding(before, 0);
        }
      }
    }

    /** Unlink a node; size is not changed. */
    method Extract(node: Node<V>, ghost i: nat)
      requires Valid() && 1 <= i < |ring| && ring[i] == node
      modifies this`ring, ring
      ensures ring == old(ring)[..i] + old(ring)[i + 1..] && Ring(ring) && ring[0] == dummy
      ensures size == old(size)
      ensures forall n :: n in old(ring) ==> n.value == old(n.value) && n.promotions == old(n.promotions)
    {
      ghost var before := ring;
      ghost var n := |before|;
      assert before[i].nxt == Following(before, i) && before[i].pre == Preceding(before, i);
      node.pre.nxt := node.nxt;
      node.nxt.pre := node.pre;
      ring := ring[..i] + ring[i + 1..];
      OutDistinct(before, i, ring);
      forall j: nat | j < |ring| ensures ring[j].nxt == Following(ring, j) && ring[j].pre == Preceding(ring, j) {
        var k := if j < i then j else j + 1;
        assert ring[j] == before[k];
        assert old(before[k].nxt) == Following(before, k) && old(before[k].pre) == Preceding(before, k);
      }
    }

    /** Link a node in at the front; size is not changed. */
    method InsertFront(node: Node<V>)
      requires ring != [] && ring[0] == dummy && Ring(ring) && node !in ring
      modifies this`ring, ring, node
      ensures ring == [dummy, node] + old(ring)[1..] && Ring(ring)
      ensures size == old(size)
      ensures forall n :: n in ring ==> n.value == old(n.value) && n.promotions == old(n.promotions)
    {
      LinkFront(node);
    }

    method PopBack() returns (node: Node?<V>)
      requires Valid()
      modifies this, ring
      ensures Valid()
      ensures |old(ring)| == 1 ==> node == null && ring == old(ring)
      ensures |old(ring)| > 1 ==> node == old(ring)[|old(ring)| - 1] && ring == old(ring)[..|old(ring)| - 1]
      ensures forall n :: n in old(ring) ==> n.value == old(n.value) && n.promotions == old(n.promotions)
    {
      if size == 0 {
        return null;
      }
      assert ring[0].pre == Preceding(ring, 0);
      node := dummy.pre;
      Extract(node, |ring| - 1);
      size := size - 1;
    }
  }

  // ---- what the operations do to the list, front to back ----

  /** A hit: after enough hits the item moves to the front and counts anew. */
  function Touched<V>(view: seq<Slot<V>>, i: nat, limit: nat): seq<Slot<V>>
    requires i < |view|
  {
    if view[i].promotions >= limit then [Slot(view[i].value, 0)] + view[..i] + view[i + 1..]
    else view[i := Slot(view[i].value, view[i].promotions + 1)]
  }

  /** A miss: the item enters at the front; a full list first loses its last. */
  function Entered<V>(view: seq<Slot<V>>, value: V, capacity: nat): seq<Slot<V>> {
    [Slot(value, 0)] + if |view| == capacity && capacity > 0 then view[..|view| - 1] else view
  }

  /** The place of a key, counted from the front. */
  ghost function Find<K, V>(view: seq<Slot<V>>, keyOf: V -> K, k: K): (r: Option<nat>)
    ensures r.Some? ==> r.value < |view| && keyOf(view[r.value].value) == k
    ensures r.None? ==> forall i :: 0 <= i < |view| ==> keyOf(view[i].value) != k
  {
    if exists i: nat :: i < |view| && keyOf(view[i].value) == k
    then var i: nat :| i < |view| && keyOf(view[i].value) == k; Some(i)
    else None
  }

  /** Put as a whole. */
  ghost function AfterPut<K, V>(view: seq<Slot<V>>, keyOf: V -> K, value: V, capacity: nat, limit: nat): seq<Slot<V>> {
    var i := Find(view, keyOf, keyOf(value));
    if i.Some? then Touched(view, i.value, limit) else Entered(view, value, capacity)
  }

  ghost predicate UniqueKeys<K, V>(view: seq<Slot<V>>, keyOf: V -> K) {
    forall i, j :: 0 <= i < j < |view| ==> keyOf(view[i].value) != keyOf(view[j].value)
  }

  ghost function Values<V>(view: seq<Slot<V>>): (vs: seq<V>)
    ensures |vs| == |view| && forall i :: 0 <= i < |view| ==> vs[i] == view[i].value
  {
    seq(|view|, i requires 0 <= i < |view| => view[i].value)
  }

  /** Promotion only permutes: the same values, each as often as before, and only
      the touched one changes its place relative to the others. */
  lemma TouchedPermutes<V>(view: seq<Slot<V>>, i: nat, limit: nat)
    requires i < |view|
    ensures multiset(Values(Touched(view, i, limit))) == multiset(Values(view))
  {
    var vs, vs' := Values(view), Values(Touched(view, i, limit));
    assert vs == vs[..i] + [vs[i]] + vs[i + 1..];
    if view[i].promotions >= limit {
      assert vs' == [vs[i]] + vs[..i] + vs[i + 1..];
    } else {
      assert vs' == vs;
    }
  }

  // ---- runs of the cache ----

  datatype Op<K, V> = Ask(key: K) | Store(value: V)

  function KeyOfOp<K, V>(op: Op<K, V>, keyOf: V -> K): K {
    match op
    case Ask(k) => k
    case Store(v) => keyOf(v)
  }

  ghost function AfterOp<K, V>(view: seq<Slot<V>>, keyOf: V -> K, op: Op<K, V>, capacity: nat,
                               limit: nat): seq<Slot<V>>
  {
    match op
    case Store(v) => AfterPut(view, keyOf, v, capacity, limit)
    case Ask(k) =>
      var i := Find(view, keyOf, k);
      if i.Some? then Touched(view, i.value, limit) else view
  }

  ghost function RunOps<K, V>(view: seq<Slot<V>>, keyOf: V -> K, ops: seq<Op<K, V>>, capacity: nat,
                              limit: nat): seq<Slot<V>>
  {
    if ops == [] then view
    else AfterOp(RunOps(view, keyOf, ops[..|ops| - 1], capacity, limit), keyOf, ops[|ops| - 1], capacity, limit)
  }

  /** How many operations of a run are about the key. */
  ghost function Hits<K, V>(ops: seq<Op<K, V>>, keyOf: V -> K, k: K): nat {
    if ops == [] then 0
    else Hits(ops[..|ops| - 1], keyOf, k) + if KeyOfOp(ops[|ops| - 1], keyOf) == k then 1 else 0
  }

  /** The values but those of one key, in their order. */
  ghost function Others<K, V>(view: seq<Slot<V>>, keyOf: V -> K, k: K): seq<V> {
    if view == [] then []
    else (if keyOf(view[0].value) == k then [] else [view[0].value]) + Others(view[1..], keyOf, k)
  }

  lemma {:induction false} OthersConcat<K, V>(a: seq<Slot<V>>, b: seq<Slot<V>>, keyOf: V -> K, k: K)
    ensures Others(a + b, keyOf, k) == Others(a, keyOf, k) + Others(b, keyOf, k)
  {
    if a == [] {
      assert a + b == b;
    } else {
      assert (a + b)[1..] == a[1..] + b;
      OthersConcat(a[1..], b, keyOf, k);
    }
  }

  lemma OthersOne<K, V>(slot: Slot<V>, keyOf: V -> K, k: K)
    ensures Others([slot], keyOf, k) == if keyOf(slot.value) == k then [] else [slot.value]
  {
    assert [slot][1..] == [];
  }

  lemma OthersParts<K, V>(a: seq<Slot<V>>, slot: Slot<V>, b: seq<Slot<V>>, keyOf: V -> K)
    ensures Others(a + [slot] + b, keyOf, keyOf(slot.value))
         == Others(a, keyOf, keyOf(slot.value)) + Others(b, keyOf, keyOf(slot.value))
  {
    hide Others;
    var k := keyOf(slot.value);
    OthersConcat(a + [slot], b, keyOf, k);
    OthersConcat(a, [slot], keyOf, k);
    OthersOne(slot, keyOf, k);
  }

  lemma OthersMoved<K, V>(a: seq<Slot<V>>, slot: Slot<V>, b: seq<Slot<V>>, keyOf: V -> K)
    ensures Others([slot] + a + b, keyOf, keyOf(slot.value))
         == Others(a, keyOf, keyOf(slot.value)) + Others(b, keyOf, keyOf(slot.value))
  {
    hide Others;
    OthersConcat([slot] + a, b, keyOf, keyOf(slot.value));
    OthersConcat([slot], a, keyOf, keyOf(slot.value));
    OthersOne(slot, keyOf, keyOf(slot.value));
  }

  /** Moving the item of a key, or counting for it, leaves the others in order. */
  lemma TouchedOthers<K, V>(view: seq<Slot<V>>, i: nat, limit: nat, keyOf: V -> K)
    requires i < |view|
    ensures var k := keyOf(view[i].value); Others(Touched(view, i, limit), keyOf, k) == Others(view, keyOf, k)
  {
    hide Others, Touched;
    var a, b := view[..i], view[i + 1..];
    TouchedAs(view, i, limit);
    OthersParts(a, view[i], b, keyOf);
    OthersMoved(a, Slot(view[i].value, 0), b, keyOf);
    OthersParts(a, Slot(view[i].value, view[i].promotions + 1), b, keyOf);
  }

  lemma TouchedAs<V>(view: seq<Slot<V>>, i: nat, limit: nat)
    requires i < |view|
    ensures view == view[..i] + [view[i]] + view[i + 1..]
    ensures Touched(view, i, limit)
         == if view[i].promotions >= limit then [Slot(view[i].value, 0)] + view[..i] + view[i + 1..]
            else view[..i] + [Slot(view[i].value, view[i].promotions + 1)] + view[i + 1..]
  {
  }

  lemma FindIs<K, V>(view: seq<Slot<V>>, keyOf: V -> K, i: nat)
    requires UniqueKeys(view, keyOf) && i < |view|
    ensures Find(view, keyOf, keyOf(view[i].value)) == Some(i)
  {
  }

  /** A hit by its effect: the item at the limit goes to the front with its counter
      at 0; any other only counts, and no item moves. The others keep their order. */
  lemma HitLaw<K, V>(view: seq<Slot<V>>, keyOf: V -> K, op: Op<K, V>, capacity: nat, limit: nat)
    requires UniqueKeys(view, keyOf) && Find(view, keyOf, KeyOfOp(op, keyOf)).Some?
    ensures var k := KeyOfOp(op, keyOf);
            var i, after := Find(view, keyOf, k).value, AfterOp(view, keyOf, op, capacity, limit);
            && UniqueKeys(after, keyOf) && Others(after, keyOf, k) == Others(view, keyOf, k)
            && (view[i].promotions >= limit ==> Find(after, keyOf, k) == Some(0) && after[0] == Slot(view[i].value, 0))
            && (view[i].promotions < limit ==>
                 Values(after) == Values(view) && after[i].promotions == view[i].promotions + 1)
  {
    var k := KeyOfOp(op, keyOf);
    var i, after := Find(view, keyOf, k).value, AfterOp(view, keyOf, op, capacity, limit);
    assert after == Touched(view, i, limit);
    TouchedOthers(view, i, limit, keyOf);
    TouchedUnique(view, i, limit, keyOf);
    if view[i].promotions >= limit {
      assert after[0] == Slot(view[i].value, 0);
      FindIs(after, keyOf, 0);
    }
  }

  lemma TouchedUnique<K, V>(view: seq<Slot<V>>, i: nat, limit: nat, keyOf: V -> K)
    requires i < |view| && UniqueKeys(view, keyOf)
    ensures UniqueKeys(Touched(view, i, limit), keyOf)
  {
    var after := Touched(view, i, limit);
    if view[i].promotions >= limit {
      forall a, b | 0 <= a < b < |after| ensures keyOf(after[a].value) != keyOf(after[b].value) {
        assert after[b] == view[if b <= i then b - 1 else b];
        assert a > 0 ==> after[a] == view[if a <= i then a - 1 else a];
      }
    }
  }

  /** A miss by its effect: the new item is in front, the others keep their order,
      and exactly the last one of a full list is gone. */
  lemma MissLaw<K, V>(view: seq<Slot<V>>, keyOf: V -> K, value: V, capacity: nat, limit: nat)
    requires UniqueKeys(view, keyOf) && Find(view, keyOf, keyOf(value)).None? && |view| <= capacity && capacity > 0
    ensures var after := AfterOp(view, keyOf, Store(value), capacity, limit);
            && UniqueKeys(after, keyOf) && |after| <= capacity
            && Find(after, keyOf, keyOf(value)) == Some(0) && after[0] == Slot(value, 0)
            && after[1..] == if |view| == capacity then view[..|view| - 1] else view
  {
    var after := AfterOp(view, keyOf, Store(value), capacity, limit);
    assert forall j :: 1 <= j < |after| ==> after[j] == view[j - 1];
    FindIs(after, keyOf, 0);
  }

  /** So an item in front of a full cache of at least two is not the one the next
      miss evicts. */
  lemma FrontSurvives<K, V>(view: seq<Slot<V>>, keyOf: V -> K, value: V, k: K, capacity: nat, limit: nat)
    requires UniqueKeys(view, keyOf) && Find(view, keyOf, keyOf(value)).None? && |view| == capacity >= 2
    requires Find(view, keyOf, k) == Some(0)
    ensures var after := AfterOp(view, keyOf, Store(value), capacity, limit);
            Find(after, keyOf, k) == Some(1) && Find(after, keyOf, keyOf(view[capacity - 1].value)).None?
            && keyOf(view[capacity - 1].value) != k
  {
    MissLaw(view, keyOf, value, capacity, limit);
    var after := AfterOp(view, keyOf, Store(value), capacity, limit);
    assert forall j :: 1 <= j < |after| ==> after[j] == after[1..][j - 1] == view[j - 1];
    FindIs(after, keyOf, 1);
  }

  /** A key that is listed all through a run. */
  ghost predicate Stays<K, V>(view: seq<Slot<V>>, keyOf: V -> K, ops: seq<Op<K, V>>, k: K, capacity: nat, limit: nat) {
    forall n :: 0 <= n <= |ops| ==> Find(RunOps(view, keyOf, ops[..n], capacity, limit), keyOf, k).Some?
  }

  ghost function CountOf<K, V>(view: seq<Slot<V>>, keyOf: V -> K, k: K): nat {
    var i := Find(view, keyOf, k);
    if i.Some? then view[i.value].promotions else 0
  }

  lemma CountAt<K, V>(view: seq<Slot<V>>, keyOf: V -> K, i: nat)
    requires UniqueKeys(view, keyOf) && i < |view|
    ensures CountOf(view, keyOf, keyOf(view[i].value)) == view[i].promotions
  {
    FindIs(view, keyOf, i);
  }

  lemma TouchedKeepsCount<K, V>(view: seq<Slot<V>>, keyOf: V -> K, f: nat, i: nat, limit: nat)
    requires UniqueKeys(view, keyOf) && f < |view| && i < |view| && i != f
    ensures UniqueKeys(Touched(view, f, limit), keyOf)
    ensures CountOf(Touched(view, f, limit), keyOf, keyOf(view[i].value)) == view[i].promotions
  {
    hide Find, UniqueKeys, CountOf;
    var after := Touched(view, f, limit);
    TouchedUnique(view, f, limit, keyOf);
    var j := if view[f].promotions >= limit && i < f then i + 1 else i;
    assert after[j] == view[i];
    CountAt(after, keyOf, j);
  }

  /** An operation on another key leaves the counter of a key alone. */
  lemma OtherKeepsCount<K, V>(view: seq<Slot<V>>, keyOf: V -> K, op: Op<K, V>, k: K, capacity: nat, limit: nat)
    requires UniqueKeys(view, keyOf) && |view| <= capacity && capacity > 0 && KeyOfOp(op, keyOf) != k
    requires Find(view, keyOf, k).Some? && Find(AfterOp(view, keyOf, op, capacity, limit), keyOf, k).Some?
    ensures var after := AfterOp(view, keyOf, op, capacity, limit);
            UniqueKeys(after, keyOf) && |after| <= capacity && CountOf(after, keyOf, k) == CountOf(view, keyOf, k)
  {
    hide Find, UniqueKeys;
    var after := AfterOp(view, keyOf, op, capacity, limit);
    var i, f := Find(view, keyOf, k).value, Find(view, keyOf, KeyOfOp(op, keyOf));
    if f.Some? {
      TouchedKeepsCount(view, keyOf, f.value, i, limit);
    } else if op.Store? {
      MissLaw(view, keyOf, op.value, capacity, limit);
      var j := Find(after, keyOf, k).value;
      assert after[1..][j - 1] == after[j] == view[j - 1];
      CountAt(view, keyOf, j - 1);
    }
  }

  /** The law of promotion, over every run of gets and puts in which a key stays
      listed: its counter is the number of operations on it modulo one more than
      the limit. So of any limit + 1 of them exactly one moves its item, and that
      one puts it in front. */
  lemma {:induction false} PromotionLaw<K, V>(view: seq<Slot<V>>, keyOf: V -> K, ops: seq<Op<K, V>>, k: K,
                                              capacity: nat, limit: nat)
    requires UniqueKeys(view, keyOf) && |view| <= capacity && capacity > 0
    requires Stays(view, keyOf, ops, k, capacity, limit) && CountOf(view, keyOf, k) <= limit
    ensures var after := RunOps(view, keyOf, ops, capacity, limit);
            var total := CountOf(view, keyOf, k) + Hits(ops, keyOf, k);
            && UniqueKeys(after, keyOf) && |after| <= capacity
            && CountOf(after, keyOf, k) == total % (limit + 1)
            && (ops != [] && KeyOfOp(ops[|ops| - 1], keyOf) == k ==>
                 var before := RunOps(view, keyOf, ops[..|ops| - 1], capacity, limit);
                 && Others(after, keyOf, k) == Others(before, keyOf, k)
                 && (total % (limit + 1) == 0 ==> Find(after, keyOf, k) == Some(0))
                 && (total % (limit + 1) != 0 ==> Values(after) == Values(before)))
    decreases |ops|
  {
    hide AfterOp, Find, UniqueKeys, Others, Values;
    assert ops[..|ops|] == ops;
    if ops == [] {
      assert Find(RunOps(view, keyOf, ops, capacity, limit), keyOf, k).Some?;
    } else {
      var front, op := ops[..|ops| - 1], ops[|ops| - 1];
      forall n | 0 <= n <= |front| ensures Find(RunOps(view, keyOf, front[..n], capacity, limit), keyOf, k).Some? {
        assert front[..n] == ops[..n];
      }
      PromotionLaw(view, keyOf, front, k, capacity, limit);
      LastOp(RunOps(view, keyOf, front, capacity, limit), keyOf, op, k, capacity, limit,
             CountOf(view, keyOf, k) + Hits(front, keyOf, k));
    }
  }

  lemma LastOp<K, V>(before: seq<Slot<V>>, keyOf: V -> K, op: Op<K, V>, k: K, capacity: nat, limit: nat, total: nat)
    requires UniqueKeys(before, keyOf) && |before| <= capacity && capacity > 0
    requires Find(before, keyOf, k).Some? && Find(AfterOp(before, keyOf, op, capacity, limit), keyOf, k).Some?
    requires CountOf(before, keyOf, k) == total % (limit + 1)
    ensures var after := AfterOp(before, keyOf, op, capacity, limit);
            var total' := total + if KeyOfOp(op, keyOf) == k then 1 else 0;
            && UniqueKeys(after, keyOf) && |after| <= capacity && CountOf(after, keyOf, k) == total' % (limit + 1)
            && (KeyOfOp(op, keyOf) == k ==>
                 && Others(after, keyOf, k) == Others(before, keyOf, k)
                 && (total' % (limit + 1) == 0 ==> Find(after, keyOf, k) == Some(0))
                 && (total' % (limit + 1) != 0 ==> Values(after) == Values(before)))
  {
    var after := AfterOp(before, keyOf, op, capacity, limit);
    if KeyOfOp(op, keyOf) == k {
      HitLaw(before, keyOf, op, capacity, limit);
      NextRemainder(total, limit + 1);
      var i := Find(before, keyOf, k).value;
      if before[i].promotions < limit {
        assert keyOf(after[i].value) == keyOf(Values(after)[i]) == k;
        FindIs(after, keyOf, i);
      }
    } else {
      OtherKeepsCount(before, keyOf, op, k, capacity, limit);
    }
  }

  /** The table leads from every key to the one node that holds it, and to no other. */
  ghost predicate Indexed<K, V>(table: map<K, Node<V>>, ring: seq<Node<V>>, dummy: Node<V>, keyOf: V -> K)
    reads (set n | n in ring)`value
  {
    && (forall n :: n in ring && n != dummy ==> keyOf(n.value) in table && table[keyOf(n.value)] == n)
    && (forall k :: k in table ==> table[k] in ring && table[k] != dummy && keyOf(table[k].value) == k)
  }

  class ConcurrentLRUCache<K(==), V> {
    const capacity: nat
    const shouldPromoteNum: nat
    const keyOf: V -> K
    var table: map<K, Node<V>>
    const list: List<V>

    /** The table is a bijection between the keys and the nodes of the ring, and
        the ring is never longer than the capacity. */
    ghost predicate Valid()
      reads this, list, list.ring
    {
      list.Valid() && capacity >= 1 && list.size <= capacity && Indexed(table, list.ring, list.dummy, keyOf)
    }

    ghost function Items(): seq<Slot<V>>
      requires list.ring != []
      reads this, list, list.ring
    {
      View(list.ring)
    }

    constructor (capacity: nat, shouldPromoteNum: nat, keyOf: V -> K, blank: V)
      requires capacity >= 1
      ensures Valid() && Items() == [] && this.capacity == capacity && this.shouldPromoteNum == shouldPromoteNum
      ensures this.keyOf == keyOf
    {
      this.capacity, this.shouldPromoteNum, this.keyOf := capacity, shouldPromoteNum, keyOf;
      table := map[];
      list := new List<V>(blank);
    }

    /** No key is listed twice. */
    lemma ItemsUnique()
      requires Valid()
      ensures UniqueKeys(Items(), keyOf)
    {
      forall i, j | 0 <= i < j < |Items()| ensures keyOf(Items()[i].value) != keyOf(Items()[j].value) {
        assert list.ring[i + 1] != list.ring[j + 1] && list.ring[i + 1] != list.dummy && list.ring[j + 1] != list.dummy;
      }
    }

    /** Promote of the node at place i of the ring. */
    method Promote(node: Node<V>, ghost i: nat)
      requires Valid() && 1 <= i < |list.ring| && list.ring[i] == node
      modifies list`ring, list.ring
      ensures Valid() && Items() == Touched(old(Items()), i - 1, shouldPromoteNum)
      ensures node.value == old(node.value)
      ensures forall n :: n in list.ring <==> n in old(list.ring)
    {
      hide Ring, Following, Preceding;
      ghost var view := Items();
      var count := node.promotions;
      CountHit(node, i);
      if count >= shouldPromoteNum {
        ghost var counted := Items();
        assert counted[..i - 1] == view[..i - 1] && counted[i..] == view[i..];
        PromoteNoLock(node, i);
      }
    }

    /** fetch_add on the counter of a node. */
    method CountHit(node: Node<V>, ghost i: nat)
      requires Valid() && 1 <= i < |list.ring| && list.ring[i] == node
      modifies node`promotions
      ensures Valid() && list.ring == old(list.ring)
      ensures Items() == old(Items())[i - 1 := Slot(node.value, old(node.promotions) + 1)]
    {
      hide Ring, Following, Preceding;
      RingDistinct(list.ring);
      ghost var view := Items();
      node.promotions := node.promotions + 1;
      assert forall j :: 0 <= j < |view| ==>
               Items()[j] == if j == i - 1 then Slot(node.value, node.promotions) else view[j];
    }

    /** A key is in the table exactly when it is listed, and the table leads to its node. */
    lemma FoundIs(k: K)
      requires Valid()
      ensures k in table <==> Find(Items(), keyOf, k).Some?
      ensures k in table ==> table[k] == list.ring[Find(Items(), keyOf, k).value + 1]
    {
      hide Ring;
      RingDistinct(list.ring);
      var f := Find(Items(), keyOf, k);
      if f.Some? {
        assert list.ring[f.value + 1] in list.ring && list.ring[f.value + 1] != list.dummy;
      }
      if k in table {
        var i :| 0 <= i < |list.ring| && list.ring[i] == table[k];
        assert keyOf(Items()[i - 1].value) == k;
      }
    }

    /** A hit on a key. */
    method Hit(k: K)
      requires Valid() && k in table
      modifies list`ring, list.ring
      ensures Find(old(Items()), keyOf, k).Some?
      ensures Valid() && Items() == Touched(old(Items()), Find(old(Items()), keyOf, k).value, shouldPromoteNum)
      ensures table[k].value == old(table[k].value)
    {
      hide Ring, Find, Indexed;
      FoundIs(k);
      ghost var f := Find(Items(), keyOf, k);
      Promote(table[k], f.value + 1);
    }

    /** Evict the tail of a full list. */
    method EvictIfFull() returns (evicted: Option<V>)
      requires Valid()
      modifies this`table, list, list.ring
      ensures Valid() && list.size < capacity
      ensures |old(Items())| == capacity ==>
                && Items() == old(Items())[..capacity - 1]
                && evicted == Some(old(Items())[capacity - 1].value)
      ensures |old(Items())| < capacity ==> Items() == old(Items()) && table == old(table) && evicted.None?
      ensures table.Keys <= old(table.Keys) && list.ring <= old(list.ring)
    {
      hide Ring, Following, Preceding, Indexed;
      evicted := None;
      if list.size == capacity {
        RingDistinct(list.ring);
        ghost var before, view := list.ring, Items();
        IndexedWithout(table, before, list.dummy, keyOf);
        var node := list.PopBack();
        evicted := Some(node.value);
        table := table - {keyOf(node.value)};
        assert View(before) == view;
        ViewPrefix(before, |before| - 1);
      }
    }

    /** The miss section of the puts: evict the tail if full, then enter at the front. */
    method Enter(value: V) returns (evicted: Option<V>)
      requires Valid() && keyOf(value) !in table
      modifies this`table, list, list.ring
      ensures Valid() && Items() == Entered(old(Items()), value, capacity)
      ensures evicted == if |old(Items())| == capacity then Some(old(Items())[capacity - 1].value) else None
    {
      hide Ring, Following, Preceding, Indexed;
      evicted := EvictIfFull();
      ghost var ring, view := list.ring, Items();
      var node := list.PushFront(value);
      assert View(ring) == view;
      ViewFront(ring, node, list.ring);
      IndexedWith(table, ring, node, list.ring, list.dummy, keyOf);
      table := table[keyOf(value) := node];
    }

    method Put(value: V)
      requires Valid()
      modifies this`table, list, list.ring
      ensures Valid() && Items() == AfterPut(old(Items()), keyOf, value, capacity, shouldPromoteNum)
    {
      hide Ring, Find, Indexed;
      FoundIs(keyOf(value));
      if keyOf(value) in table {
        Hit(keyOf(value));
      } else {
        var _ := Enter(value);
      }
    }

    /** PutWithDisuse hands the evicted value back: nothing leaves unnoticed. */
    method PutWithDisuse(value: V) returns (evicted: Option<V>)
      requires Valid()
      modifies this`table, list, list.ring
      ensures Valid() && Items() == AfterPut(old(Items()), keyOf, value, capacity, shouldPromoteNum)
      ensures evicted == if Find(old(Items()), keyOf, keyOf(value)).None? && |old(Items())| == capacity
                         then Some(old(Items())[capacity - 1].value) else None
    {
      hide Ring, Find, Indexed;
      FoundIs(keyOf(value));
      evicted := None;
      if keyOf(value) in table {
        Hit(keyOf(value));
      } else {
        evicted := Enter(value);
      }
    }

    /** PutWithCompair: a full cache admits the value only if it beats the tail. */
    method PutWithCompair(value: V, beats: (V, V) -> bool)
      requires Valid()
      modifies this`table, list, list.ring
      ensures Valid()
      ensures Items() == if Find(old(Items()), keyOf, keyOf(value)).None? && |old(Items())| == capacity
                              && !beats(old(Items())[capacity - 1].value, value)
                         then old(Items())
                         else AfterPut(old(Items()), keyOf, value, capacity, shouldPromoteNum)
    {
      hide Ring, Find, Indexed;
      FoundIs(keyOf(value));
      if keyOf(value) in table {
        Hit(keyOf(value));
      } else {
        if list.size == capacity {
          LastIsTail();
          if !beats(list.dummy.pre.value, value) {
            return;
          }
        }
        var _ := Enter(value);
      }
    }

    lemma LastIsTail()
      requires Valid() && list.size > 0
      ensures list.dummy.pre == list.ring[|list.ring| - 1]
      ensures list.dummy.pre.value == Items()[|Items()| - 1].value
    {
      assert list.ring[0].pre == Preceding(list.ring, 0);
    }

    method Get(k: K) returns (r: Option<V>)
      requires Valid()
      modifies list`ring, list.ring
      ensures Valid()
      ensures var f := Find(old(Items()), keyOf, k);
              if f.Some? then r == Some(old(Items())[f.value].value)
                 && Items() == Touched(old(Items()), f.value, shouldPromoteNum)
              else r.None? && Items() == old(Items())
    {
      hide Ring, Find, Indexed;
      FoundIs(k);
      if k in table {
        r := Some(table[k].value);
        Hit(k);
      } else {
        r := None;
      }
    }

    method PromoteNoLock(node: Node<V>, ghost i: nat)
      requires list.Valid() && 1 <= i < |list.ring| && list.ring[i] == node
      modifies list`ring, list.ring
      ensures list.Valid()
      ensures Items() == [Slot(node.value, 0)] + old(Items())[..i - 1] + old(Items())[i..]
      ensures forall n :: n in list.ring <==> n in old(list.ring)
      ensures forall n :: n in old(list.ring) ==> n.value == old(n.value)
    {
      hide Ring, Following, Preceding;
      ghost var before, view := list.ring, Items();
      RingDistinct(before);
      list.Extract(node, i);
      OutDistinct(before, i, list.ring);
      list.InsertFront(node);
      node.promotions := 0;
      MovedToFront(before, i, list.ring);
      assert View(before) == view[i - 1 := Slot(node.value, 0)];
      ViewMoved(before, i, list.ring);
    }
  }

  lemma ViewMoved<V>(ring: seq<Node<V>>, i: nat, ring': seq<Node<V>>)
    requires 1 <= i < |ring| && |ring'| == |ring| && ring'[1] == ring[i]
    requires forall j :: 2 <= j < |ring'| ==> ring'[j] == ring[if j <= i then j - 1 else j]
    ensures var view := View(ring); View(ring') == [view[i - 1]] + view[..i - 1] + view[i..]
  {
    var view := View(ring);
    forall j | 0 <= j < |view| ensures View(ring')[j] == ([view[i - 1]] + view[..i - 1] + view[i..])[j] {
      assert j > 0 ==> ring'[j + 1] == ring[if j < i then j else j + 1];
    }
  }

  lemma ViewFront<V>(ring: seq<Node<V>>, node: Node<V>, ring': seq<Node<V>>)
    requires ring != [] && ring' == [ring[0], node] + ring[1..]
    ensures View(ring') == [Slot(node.value, node.promotions)] + View(ring)
  {
    assert forall i :: 2 <= i < |ring'| ==> ring'[i] == ring[i - 1];
  }

  lemma ViewPrefix<V>(ring: seq<Node<V>>, n: nat)
    requires 1 <= n <= |ring|
    ensures View(ring[..n]) == View(ring)[..n - 1]
  {
  }

  lemma IndexedWithout<K, V>(table: map<K, Node<V>>, ring: seq<Node<V>>, dummy: Node<V>, keyOf: V -> K)
    requires Indexed(table, ring, dummy, keyOf) && Distinct(ring) && |ring| > 1 && ring[0] == dummy
    ensures Indexed(table - {keyOf(ring[|ring| - 1].value)}, ring[..|ring| - 1], dummy, keyOf)
  {
    var last := ring[|ring| - 1];
    var kept := ring[..|ring| - 1];
    assert ring == kept + [last];
    forall n | n in kept ensures n in ring && n != last {
      var i :| 0 <= i < |kept| && kept[i] == n;
      assert ring[i] == n;
    }
    assert last in ring && last != dummy;
  }

  lemma IndexedWith<K, V>(table: map<K, Node<V>>, ring: seq<Node<V>>, node: Node<V>, ring': seq<Node<V>>,
                          dummy: Node<V>, keyOf: V -> K)
    requires Indexed(table, ring, dummy, keyOf) && ring != [] && ring[0] == dummy && node !in ring
    requires ring' == [dummy, node] + ring[1..] && keyOf(node.value) !in table
    ensures Indexed(table[keyOf(node.value) := node], ring', dummy, keyOf)
  {
    FrontMembers(ring, node, ring');
  }

  lemma FrontMembers<V>(ring: seq<Node<V>>, node: Node<V>, ring': seq<Node<V>>)
    requires ring != [] && ring' == [ring[0], node] + ring[1..]
    ensures forall n :: n in ring' <==> n in ring || n == node
  {
    assert ring == [ring[0]] + ring[1..];
  }

  lemma RingDistinct<V>(ring: seq<Node<V>>)
    requires Ring(ring)
    ensures Distinct(ring)
  {
  }

  lemma MovedToFront<V>(ring: seq<Node<V>>, i: nat, ring': seq<Node<V>>)
    requires 1 <= i < |ring| && ring' == [ring[0], ring[i]] + (ring[..i] + ring[i + 1..])[1..]
    ensures |ring'| == |ring| && ring'[1] == ring[i]
    ensures forall j :: 2 <= j < |ring'| ==> ring'[j] == ring[if j <= i then j - 1 else j]
    ensures forall n :: n in ring' <==> n in ring
  {
    assert (ring[..i] + ring[i + 1..])[1..] == ring[1..i] + ring[i + 1..];
    assert ring == [ring[0]] + ring[1..i] + [ring[i]] + ring[i + 1..];
  }
}
