/** The memtable's skip list: towers of forward pointers relinked in place. */
module SkipList {
  import opened ByteOrder
  import opened Runs

  class Node {
    const key: Bytes
    var value: Bytes
    /** nexts[l] is the successor on level l. */
    var nexts: seq<Node?>

    constructor (key: Bytes, value: Bytes, height: nat)
      ensures this.key == key && this.value == value && nexts == seq(height, _ => null)
    {
      this.key, this.value, this.nexts := key, value, seq(height, _ => null);
    }
  }

  // ---- heights: which tower a pointer must lead to ----

  /** The next tower after p that reaches level l, or the number of towers. */
  ghost function Next(h: seq<nat>, p: nat, l: nat): (q: nat)
    requires p < |h|
    ensures p < q <= |h|
    ensures forall m :: p < m < q ==> h[m] <= l
    ensures q < |h| ==> l < h[q]
    decreases |h| - p
  {
    if p + 1 == |h| || l < h[p + 1] then p + 1 else Next(h, p + 1, l)
  }

  lemma {:induction false} NextIs(h: seq<nat>, p: nat, l: nat, q: nat)
    requires p < q <= |h|
    requires forall m :: p < m < q ==> h[m] <= l
    requires q < |h| ==> l < h[q]
    ensures Next(h, p, l) == q
    decreases q - p
  {
    if p + 1 < q {
      NextIs(h, p + 1, l, q);
    }
  }

  /** r is s with x put in at a place. */
  ghost predicate PutIn<T>(s: seq<T>, at: nat, x: T, r: seq<T>) {
    && at <= |s| && |r| == |s| + 1 && r[at] == x
    && (forall i {:trigger r[i]} :: 0 <= i < at ==> r[i] == s[i])
    && (forall i {:trigger r[i]} :: at < i < |r| ==> r[i] == s[i - 1])
  }

  /** r is s with the element at a place taken out. */
  ghost predicate TakenOut<T>(s: seq<T>, at: nat, r: seq<T>) {
    && at < |s| && |r| == |s| - 1
    && (forall i {:trigger r[i]} :: 0 <= i < at ==> r[i] == s[i])
    && (forall i {:trigger r[i]} :: at <= i < |r| ==> r[i] == s[i + 1])
  }

  /** A new tower of height n at a place. */
  lemma NextAfterInsert(h: seq<nat>, at: nat, n: nat, h': seq<nat>, p: nat, l: nat)
    requires 1 <= at && PutIn(h, at, n, h') && p < |h|
    ensures p >= at ==> Next(h', p + 1, l) == Next(h, p, l) + 1
    ensures p < at && Next(h, p, l) < at ==> Next(h', p, l) == Next(h, p, l)
    ensures p < at <= Next(h, p, l) ==> Next(h', p, l) == if l < n then at else Next(h, p, l) + 1
    ensures p < at <= Next(h, p, l) ==> Next(h', at, l) == Next(h, p, l) + 1
  {
    hide Next;
    var q := Next(h, p, l);
    if p >= at {
      NextIs(h', p + 1, l, q + 1);
    } else if q < at {
      NextIs(h', p, l, q);
    } else {
      NextIs(h', p, l, if l < n then at else q + 1);
      NextIs(h', at, l, q + 1);
    }
  }

  /** The tower at a place taken out. */
  lemma NextAfterRemove(h: seq<nat>, at: nat, h': seq<nat>, p: nat, l: nat)
    requires 1 <= at && TakenOut(h, at, h') && p < |h'|
    ensures p >= at ==> Next(h', p, l) == Next(h, p + 1, l) - 1
    ensures p < at && Next(h, p, l) < at ==> Next(h', p, l) == Next(h, p, l)
    ensures p < at && Next(h, p, l) == at ==> Next(h', p, l) == Next(h, at, l) - 1
    ensures p < at < Next(h, p, l) ==> Next(h', p, l) == Next(h, p, l) - 1
  {
    hide Next;
    if p >= at {
      NextIs(h', p, l, Next(h, p + 1, l) - 1);
    } else {
      var q := Next(h, p, l);
      NextIs(h', p, l, if q < at then q else if q == at then Next(h, at, l) - 1 else q - 1);
    }
  }

  /** The height of the first tower does not matter to anyone's next. */
  lemma NextIgnoresHead(h: seq<nat>, n: nat, p: nat, l: nat)
    requires p < |h|
    ensures Next(h[0 := n], p, l) == Next(h, p, l)
  {
    NextIs(h[0 := n], p, l, Next(h, p, l));
  }

  // ---- towers of pointers, without a heap ----

  /** The pointers of all towers, head first, in key order. */
  type Towers = seq<seq<Node?>>

  ghost function Heights(t: Towers): (h: seq<nat>)
    ensures |h| == |t| && forall p :: 0 <= p < |t| ==> h[p] == |t[p]|
  {
    seq(|t|, p requires 0 <= p < |t| => |t[p]|)
  }

  /** The heights with a new one at a place; the head is raised to it if need be. */
  ghost function Raised(h: seq<nat>, at: nat, n: nat): seq<nat> {
    if h == [] || at > |h| then h
    else
      var grown := h[0 := if n > h[0] then n else h[0]];
      grown[..at] + [n] + grown[at..]
  }

  ghost function At(nodes: seq<Node>, q: nat): Node? {
    if q < |nodes| then nodes[q] else null
  }

  /** Every pointer leads to the next tower that reaches its level: each level is
      a sorted subsequence of the level below it. */
  ghost predicate Linked(nodes: seq<Node>, t: Towers) {
    && |t| == |nodes|
    && forall p, l :: 0 <= p < |t| && 0 <= l < |t[p]| ==> t[p][l] == At(nodes, Next(Heights(t), p, l))
  }

  /** The head is at least as tall as every tower, and every tower stands on level 0. */
  ghost predicate Shaped(h: seq<nat>) {
    && h != []
    && forall p :: 0 <= p < |h| ==> 1 <= h[p] <= h[0]
  }

  ghost predicate Distinct(nodes: seq<Node>) {
    forall i, j :: 0 <= i < j < |nodes| ==> nodes[i] != nodes[j]
  }

  /** prev[l] is the last tower before a place that reaches level l. */
  ghost predicate Predecessors(h: seq<nat>, at: nat, prev: seq<nat>)
    requires h != []
  {
    && at <= |h| && |prev| == h[0]
    && forall l :: 0 <= l < |prev| ==> prev[l] < at && l < h[prev[l]] && at <= Next(h, prev[l], l)
  }

  lemma OnlyPredecessor(h: seq<nat>, at: nat, prev: seq<nat>, p: nat, l: nat)
    requires h != [] && Predecessors(h, at, prev)
    requires p < at && l < |prev| && l < h[p] && at <= Next(h, p, l)
    ensures p == prev[l]
  {
    assert l < h[prev[l]];
  }

  /** The towers after a new one is put at a place: the predecessors' pointers on
      its levels are turned to it, and it takes over what they pointed to. */
  ghost predicate Inserted(nodes: seq<Node>, t: Towers, at: nat, prev: seq<nat>, node: Node, tower: seq<Node?>,
                           t': Towers)
    requires |t| == |nodes|
  {
    && PutIn(Heights(t), at, |tower|, Heights(t')) && |tower| <= |prev|
    && |t'| == |t| + 1 && t'[at] == tower
    && (forall l :: 0 <= l < |tower| ==> prev[l] < |t| && tower[l] == At(nodes, Next(Heights(t), prev[l], l)))
    && (forall p, l :: 0 <= p < at && 0 <= l < |t[p]| && l < |t'[p]| ==>
          t'[p][l] == if l < |tower| && p == prev[l] then node else t[p][l])
    && (forall p {:trigger t'[p]} :: at < p < |t'| ==> t'[p] == t[p - 1])
  }

  lemma InsertedLinked(nodes: seq<Node>, t: Towers, at: nat, prev: seq<nat>, node: Node, tower: seq<Node?>,
                       nodes': seq<Node>, t': Towers)
    requires Linked(nodes, t) && Shaped(Heights(t)) && 1 <= at && Predecessors(Heights(t), at, prev) && 1 <= |tower|
    requires Inserted(nodes, t, at, prev, node, tower, t') && PutIn(nodes, at, node, nodes')
    ensures Linked(nodes', t') && Shaped(Heights(t'))
  {
    hide Next, Inserted, Predecessors;
    InsertedShaped(nodes, t, at, prev, node, tower, nodes', t');
    forall p, l | 0 <= p < |t'| && 0 <= l < |t'[p]| ensures t'[p][l] == At(nodes', Next(Heights(t'), p, l)) {
      InsertedAt(nodes, t, at, prev, node, tower, nodes', t', p, l);
    }
  }

  lemma InsertedShaped(nodes: seq<Node>, t: Towers, at: nat, prev: seq<nat>, node: Node, tower: seq<Node?>,
                       nodes': seq<Node>, t': Towers)
    requires |t| == |nodes| && Shaped(Heights(t)) && 1 <= at && Predecessors(Heights(t), at, prev) && 1 <= |tower|
    requires Inserted(nodes, t, at, prev, node, tower, t') && PutIn(nodes, at, node, nodes')
    ensures Shaped(Heights(t')) && |t'| == |nodes'|
  {
    hide Next;
    var h, h' := Heights(t), Heights(t');
    assert h'[0] == h[0] && h'[at] == |tower|;
  }

  lemma InsertedAt(nodes: seq<Node>, t: Towers, at: nat, prev: seq<nat>, node: Node, tower: seq<Node?>,
                   nodes': seq<Node>, t': Towers, p: nat, l: nat)
    requires |t| == |nodes| && Linked(nodes, t) && Shaped(Heights(t)) && 1 <= at && Predecessors(Heights(t), at, prev)
    requires Inserted(nodes, t, at, prev, node, tower, t') && PutIn(nodes, at, node, nodes') && p < |t'| && l < |t'[p]|
    ensures t'[p][l] == At(nodes', Next(Heights(t'), p, l))
  {
    hide Next, Linked, Shaped, Inserted, Predecessors;
    if p == at {
      InsertedTower(nodes, t, at, prev, node, tower, nodes', t', l);
    } else if p < at {
      InsertedBefore(nodes, t, at, prev, node, tower, nodes', t', p, l);
    } else {
      InsertedBehind(nodes, t, at, prev, node, tower, nodes', t', p, l);
    }
  }

  lemma InsertedTower(nodes: seq<Node>, t: Towers, at: nat, prev: seq<nat>, node: Node, tower: seq<Node?>,
                      nodes': seq<Node>, t': Towers, l: nat)
    requires |t| == |nodes| && t != [] && 1 <= at && Predecessors(Heights(t), at, prev)
    requires Inserted(nodes, t, at, prev, node, tower, t') && PutIn(nodes, at, node, nodes') && l < |t'[at]|
    ensures t'[at][l] == At(nodes', Next(Heights(t'), at, l))
  {
    hide Next;
    InsertedOwn(nodes, Heights(t), at, |tower|, prev[l], node, nodes', Heights(t'), l);
  }

  lemma InsertedOwn(nodes: seq<Node>, h: seq<nat>, at: nat, n: nat, prev: nat, node: Node, nodes': seq<Node>,
                    h': seq<nat>, l: nat)
    requires |h| == |nodes| && 1 <= at && prev < at <= |h| && at <= Next(h, prev, l)
    requires PutIn(h, at, n, h') && PutIn(nodes, at, node, nodes')
    ensures At(nodes, Next(h, prev, l)) == At(nodes', Next(h', at, l))
  {
    hide Next;
    NextAfterInsert(h, at, n, h', prev, l);
  }

  lemma InsertedBefore(nodes: seq<Node>, t: Towers, at: nat, prev: seq<nat>, node: Node, tower: seq<Node?>,
                       nodes': seq<Node>, t': Towers, p: nat, l: nat)
    requires Linked(nodes, t) && t != [] && Shaped(Heights(t)) && 1 <= at && Predecessors(Heights(t), at, prev)
    requires Inserted(nodes, t, at, prev, node, tower, t') && PutIn(nodes, at, node, nodes') && p < at && l < |t'[p]|
    ensures t'[p][l] == At(nodes', Next(Heights(t'), p, l))
  {
    hide Next;
    var h := Heights(t);
    assert Heights(t')[p] == h[p];
    NextAfterInsert(h, at, |tower|, Heights(t'), p, l);
    assert t[p][l] == At(nodes, Next(h, p, l));
    if at <= Next(h, p, l) {
      OnlyPredecessor(h, at, prev, p, l);
    } else {
      assert at <= Next(h, prev[l], l);
    }
  }

  lemma InsertedBehind(nodes: seq<Node>, t: Towers, at: nat, prev: seq<nat>, node: Node, tower: seq<Node?>,
                       nodes': seq<Node>, t': Towers, p: nat, l: nat)
    requires Linked(nodes, t) && 1 <= at
    requires Inserted(nodes, t, at, prev, node, tower, t') && PutIn(nodes, at, node, nodes') && at < p < |t'|
    requires l < |t'[p]|
    ensures t'[p][l] == At(nodes', Next(Heights(t'), p, l))
  {
    hide Next;
    NextAfterInsert(Heights(t), at, |tower|, Heights(t'), p - 1, l);
    assert t[p - 1][l] == At(nodes, Next(Heights(t), p - 1, l));
  }

  // ---- growing and shrinking the head ----

  lemma GrownLinked(nodes: seq<Node>, t: Towers, height: nat, t': Towers)
    requires Linked(nodes, t) && Shaped(Heights(t)) && |t[0]| <= height
    requires t' == t[0 := t[0] + seq(height - |t[0]|, _ => null)]
    ensures Linked(nodes, t') && Shaped(Heights(t')) && Heights(t') == Heights(t)[0 := height]
  {
    var h := Heights(t);
    assert Heights(t') == h[0 := height];
    forall p, l | 0 <= p < |t'| && 0 <= l < |t'[p]| ensures t'[p][l] == At(nodes, Next(h[0 := height], p, l)) {
      NextIgnoresHead(h, height, p, l);
      if p == 0 && |t[0]| <= l {
        NextIs(h, 0, l, |h|);
      }
    }
  }

  lemma GrownPredecessors(h: seq<nat>, at: nat, idx: seq<nat>, height: nat)
    requires Shaped(h) && 1 <= at && Predecessors(h, at, idx) && h[0] <= height
    ensures Predecessors(h[0 := height], at, idx + seq(height - h[0], _ => 0))
  {
    hide Next;
    var idx' := idx + seq(height - h[0], _ => 0);
    forall l | 0 <= l < height
      ensures idx'[l] < at && l < h[0 := height][idx'[l]] && at <= Next(h[0 := height], idx'[l], l) {
      NextIgnoresHead(h, height, idx'[l], l);
      if l >= |idx| { NextIs(h, 0, l, |h|); }
    }
  }

  lemma ShrunkLinked(nodes: seq<Node>, t: Towers, height: nat, t': Towers)
    requires Linked(nodes, t) && Shaped(Heights(t)) && 1 <= height <= |t[0]|
    requires forall l :: height <= l < |t[0]| ==> t[0][l] == null
    requires t' == t[0 := t[0][..height]]
    ensures Linked(nodes, t') && Shaped(Heights(t'))
  {
    var h := Heights(t);
    assert Heights(t') == h[0 := height];
    forall p, l | 0 <= p < |t'| && 0 <= l < |t'[p]| ensures t'[p][l] == At(nodes, Next(h[0 := height], p, l)) {
      NextIgnoresHead(h, height, p, l);
    }
    if height < |t[0]| {
      assert t[0][height] == At(nodes, Next(h, 0, height));
      assert forall m :: 0 < m < |h| ==> h[m] <= height;
    }
  }

  // ---- removal ----

  /** The towers after the one at a place is taken out: its predecessors take
      over its pointers. */
  ghost predicate Removed(t: Towers, at: nat, prev: seq<nat>, t': Towers)
    requires at < |t|
  {
    && TakenOut(Heights(t), at, Heights(t')) && |t[at]| <= |prev|
    && |t'| == |t| - 1
    && (forall p, l :: 0 <= p < at && 0 <= l < |t[p]| && l < |t'[p]| ==>
          t'[p][l] == if l < |t[at]| && p == prev[l] then t[at][l] else t[p][l])
    && (forall p {:trigger t'[p]} :: at <= p < |t'| ==> t'[p] == t[p + 1])
  }

  lemma RemovedLinked(nodes: seq<Node>, t: Towers, at: nat, prev: seq<nat>, nodes': seq<Node>, t': Towers)
    requires Linked(nodes, t) && Shaped(Heights(t)) && 1 <= at < |t| && Predecessors(Heights(t), at, prev)
    requires Removed(t, at, prev, t') && TakenOut(nodes, at, nodes')
    ensures Linked(nodes', t') && Shaped(Heights(t'))
  {
    hide Next;
    forall p, l | 0 <= p < |t'| && 0 <= l < |t'[p]| ensures t'[p][l] == At(nodes', Next(Heights(t'), p, l)) {
      if p >= at {
        RemovedBehind(nodes, t, at, prev, nodes', t', p, l);
      } else if at == Next(Heights(t), p, l) {
        RemovedAtPredecessor(nodes, t, at, prev, nodes', t', p, l);
      } else {
        RemovedElsewhere(nodes, t, at, prev, nodes', t', p, l);
      }
    }
  }

  lemma RemovedBehind(nodes: seq<Node>, t: Towers, at: nat, prev: seq<nat>, nodes': seq<Node>, t': Towers, p: nat,
                      l: nat)
    requires Linked(nodes, t) && 1 <= at < |t|
    requires Removed(t, at, prev, t') && TakenOut(nodes, at, nodes') && at <= p < |t'| && l < |t'[p]|
    ensures t'[p][l] == At(nodes', Next(Heights(t'), p, l))
  {
    hide Next;
    NextAfterRemove(Heights(t), at, Heights(t'), p, l);
    assert t[p + 1][l] == At(nodes, Next(Heights(t), p + 1, l));
  }

  lemma RemovedAtPredecessor(nodes: seq<Node>, t: Towers, at: nat, prev: seq<nat>, nodes': seq<Node>, t': Towers,
                             p: nat, l: nat)
    requires Linked(nodes, t) && Shaped(Heights(t)) && 1 <= at < |t| && Predecessors(Heights(t), at, prev)
    requires Removed(t, at, prev, t') && TakenOut(nodes, at, nodes') && p < at && l < |t'[p]|
    requires Next(Heights(t), p, l) == at
    ensures t'[p][l] == At(nodes', Next(Heights(t'), p, l))
  {
    hide Next;
    var h := Heights(t);
    assert Heights(t')[p] == h[p];
    NextAfterRemove(h, at, Heights(t'), p, l);
    OnlyPredecessor(h, at, prev, p, l);
    assert t[at][l] == At(nodes, Next(h, at, l));
  }

  lemma RemovedElsewhere(nodes: seq<Node>, t: Towers, at: nat, prev: seq<nat>, nodes': seq<Node>, t': Towers, p: nat,
                         l: nat)
    requires Linked(nodes, t) && Shaped(Heights(t)) && 1 <= at < |t| && Predecessors(Heights(t), at, prev)
    requires Removed(t, at, prev, t') && TakenOut(nodes, at, nodes') && p < at && l < |t'[p]|
    requires Next(Heights(t), p, l) != at
    ensures t'[p][l] == At(nodes', Next(Heights(t'), p, l))
  {
    hide Next;
    var h := Heights(t);
    assert Heights(t')[p] == h[p];
    NextAfterRemove(h, at, Heights(t'), p, l);
    assert t[p][l] == At(nodes, Next(h, p, l));
    assert at <= Next(h, prev[l], l);
  }

  // ---- relinking ----

  /** The nodes after the head hold exactly these entries. */
  ghost predicate Matches(nodes: seq<Node>, entries: seq<Entry>)
    reads (set n | n in nodes)`value
  {
    && |nodes| == |entries| + 1
    && forall i :: 0 <= i < |entries| ==> nodes[i + 1].key == entries[i].key && nodes[i + 1].value == entries[i].value
  }

  /** The nodes' pointers are these towers. */
  ghost predicate Mirrors(nodes: seq<Node>, towers: Towers)
    reads (set n | n in nodes)`nexts
  {
    |towers| == |nodes| && forall i :: 0 <= i < |nodes| ==> nodes[i].nexts == towers[i]
  }

  /** A tower after its pointers on the levels where it precedes are turned to the new one. */
  ghost function Turned(t: Towers, idx: seq<nat>, node: Node, n: nat, p: nat): (r: seq<Node?>)
    requires p < |t| && n <= |idx|
    ensures |r| == |t[p]|
  {
    seq(|t[p]|, l requires 0 <= l < |t[p]| => if l < n && p == idx[l] then node else t[p][l])
  }

  ghost function Spliced(t: Towers, at: nat, idx: seq<nat>, node: Node, tower: seq<Node?>): (r: Towers)
    requires at <= |t| && |tower| <= |idx|
    ensures |r| == |t| + 1
  {
    seq(|t| + 1, p requires 0 <= p < |t| + 1 =>
          if p < at then Turned(t, idx, node, |tower|, p) else if p == at then tower else t[p - 1])
  }

  ghost predicate PrevAre(nodes: seq<Node>, idx: seq<nat>, prev: seq<Node>) {
    |idx| == |prev| && forall l :: 0 <= l < |prev| ==> idx[l] < |nodes| && prev[l] == nodes[idx[l]]
  }

  /** The new tower points where its predecessors pointed. */
  ghost predicate TakesOver(t: Towers, idx: seq<nat>, tower: seq<Node?>) {
    && |tower| <= |idx|
    && forall l :: 0 <= l < |tower| ==> idx[l] < |t| && l < |t[idx[l]]| && tower[l] == t[idx[l]][l]
  }

  lemma SplicedInserts(nodes: seq<Node>, t: Towers, at: nat, idx: seq<nat>, node: Node, tower: seq<Node?>)
    requires Linked(nodes, t) && t != [] && 1 <= at && Predecessors(Heights(t), at, idx) && TakesOver(t, idx, tower)
    ensures Inserted(nodes, t, at, idx, node, tower, Spliced(t, at, idx, node, tower))
  {
    hide Next, Linked, PutIn;
    PredecessorsBelow(Heights(t), at, idx);
    SplicedHeights(t, at, idx, node, tower);
    TowerTakesOver(nodes, t, idx, tower);
  }

  lemma TowerTakesOver(nodes: seq<Node>, t: Towers, idx: seq<nat>, tower: seq<Node?>)
    requires Linked(nodes, t) && TakesOver(t, idx, tower)
    ensures forall l :: 0 <= l < |tower| ==> idx[l] < |t| && tower[l] == At(nodes, Next(Heights(t), idx[l], l))
  {
    hide Next;
    forall l | 0 <= l < |tower| ensures tower[l] == At(nodes, Next(Heights(t), idx[l], l)) {
      assert t[idx[l]][l] == At(nodes, Next(Heights(t), idx[l], l));
    }
  }

  lemma SplicedHeights(t: Towers, at: nat, idx: seq<nat>, node: Node, tower: seq<Node?>)
    requires at <= |t| && |tower| <= |idx|
    ensures PutIn(Heights(t), at, |tower|, Heights(Spliced(t, at, idx, node, tower)))
  {
  }

  lemma HeightsInserted(t: Towers, at: nat, idx: seq<nat>, node: Node, tower: seq<Node?>)
    requires at <= |t| && |tower| <= |idx|
    ensures Heights(Spliced(t, at, idx, node, tower)) == Heights(t)[..at] + [|tower|] + Heights(t)[at..]
  {
  }

  lemma DistinctInserted(nodes: seq<Node>, at: nat, node: Node, nodes': seq<Node>)
    requires Distinct(nodes) && node !in nodes && PutIn(nodes, at, node, nodes')
    ensures Distinct(nodes') && forall n :: n in nodes' ==> n in nodes || n == node
  {
  }

  lemma DistinctRemoved(nodes: seq<Node>, at: nat, nodes': seq<Node>)
    requires Distinct(nodes) && TakenOut(nodes, at, nodes')
    ensures Distinct(nodes') && forall n :: n in nodes' ==> n in nodes
  {
  }

  ghost predicate AllBelow(idx: seq<nat>, at: nat) {
    forall l :: 0 <= l < |idx| ==> idx[l] < at
  }

  lemma PredecessorsBelow(h: seq<nat>, at: nat, idx: seq<nat>)
    requires h != [] && Predecessors(h, at, idx)
    ensures at <= |h| && AllBelow(idx, at)
  {
    hide Next;
  }

  /** A tower from the place on precedes nothing there, so its pointers stay. */
  lemma BehindUnturned(t: Towers, at: nat, idx: seq<nat>, node: Node, n: nat, i: nat)
    requires at <= |t| && n <= |idx| && AllBelow(idx, at)
    ensures at < i <= |t| ==> Turned(t, idx, node, n, i - 1) == t[i - 1]
  {
  }

  lemma TurnedStep(t: Towers, idx: seq<nat>, node: Node, level: nat, i: nat)
    requires i < |t| && level < |idx|
    ensures Turned(t, idx, node, level + 1, i)
         == if i == idx[level] && level < |t[i]| then Turned(t, idx, node, level, i)[level := node]
            else Turned(t, idx, node, level, i)
  {
  }

  /** The loop of Put: on each of its levels the new tower takes over the
      predecessor's pointer, and the predecessor points to it. */
  method Relink(ghost nodes: seq<Node>, ghost t: Towers, ghost at: nat, ghost idx: seq<nat>, prev: seq<Node>,
                node: Node)
    requires Distinct(nodes) && node !in nodes && t != [] && Mirrors(nodes, t)
    requires Predecessors(Heights(t), at, idx) && PrevAre(nodes, idx, prev) && |node.nexts| <= |prev|
    modifies node`nexts, (set n | n in nodes)`nexts
    ensures |node.nexts| == old(|node.nexts|) && TakesOver(t, idx, node.nexts)
    ensures forall i :: 0 <= i < |nodes| ==> nodes[i].nexts == Turned(t, idx, node, |node.nexts|, i)
  {
    hide Next;
    var n := |node.nexts|;
    assert forall i :: 0 <= i < |nodes| ==> Turned(t, idx, node, 0, i) == t[i];
    for level := 0 to n
      invariant |node.nexts| == n
      invariant forall l :: 0 <= l < level ==> node.nexts[l] == t[idx[l]][l]
      invariant forall i :: 0 <= i < |nodes| ==> nodes[i].nexts == Turned(t, idx, node, level, i)
    {
      node.nexts := node.nexts[level := prev[level].nexts[level]];
      prev[level].nexts := prev[level].nexts[level := node];
      forall i | 0 <= i < |nodes| ensures nodes[i].nexts == Turned(t, idx, node, level + 1, i) {
        TurnedStep(t, idx, node, level, i);
      }
    }
  }

  // ---- the list ----

  /** A tower after its pointers to the tower at a place are passed on. */
  ghost function Bypassed(t: Towers, at: nat, idx: seq<nat>, from: nat, p: nat): (r: seq<Node?>)
    requires p < |t| && at < |t| && |t[at]| <= |idx|
    ensures |r| == |t[p]|
  {
    seq(|t[p]|, l requires 0 <= l < |t[p]| => if from <= l < |t[at]| && p == idx[l] then t[at][l] else t[p][l])
  }

  ghost function Unspliced(t: Towers, at: nat, idx: seq<nat>): (r: Towers)
    requires at < |t| && |t[at]| <= |idx|
    ensures |r| == |t| - 1
  {
    seq(|t| - 1, p requires 0 <= p < |t| - 1 => if p < at then Bypassed(t, at, idx, 0, p) else t[p + 1])
  }

  lemma UnsplicedRemoves(t: Towers, at: nat, idx: seq<nat>)
    requires at < |t| && |t[at]| <= |idx|
    ensures Removed(t, at, idx, Unspliced(t, at, idx))
  {
    var t' := Unspliced(t, at, idx);
    assert TakenOut(Heights(t), at, Heights(t'));
  }

  lemma HeightsRemoved(t: Towers, at: nat, idx: seq<nat>)
    requires at < |t| && |t[at]| <= |idx|
    ensures Heights(Unspliced(t, at, idx)) == Heights(t)[..at] + Heights(t)[at + 1..]
  {
  }

  lemma RemovedBytes(entries: seq<Entry>, key: Bytes)
    requires var p := Position(entries, key); p < |entries| && entries[p].key == key
    ensures var p := Position(entries, key);
            && Remove(entries, key) == entries[..p] + entries[p + 1..]
            && ByteSize(Remove(entries, key)) == ByteSize(entries) - |key| - |entries[p].value|
  {
    hide Lt, Position;
    var p := Position(entries, key);
    ByteSizeAt(entries, p);
    ByteSizeConcat(entries[..p], entries[p + 1..]);
  }

  /** The level's target: the found tower where it reaches the level, else nothing. */
  ghost predicate TargetsAre(t: Towers, at: nat, node: Node, targets: seq<Node?>)
    requires at < |t|
  {
    forall l :: 0 <= l < |targets| ==> targets[l] == if l < |t[at]| then node else null
  }

  lemma BypassedStep(t: Towers, at: nat, idx: seq<nat>, level: nat, i: nat)
    requires i < |t| && at < |t| && |t[at]| <= |idx| && level < |idx|
    ensures Bypassed(t, at, idx, level, i)
         == if level < |t[at]| && i == idx[level] && level < |t[i]|
            then Bypassed(t, at, idx, level + 1, i)[level := t[at][level]]
            else Bypassed(t, at, idx, level + 1, i)
  {
  }

  /** The unlinking loop of Delete, top level first. */
  method Unlink(ghost nodes: seq<Node>, ghost t: Towers, ghost at: nat, ghost idx: seq<nat>, prev: seq<Node>,
                targets: seq<Node?>)
    requires Distinct(nodes) && 1 <= at < |nodes| && Mirrors(nodes, t) && Shaped(Heights(t))
    requires Predecessors(Heights(t), at, idx) && PrevAre(nodes, idx, prev)
    requires |targets| == |prev| && TargetsAre(t, at, nodes[at], targets)
    modifies (set n | n in nodes)`nexts
    ensures forall i :: 0 <= i < |nodes| ==> nodes[i].nexts == Bypassed(t, at, idx, 0, i)
  {
    hide Next;
    var level := |targets|;
    assert forall i :: 0 <= i < |nodes| ==> Bypassed(t, at, idx, level, i) == t[i];
    while level > 0
      invariant 0 <= level <= |targets|
      invariant forall i :: 0 <= i < |nodes| ==> nodes[i].nexts == Bypassed(t, at, idx, level, i)
    {
      level := level - 1;
      if targets[level] != null {
        assert Bypassed(t, at, idx, level + 1, at) == t[at];
        prev[level].nexts := prev[level].nexts[level := targets[level].nexts[level]];
      }
      forall i | 0 <= i < |nodes| ensures nodes[i].nexts == Bypassed(t, at, idx, level, i) {
        BypassedStep(t, at, idx, level, i);
      }
    }
  }

  lemma MirrorsRemoved(nodes: seq<Node>, t: Towers, at: nat, idx: seq<nat>, nodes': seq<Node>)
    requires |t| == |nodes| && at < |t| && |t[at]| <= |idx| && AllBelow(idx, at)
    requires forall i :: 0 <= i < |nodes| ==> nodes[i].nexts == Bypassed(t, at, idx, 0, i)
    requires TakenOut(nodes, at, nodes')
    ensures Mirrors(nodes', Unspliced(t, at, idx))
  {
    hide Next;
    forall i | 0 <= i < |nodes'| ensures nodes'[i].nexts == Unspliced(t, at, idx)[i] {
      assert i >= at ==> Bypassed(t, at, idx, 0, i + 1) == t[i + 1];
    }
  }

  lemma MatchesInserted(nodes: seq<Node>, entries: seq<Entry>, p: nat, node: Node, nodes': seq<Node>,
                        entries': seq<Entry>)
    requires Matches(nodes, entries) && PutIn(nodes, p + 1, node, nodes')
    requires PutIn(entries, p, Entry(node.key, node.value), entries')
    ensures Matches(nodes', entries')
  {
    forall i | 0 <= i < |entries'|
      ensures nodes'[i + 1].key == entries'[i].key && nodes'[i + 1].value == entries'[i].value {
      if i < p { assert entries'[i] == entries[i]; }
      if i > p { assert entries'[i] == entries[i - 1]; }
    }
  }

  lemma MatchesRemoved(nodes: seq<Node>, entries: seq<Entry>, p: nat, nodes': seq<Node>, entries': seq<Entry>)
    requires Matches(nodes, entries) && TakenOut(nodes, p + 1, nodes') && TakenOut(entries, p, entries')
    ensures Matches(nodes', entries')
  {
    forall i | 0 <= i < |entries'|
      ensures nodes'[i + 1].key == entries'[i].key && nodes'[i + 1].value == entries'[i].value {
      assert entries'[i] == entries[if i < p then i else i + 1];
    }
  }

  lemma MirrorsInserted(nodes: seq<Node>, t: Towers, at: nat, idx: seq<nat>, node: Node, nodes': seq<Node>)
    requires |t| == |nodes| && at <= |t| && |node.nexts| <= |idx| && AllBelow(idx, at)
    requires forall i :: 0 <= i < |nodes| ==> nodes[i].nexts == Turned(t, idx, node, |node.nexts|, i)
    requires PutIn(nodes, at, node, nodes')
    ensures Mirrors(nodes', Spliced(t, at, idx, node, node.nexts))
  {
    hide Turned;
    forall i | 0 <= i < |nodes'| ensures nodes'[i].nexts == Spliced(t, at, idx, node, node.nexts)[i] {
      BehindUnturned(t, at, idx, node, |node.nexts|, i);
    }
  }

  lemma Absent(entries: seq<Entry>, key: Bytes)
    requires var p := Position(entries, key); !(p < |entries| && entries[p].key == key)
    ensures Remove(entries, key) == entries
  {
  }

  lemma HeadHeight(nodes: seq<Node>, t: Towers)
    requires Mirrors(nodes, t) && nodes != []
    ensures t != [] && |nodes[0].nexts| == |t[0]|
  {
  }

  /** Delete keeps its predecessors in arrays of this size. */
  const MAX_HEIGHT: nat := 32

  class ConcurrentSkipList {
    var head: Node
    var size: nat
    var binarySize: nat
    /** The towers in key order, head first, and what they hold. */
    ghost var nodes: seq<Node>
    ghost var towers: Towers
    ghost var entries: seq<Entry>

    ghost predicate Valid()
      reads this, nodes
    {
      && |towers| == |nodes| == |entries| + 1 && nodes[0] == head && Distinct(nodes)
      && Mirrors(nodes, towers)
      && Linked(nodes, towers) && Shaped(Heights(towers))
      && Matches(nodes, entries)
      && Sorted(entries)
      && size == |entries| && binarySize == ByteSize(entries)
    }

    constructor ()
      ensures Valid() && entries == [] && fresh(nodes)
    {
      head := new Node([], [], 1);
      size, binarySize := 0, 0;
      new;
      nodes, entries := [head], [];
      towers := [[null]];
      assert head.nexts == [null];
      assert Heights(towers) == [1];
    }

    /** The descent shared by Get, Put and Delete: on every level the last tower
        whose key is smaller. Every pointer it reads exists. */
    method Locate(key: Bytes) returns (prev: seq<Node>, ghost idx: seq<nat>)
      requires Valid()
      ensures |idx| == |prev| == |head.nexts|
      ensures Predecessors(Heights(towers), Position(entries, key) + 1, idx)
      ensures PrevAre(nodes, idx, prev)
    {
      hide Lt, Sorted;
      ghost var h, at := Heights(towers), Position(entries, key) + 1;
      var level := |head.nexts|;
      var p := head;
      ghost var i := 0;
      prev, idx := seq(level, _ => p), seq(level, _ => 0);
      while level > 0
        invariant 0 <= level <= h[0] == |prev| == |idx| && i < at && nodes[i] == p && level <= h[i]
        invariant forall l :: level <= l < |prev| ==>
                    idx[l] < at && prev[l] == nodes[idx[l]] && l < h[idx[l]] && at <= Next(h, idx[l], l)
      {
        level := level - 1;
        while p.nexts[level] != null && Lt(p.nexts[level].key, key)
          invariant i < at && nodes[i] == p && level < h[i]
          decreases |nodes| - i
        {
          assert towers[i][level] == At(nodes, Next(h, i, level));
          i := Next(h, i, level);
          p := p.nexts[level];
          StillBefore(key, i);
        }
        assert towers[i][level] == At(nodes, Next(h, i, level));
        NotBefore(key, Next(h, i, level));
        prev, idx := prev[level := p], idx[level := i];
      }
    }

    lemma StillBefore(key: Bytes, i: nat)
      requires Valid() && 1 <= i < |nodes| && Lt(nodes[i].key, key)
      ensures i <= Position(entries, key)
    {
      hide Lt;
      if Position(entries, key) < i {
        AbovePosition(entries, key, i - 1);
        Trichotomy(key, nodes[i].key);
      }
    }

    lemma NotBefore(key: Bytes, q: nat)
      requires Valid() && 1 <= q <= |nodes| && (q < |nodes| ==> !Lt(nodes[q].key, key))
      ensures Position(entries, key) + 1 <= q
    {
      hide Lt;
      assert q < |nodes| ==> entries[q - 1].key == nodes[q].key;
    }

    /** Get is map lookup. */
    method Get(key: Bytes) returns (r: Option<Bytes>)
      requires Valid()
      ensures r == Lookup(entries, key)
    {
      hide Lt, Sorted, Lookup;
      var prev, idx := Locate(key);
      LookupAtPosition(entries, key);
      Successor(key, idx);
      var next := prev[0].nexts[0];
      if next != null && next.key == key {
        r := Some(next.value);
      } else {
        r := None;
      }
    }

    /** Put: overwrite in place, or grow the head if needed and splice a new tower
        of the given height into every level it reaches. */
    method Put(key: Bytes, value: Bytes, newLevel: nat)
      requires Valid() && newLevel >= 1
      modifies this, nodes
      ensures Valid() && entries == Upsert(old(entries), key, value)
      ensures forall n :: n in nodes ==> n in old(nodes) || fresh(n)
      ensures head == old(head) && (|head.nexts| <= old(|head.nexts|) || |head.nexts| == newLevel)
      ensures var p, h := Position(old(entries), key), old(Heights(towers));
              Heights(towers)
              == if p < |old(entries)| && old(entries)[p].key == key then h else Raised(h, p + 1, newLevel)
    {
      hide Lt, Sorted, Next, Linked, Shaped, Predecessors, Upsert, Mirrors, Matches, Distinct, Raised;
      var prev, idx := Locate(key);
      Successor(key, idx);
      SuccessorKey(key);
      var next := prev[0].nexts[0];
      if next != null && next.key == key {
        Overwrite(next, value);
        return;
      }
      Insert(key, value, newLevel, prev, idx);
    }

    lemma SuccessorKey(key: Bytes)
      requires Valid()
      ensures var p := Position(entries, key); p < |entries| ==> nodes[p + 1].key == entries[p].key
    {
      hide Lt, Sorted, Next, Linked, Position;
    }

    /** Put on a key that is not there. */
    method Insert(key: Bytes, value: Bytes, newLevel: nat, prev: seq<Node>, ghost idx: seq<nat>)
      requires Valid() && 1 <= newLevel && |head.nexts| == |prev| == |idx|
      requires Predecessors(Heights(towers), Position(entries, key) + 1, idx)
      requires PrevAre(nodes, idx, prev)
      requires var p := Position(entries, key); p < |entries| ==> entries[p].key != key
      modifies this, nodes
      ensures Valid() && entries == Upsert(old(entries), key, value)
      ensures forall n :: n in nodes ==> n in old(nodes) || fresh(n)
      ensures head == old(head) && (|head.nexts| <= old(|head.nexts|) || |head.nexts| == newLevel)
      ensures Heights(towers) == Raised(old(Heights(towers)), Position(old(entries), key) + 1, newLevel)
    {
      hide Lt, Sorted, Next, Linked, Shaped, Predecessors, Upsert, Matches, Distinct, Position, PrevAre;
      HeadHeight(nodes, towers);
      hide Mirrors;
      ghost var h := Heights(towers);
      assert h[0] == |head.nexts| && h[0 := h[0]] == h;
      var prev', idx' := prev, idx;
      if newLevel > |head.nexts| {
        prev', idx' := Grow(key, prev, idx, newLevel);
      }
      Splice(key, value, newLevel, prev', idx');
    }

    /** Put on a key that is already there. */
    method Overwrite(next: Node, value: Bytes)
      requires Valid()
      requires var p := Position(entries, next.key); p < |entries| && nodes[p + 1] == next
      modifies this`binarySize, this`entries, next`value
      ensures Valid() && entries == Upsert(old(entries), next.key, value)
    {
      hide Lt, Sorted, Next, Linked, Shaped, Position, Upsert, Mirrors;
      ghost var p := Position(entries, next.key);
      assert next.key == entries[p].key && next.value == entries[p].value;
      UpsertKnown(entries, next.key, value);
      binarySize := binarySize + |value| - |next.value|;
      next.value := value;
      entries := Upsert(entries, next.key, value);
      assert forall i :: 0 <= i < |entries| ==>
               entries[i] == if i == p then Entry(next.key, value) else old(entries)[i];
    }

    /** resize of the head and of the predecessors. */
    method Grow(key: Bytes, prev: seq<Node>, ghost idx: seq<nat>, height: nat)
      returns (prev': seq<Node>, ghost idx': seq<nat>)
      requires Valid() && |prev| == |idx| == |head.nexts| < height
      requires Predecessors(Heights(towers), Position(entries, key) + 1, idx)
      requires PrevAre(nodes, idx, prev)
      modifies this`towers, head
      ensures Valid() && |head.nexts| == height && old(towers) != []
      ensures Heights(towers) == old(Heights(towers))[0 := height]
      ensures |prev'| == |idx'| == height
      ensures Predecessors(Heights(towers), Position(entries, key) + 1, idx')
      ensures PrevAre(nodes, idx', prev')
    {
      hide Lt, Sorted, Next, Position, Linked, Matches, Predecessors;
      ghost var t, at := towers, Position(entries, key) + 1;
      var n := height - |head.nexts|;
      var first := head;
      head.nexts := head.nexts + seq(n, _ => null);
      towers := towers[0 := head.nexts];
      GrownLinked(nodes, t, height, towers);
      prev', idx' := prev + seq(n, _ => first), idx + seq(n, _ => 0);
      GrownPredecessors(Heights(t), at, idx, height);
    }

    /** The insertion loop over the levels of the new tower. */
    method Splice(key: Bytes, value: Bytes, newLevel: nat, prev: seq<Node>, ghost idx: seq<nat>)
      requires Valid() && 1 <= newLevel <= |head.nexts| == |prev| == |idx|
      requires Predecessors(Heights(towers), Position(entries, key) + 1, idx)
      requires PrevAre(nodes, idx, prev)
      requires var p := Position(entries, key); p < |entries| ==> entries[p].key != key
      modifies this, nodes
      ensures Valid() && entries == Upsert(old(entries), key, value)
      ensures forall n :: n in nodes ==> n in old(nodes) || fresh(n)
      ensures head == old(head) && |head.nexts| == old(|head.nexts|)
      ensures var h, at := old(Heights(towers)), Position(old(entries), key) + 1;
              at <= |h| && Heights(towers) == h[..at] + [newLevel] + h[at..]
    {
      hide Lt, Next, Sorted, Position, Upsert, Linked, Matches, Mirrors, Distinct, Shaped, PrevAre, Predecessors,
           TakesOver, Turned;
      HeadHeight(nodes, towers);
      var node := new Node(key, value, newLevel);
      size := size + 1;
      binarySize := binarySize + |key| + |value|;
      Relink(nodes, towers, Position(entries, key) + 1, idx, prev, node);
      Install(node, idx);
    }

    /** The bookkeeping of an insertion: everything the list is known by grows by
        the new tower. */
    ghost method Install(node: Node, idx: seq<nat>)
      requires |towers| == |nodes| == |entries| + 1 && nodes[0] == head && Distinct(nodes) && node !in nodes
      requires Linked(nodes, towers) && Shaped(Heights(towers)) && Matches(nodes, entries) && Sorted(entries)
      requires Predecessors(Heights(towers), Position(entries, node.key) + 1, idx)
      requires 1 <= |node.nexts| && TakesOver(towers, idx, node.nexts)
      requires forall i :: 0 <= i < |nodes| ==> nodes[i].nexts == Turned(towers, idx, node, |node.nexts|, i)
      requires var p := Position(entries, node.key); p < |entries| ==> entries[p].key != node.key
      requires size == |entries| + 1 && binarySize == ByteSize(entries) + |node.key| + |node.value|
      modifies this`nodes, this`towers, this`entries
      ensures Valid() && entries == Upsert(old(entries), node.key, node.value)
      ensures forall n :: n in nodes ==> n in old(nodes) || n == node
      ensures var h, at := old(Heights(towers)), Position(old(entries), node.key) + 1;
              at <= |h| && Heights(towers) == h[..at] + [|node.nexts|] + h[at..]
    {
      hide Lt, Next, Sorted, Position, Upsert, Linked, Matches, Mirrors, Distinct, Shaped, Predecessors, Inserted,
           Turned, Spliced;
      var at := Position(entries, node.key) + 1;
      var nodes' := nodes[..at] + [node] + nodes[at..];
      var towers' := Spliced(towers, at, idx, node, node.nexts);
      UpsertNew(entries, node.key, node.value);
      PredecessorsBelow(Heights(towers), at, idx);
      SplicedInserts(nodes, towers, at, idx, node, node.nexts);
      HeightsInserted(towers, at, idx, node, node.nexts);
      InsertedLinked(nodes, towers, at, idx, node, node.nexts, nodes', towers');
      DistinctInserted(nodes, at, node, nodes');
      MatchesInserted(nodes, entries, at - 1, node, nodes', Upsert(entries, node.key, node.value));
      MirrorsInserted(nodes, towers, at, idx, node, nodes');
      nodes, towers, entries := nodes', towers', Upsert(entries, node.key, node.value);
    }

    /** Delete: unlink the tower on every level it reaches, then drop levels of
        the head that lead nowhere. */
    method Delete(key: Bytes)
      requires Valid() && |head.nexts| <= MAX_HEIGHT
      modifies this, nodes
      ensures Valid() && entries == Remove(old(entries), key)
      ensures forall n :: n in nodes ==> n in old(nodes)
      ensures head == old(head) && |head.nexts| <= old(|head.nexts|)
      ensures var p, h := Position(old(entries), key), old(Heights(towers));
              if p < |old(entries)| && old(entries)[p].key == key then
                && p + 1 < |h| && |head.nexts| >= 1
                && (|head.nexts| == 1 || head.nexts[|head.nexts| - 1] != null)
                && Heights(towers) == (h[..p + 1] + h[p + 2..])[0 := |head.nexts|]
              else Heights(towers) == h
    {
      hide Lt, Sorted, Next, Position, Linked, Shaped, Distinct, Matches, Mirrors, Predecessors, TargetsAre, PrevAre,
           Remove, ByteSize;
      var prev, idx := Locate(key);
      var targets := Targets(key, prev, idx);
      if targets[0] == null {
        Absent(entries, key);
        return;
      }
      Detach(key, prev, idx, targets);
      Shrink();
    }

    /** Delete of a key that is there: pointers, then counters. */
    method Detach(key: Bytes, prev: seq<Node>, ghost idx: seq<nat>, targets: seq<Node?>)
      requires Valid() && Predecessors(Heights(towers), Position(entries, key) + 1, idx) && PrevAre(nodes, idx, prev)
      requires |targets| == |prev| == |idx| > 0
      requires var p := Position(entries, key);
               && p < |entries| && entries[p].key == key && TargetsAre(towers, p + 1, nodes[p + 1], targets)
               && targets[0] == nodes[p + 1] && nodes[p + 1].key == key && nodes[p + 1].value == entries[p].value
               && |towers[p + 1]| <= |idx|
      modifies this, nodes
      ensures Valid() && entries == Remove(old(entries), key)
      ensures forall n :: n in nodes ==> n in old(nodes)
      ensures head == old(head) && |head.nexts| == old(|head.nexts|)
      ensures var h, at := old(Heights(towers)), Position(old(entries), key) + 1;
              at < |h| && Heights(towers) == h[..at] + h[at + 1..]
    {
      hide Lt, Sorted, Next, Position, Linked, Shaped, Predecessors, Distinct, Matches, Mirrors, TargetsAre, PrevAre,
           Bypassed, Remove;
      HeadHeight(nodes, towers);
      var target := targets[0];
      Unlink(nodes, towers, Position(entries, key) + 1, idx, prev, targets);
      ByteSizeAt(entries, Position(entries, key));
      size := size - 1;
      binarySize := binarySize - (|target.key| + |target.value|);
      Uninstall(key, idx);
    }

    /** What each level points to where the key is looked for: the tower that
        holds it, on the levels that tower reaches. */
    method Targets(key: Bytes, prev: seq<Node>, ghost idx: seq<nat>) returns (targets: seq<Node?>)
      requires Valid() && Predecessors(Heights(towers), Position(entries, key) + 1, idx) && PrevAre(nodes, idx, prev)
      ensures |targets| == |prev| == |idx| && |targets| > 0
      ensures var p := Position(entries, key);
              if p < |entries| && entries[p].key == key then
                && TargetsAre(towers, p + 1, nodes[p + 1], targets)
                && targets[0] == nodes[p + 1] && nodes[p + 1].key == key && nodes[p + 1].value == entries[p].value
                && |towers[p + 1]| <= |idx|
              else targets[0] == null
    {
      hide Lt, Next, Position, Linked, Distinct;
      targets := [];
      ghost var p := Position(entries, key);
      for l := 0 to |prev|
        invariant |targets| == l
        invariant forall m :: 0 <= m < l ==>
                    targets[m] == if p < |entries| && entries[p].key == key && m < |towers[p + 1]|
                         then nodes[p + 1] else null
      {
        var next := prev[l].nexts[l];
        TargetAt(key, idx, l);
        targets := targets + [if next != null && next.key == key then next else null];
      }
    }

    lemma TargetAt(key: Bytes, idx: seq<nat>, l: nat)
      requires Valid() && Predecessors(Heights(towers), Position(entries, key) + 1, idx) && l < |idx|
      ensures l < |nodes[idx[l]].nexts|
      ensures var p, next := Position(entries, key), nodes[idx[l]].nexts[l];
              (next != null && next.key == key <==> p < |entries| && entries[p].key == key && l < |towers[p + 1]|)
              && (next != null && next.key == key ==> next == nodes[p + 1])
    {
      hide Lt;
      var h, p := Heights(towers), Position(entries, key);
      var q := Next(h, idx[l], l);
      assert towers[idx[l]][l] == At(nodes, q);
      if q < |nodes| {
        AbovePosition(entries, key, q - 1);
        LtIrreflexive(key);
        assert nodes[q].key == entries[q - 1].key;
      }
      if p < |entries| && entries[p].key == key && l < |towers[p + 1]| {
        NextIs(h, idx[l], l, p + 1);
      }
    }

    ghost method Uninstall(key: Bytes, idx: seq<nat>)
      requires |towers| == |nodes| == |entries| + 1 && nodes[0] == head && Distinct(nodes)
      requires Linked(nodes, towers) && Shaped(Heights(towers)) && Matches(nodes, entries) && Sorted(entries)
      requires var p := Position(entries, key); p < |entries| && entries[p].key == key
      requires Predecessors(Heights(towers), Position(entries, key) + 1, idx)
      requires |towers[Position(entries, key) + 1]| <= |idx|
      requires forall i :: 0 <= i < |nodes| ==>
                 nodes[i].nexts == Bypassed(towers, Position(entries, key) + 1, idx, 0, i)
      requires size == |entries| - 1
      requires binarySize == ByteSize(entries) - |key| - |entries[Position(entries, key)].value|
      modifies this`nodes, this`towers, this`entries
      ensures Valid() && entries == Remove(old(entries), key)
      ensures forall n :: n in nodes ==> n in old(nodes)
      ensures var h, at := old(Heights(towers)), Position(old(entries), key) + 1;
              at < |h| && Heights(towers) == h[..at] + h[at + 1..]
    {
      hide Lt, Next, Sorted, Position, Linked, Matches, Mirrors, Distinct, Shaped, Predecessors, Removed, Bypassed,
           Unspliced, Remove, ByteSize;
      var at := Position(entries, key) + 1;
      var nodes' := nodes[..at] + nodes[at + 1..];
      var towers' := Unspliced(towers, at, idx);
      PredecessorsBelow(Heights(towers), at, idx);
      UnsplicedRemoves(towers, at, idx);
      HeightsRemoved(towers, at, idx);
      RemovedLinked(nodes, towers, at, idx, nodes', towers');
      RemoveSorted(entries, key);
      RemovedBytes(entries, key);
      MatchesRemoved(nodes, entries, at - 1, nodes', Remove(entries, key));
      MirrorsRemoved(nodes, towers, at, idx, nodes');
      DistinctRemoved(nodes, at, nodes');
      nodes, towers, entries := nodes', towers', Remove(entries, key);
    }

    /** Dropping the head's empty upper levels. */
    method Shrink()
      requires Valid()
      modifies this`towers, head`nexts
      ensures Valid() && 1 <= |head.nexts| <= old(|head.nexts|) && towers != []
      ensures |head.nexts| == 1 || head.nexts[|head.nexts| - 1] != null
      ensures Heights(towers) == old(Heights(towers))[0 := |head.nexts|]
    {
      hide Lt, Sorted, Next, Position, Matches, Linked;
      var newSize := |head.nexts|;
      while newSize > 1 && head.nexts[newSize - 1] == null
        invariant 1 <= newSize <= |head.nexts|
        invariant forall l :: newSize <= l < |head.nexts| ==> head.nexts[l] == null
      {
        newSize := newSize - 1;
      }
      ghost var t := towers;
      head.nexts := head.nexts[..newSize];
      towers := towers[0 := head.nexts];
      ShrunkLinked(nodes, t, newSize, towers);
    }

    /** begin() to end() along level 0: all entries, in key order. */
    method Entries() returns (r: seq<Entry>)
      requires Valid()
      ensures r == entries
    {
      hide Lt, Sorted;
      r := [];
      var p := head.nexts[0];
      ghost var i := 1;
      assert towers[0][0] == At(nodes, Next(Heights(towers), 0, 0));
      while p != null
        invariant 1 <= i <= |nodes| && p == At(nodes, i) && r == entries[..i - 1]
        decreases |nodes| - i
      {
        r := r + [Entry(p.key, p.value)];
        assert towers[i][0] == At(nodes, Next(Heights(towers), i, 0));
        p := p.nexts[0];
        i := i + 1;
      }
    }

    /** The level-0 successor of the place found is the entry at its position. */
    lemma Successor(key: Bytes, idx: seq<nat>)
      requires Valid() && Predecessors(Heights(towers), Position(entries, key) + 1, idx)
      ensures |idx| > 0 && idx[0] == Position(entries, key) && |nodes[idx[0]].nexts| > 0
      ensures nodes[idx[0]].nexts[0] == At(nodes, Position(entries, key) + 1)
    {
      hide Lt, Sorted;
      var h := Heights(towers);
      assert towers[idx[0]][0] == At(nodes, Next(h, idx[0], 0));
    }
  }
}
