/** The invariant of the two-space copying collector (`gc` and `gc_dfs` in
    src/runtime.rs) and the lemmas that let each step of the depth-first copy
    preserve it.  During a collection the old area (`from`) gradually fills
    with broken hearts, each pointing at the copy of its node in the new area
    (`to`); `origin` records, for each copy, the old index it came from; and
    `pending` holds the nodes whose copy still carries untranslated
    references because their children are being copied. */
module Collector {
  import opened Wrappers
  import opened Heap

  /** Number of nodes that have not moved. */
  function CountLive(a: seq<RNode>): (n: nat)
    ensures n <= |a|
    decreases |a|
  {
    if a == [] then 0 else CountLive(a[..|a| - 1]) + (if a[|a| - 1].BrokenHeart? then 0 else 1)
  }

  lemma {:induction false} CountLiveUpdate(a: seq<RNode>, i: nat, x: RNode)
    requires i < |a|
    ensures CountLive(a[i := x]) + (if a[i].BrokenHeart? then 0 else 1)
         == CountLive(a) + (if x.BrokenHeart? then 0 else 1)
    decreases |a|
  {
    var b := a[i := x];
    if i < |a| - 1 {
      assert b[..|b| - 1] == a[..|a| - 1][i := x];
      CountLiveUpdate(a[..|a| - 1], i, x);
    } else {
      assert b[..|b| - 1] == a[..|a| - 1];
    }
  }

  /** The moved nodes and where they went. */
  function FwdMap(a: seq<RNode>): (f: map<nat, nat>)
    ensures forall i: nat :: i in f <==> i < |a| && a[i].BrokenHeart?
    ensures forall i | i in f :: f[i] == a[i].dst
  {
    map i: nat | i < |a| && a[i].BrokenHeart? :: a[i].dst
  }

  ghost function MovedSet(a: seq<RNode>): set<nat> {
    set i: nat | i < |a| && a[i].BrokenHeart?
  }

  lemma {:induction false} CountMovedSet(a: seq<RNode>)
    ensures |a| - CountLive(a) == |MovedSet(a)|
    decreases |a|
  {
    if a != [] {
      var a' := a[..|a| - 1];
      CountMovedSet(a');
      var last := |a| - 1;
      var k, k' := MovedSet(a), MovedSet(a');
      assert forall i | 0 <= i < last :: a'[i] == a[i];
      if a[last].BrokenHeart? {
        assert k == k' + {last};
      } else {
        assert k == k';
      }
    }
  }

  lemma CountMoved(a: seq<RNode>)
    ensures |a| - CountLive(a) == |FwdMap(a).Keys|
  {
    CountMovedSet(a);
    assert FwdMap(a).Keys == MovedSet(a);
  }

  lemma RenameAgree(n: RNode, f: map<nat, nat>, g: map<nat, nat>)
    requires Children(n) <= f.Keys && Children(n) <= g.Keys
    requires forall c | c in Children(n) :: f[c] == g[c]
    ensures Rename(n, f) == Rename(n, g)
  {
    if n.REnv? {
      forall k | k in n.vars ensures f[n.vars[k]] == g[n.vars[k]] {
        assert n.vars[k] in Children(n);
      }
    }
  }

  ghost predicate GcInv(orig: seq<RNode>, from: seq<RNode>, to: seq<RNode>, origin: seq<nat>, pending: set<nat>) {
    WellFormed(orig) && |from| == |orig| && |origin| == |to| &&
    (forall i | 0 <= i < |from| ::
      from[i] == orig[i] || (from[i].BrokenHeart? && from[i].dst < |to| && origin[from[i].dst] == i)) &&
    (forall j | 0 <= j < |to| :: origin[j] < |from| && from[origin[j]] == BrokenHeart(j)) &&
    (forall i | i in pending :: i < |from| && from[i].BrokenHeart?) &&
    (forall j | 0 <= j < |to| && origin[j] in pending :: to[j] == orig[origin[j]]) &&
    (forall j | 0 <= j < |to| && origin[j] !in pending ::
      Children(orig[origin[j]]) <= FwdMap(from).Keys && to[j] == Rename(orig[origin[j]], FwdMap(from))) &&
    |to| + CountLive(from) == |orig|
  }

  /** No node has moved yet. */
  lemma {:induction false} CountLiveAllLive(a: seq<RNode>)
    requires forall i | 0 <= i < |a| :: !a[i].BrokenHeart?
    ensures CountLive(a) == |a|
    decreases |a|
  {
    if a != [] { CountLiveAllLive(a[..|a| - 1]); }
  }

  lemma GcStart(orig: seq<RNode>)
    requires WellFormed(orig)
    ensures GcInv(orig, orig, [], [], {})
  {
    CountLiveAllLive(orig);
  }

  /** Copying node `cur` to the end of the new area and leaving a broken heart. */
  lemma GcForward(orig: seq<RNode>, from: seq<RNode>, to: seq<RNode>, origin: seq<nat>, pending: set<nat>, cur: nat)
    requires GcInv(orig, from, to, origin, pending) && cur < |from| && !from[cur].BrokenHeart?
    ensures from[cur] == orig[cur] && cur !in pending
    ensures GcInv(orig, from[cur := BrokenHeart(|to|)], to + [orig[cur]], origin + [cur], pending + {cur})
  {
    var from', to', origin', pending' := from[cur := BrokenHeart(|to|)], to + [orig[cur]], origin + [cur], pending + {cur};
    ForwardOrigins(orig, from, to, origin, cur);
    ForwardRenamed(orig, from, to, origin, pending, cur);
    CountLiveUpdate(from, cur, BrokenHeart(|to|));
  }

  /** The origin bookkeeping of `GcInv` after forwarding `cur`. */
  lemma ForwardOrigins(orig: seq<RNode>, from: seq<RNode>, to: seq<RNode>, origin: seq<nat>, cur: nat)
    requires |from| == |orig| && |origin| == |to| && cur < |from| && from[cur] == orig[cur] && !orig[cur].BrokenHeart?
    requires forall i | 0 <= i < |from| ::
      from[i] == orig[i] || (from[i].BrokenHeart? && from[i].dst < |to| && origin[from[i].dst] == i)
    requires forall j | 0 <= j < |to| :: origin[j] < |from| && from[origin[j]] == BrokenHeart(j)
    ensures var from', to', origin' := from[cur := BrokenHeart(|to|)], to + [orig[cur]], origin + [cur];
      (forall i | 0 <= i < |from'| ::
        from'[i] == orig[i] || (from'[i].BrokenHeart? && from'[i].dst < |to'| && origin'[from'[i].dst] == i)) &&
      (forall j | 0 <= j < |to'| :: origin'[j] < |from'| && from'[origin'[j]] == BrokenHeart(j))
  {
  }

  /** The copies already written stay translations after forwarding `cur`. */
  lemma ForwardRenamed(orig: seq<RNode>, from: seq<RNode>, to: seq<RNode>, origin: seq<nat>, pending: set<nat>, cur: nat)
    requires |from| == |orig| && |origin| == |to| && cur < |from| && !from[cur].BrokenHeart?
    requires forall j | 0 <= j < |to| :: origin[j] < |from| && from[origin[j]] == BrokenHeart(j)
    requires forall j | 0 <= j < |to| && origin[j] in pending :: to[j] == orig[origin[j]]
    requires forall j | 0 <= j < |to| && origin[j] !in pending ::
      Children(orig[origin[j]]) <= FwdMap(from).Keys && to[j] == Rename(orig[origin[j]], FwdMap(from))
    ensures var from', to', origin', pending' := from[cur := BrokenHeart(|to|)], to + [orig[cur]], origin + [cur], pending + {cur};
      (forall j | 0 <= j < |to'| && origin'[j] in pending' :: to'[j] == orig[origin'[j]]) &&
      (forall j | 0 <= j < |to'| && origin'[j] !in pending' ::
        Children(orig[origin'[j]]) <= FwdMap(from').Keys && to'[j] == Rename(orig[origin'[j]], FwdMap(from')))
  {
    var from', to', origin', pending' := from[cur := BrokenHeart(|to|)], to + [orig[cur]], origin + [cur], pending + {cur};
    var f, f' := FwdMap(from), FwdMap(from');
    assert f.Keys <= f'.Keys;
    forall j | 0 <= j < |to'| && origin'[j] in pending' ensures to'[j] == orig[origin'[j]] {
      if j < |to| {
        assert origin'[j] == origin[j] != cur;
      }
    }
    forall j | 0 <= j < |to'| && origin'[j] !in pending'
      ensures Children(orig[origin'[j]]) <= f'.Keys && to'[j] == Rename(orig[origin'[j]], f')
    {
      assert j < |to|;
      RenameAgree(orig[origin[j]], f, f');
    }
  }

  /** Writing the translated copy of `cur` once all its children have moved. */
  lemma GcFinish(orig: seq<RNode>, from: seq<RNode>, to: seq<RNode>, origin: seq<nat>, pending: set<nat>, cur: nat, dst: nat)
    requires GcInv(orig, from, to, origin, pending + {cur}) && cur !in pending
    requires cur < |from| && from[cur] == BrokenHeart(dst)
    requires Children(orig[cur]) <= FwdMap(from).Keys
    ensures dst < |to| && origin[dst] == cur
    ensures GcInv(orig, from, to[dst := Rename(orig[cur], FwdMap(from))], origin, pending)
  {
  }

  /** What a completed copy of a subgraph leaves unchanged: every node that
      had moved before is still a broken heart to the same place. */
  ghost predicate Keeps(before: seq<RNode>, after: seq<RNode>) {
    |after| == |before| &&
    forall i | 0 <= i < |before| && before[i].BrokenHeart? :: after[i] == before[i]
  }

  /** Every node that moved between `before` and `after` is reachable from `s`. */
  ghost predicate NewlyReached(orig: seq<RNode>, before: seq<RNode>, after: seq<RNode>, s: set<nat>) {
    forall i | 0 <= i < |after| && i < |before| && after[i].BrokenHeart? && !before[i].BrokenHeart? :: Reachable(orig, s, i)
  }

  lemma KeepsTrans(a: seq<RNode>, b: seq<RNode>, c: seq<RNode>)
    requires Keeps(a, b) && Keeps(b, c)
    ensures Keeps(a, c)
  {
  }

  lemma NewlyTrans(orig: seq<RNode>, a: seq<RNode>, b: seq<RNode>, c: seq<RNode>, s: set<nat>)
    requires Keeps(a, b) && Keeps(b, c) && NewlyReached(orig, a, b, s) && NewlyReached(orig, b, c, s)
    ensures NewlyReached(orig, a, c, s)
  {
  }

  /** Nodes reached from a child of `p` are reached from `p`. */
  lemma NewlyLift(orig: seq<RNode>, a: seq<RNode>, b: seq<RNode>, p: nat, c: nat)
    requires p < |orig| && c in Children(orig[p]) && NewlyReached(orig, a, b, {c})
    ensures NewlyReached(orig, a, b, {p})
  {
    forall i | 0 <= i < |b| && i < |a| && b[i].BrokenHeart? && !a[i].BrokenHeart?
      ensures Reachable(orig, {p}, i)
    {
      ReachableStep(orig, {p}, p, c, i);
    }
  }

  lemma NewlyWiden(orig: seq<RNode>, a: seq<RNode>, b: seq<RNode>, s: set<nat>, t: set<nat>)
    requires NewlyReached(orig, a, b, s) && s <= t
    ensures NewlyReached(orig, a, b, t)
  {
    forall i | 0 <= i < |b| && i < |a| && b[i].BrokenHeart? && !a[i].BrokenHeart?
      ensures Reachable(orig, t, i)
    {
      ReachableWiden(orig, s, t, i);
    }
  }

  lemma GcDoneMoved(orig: seq<RNode>, from: seq<RNode>, to: seq<RNode>, origin: seq<nat>)
    requires GcInv(orig, from, to, origin, {})
    ensures Moved(FwdMap(from), orig, to) && Onto(FwdMap(from), to)
  {
    var f := FwdMap(from);
    forall i | i in f
      ensures i < |orig| && f[i] < |to| && Children(orig[i]) <= f.Keys && to[f[i]] == Rename(orig[i], f)
    {
      assert origin[from[i].dst] == i;
    }
    forall j | 0 <= j < |to| ensures j in f.Values {
      assert f[origin[j]] == j;
    }
    forall i | i in f ensures Pre(f, f[i]) == i {
      var i' := Pre(f, f[i]);
      assert origin[from[i].dst] == i && origin[from[i'].dst] == i';
    }
  }

  lemma GcDoneReach(orig: seq<RNode>, from: seq<RNode>, to: seq<RNode>, origin: seq<nat>, roots: set<nat>)
    requires GcInv(orig, from, to, origin, {})
    requires forall r | r in roots :: r < |from| && from[r].BrokenHeart?
    requires NewlyReached(orig, orig, from, roots)
    ensures FwdMap(from).Keys == ReachSet(orig, roots)
  {
    GcDoneClosed(orig, from, to, origin);
    ReachInClosed(orig, roots, FwdMap(from).Keys);
    MovedReached(orig, from, roots);
  }

  /** Once nothing is pending, the moved nodes are closed under references. */
  lemma GcDoneClosed(orig: seq<RNode>, from: seq<RNode>, to: seq<RNode>, origin: seq<nat>)
    requires GcInv(orig, from, to, origin, {})
    ensures forall i | i in FwdMap(from) :: i < |orig| && Children(orig[i]) <= FwdMap(from).Keys
  {
    var f := FwdMap(from);
    forall i | i in f ensures i < |orig| && Children(orig[i]) <= f.Keys {
      assert origin[from[i].dst] == i;
    }
  }

  /** Every node that has moved since the start is reachable. */
  lemma MovedReached(orig: seq<RNode>, from: seq<RNode>, roots: set<nat>)
    requires WellFormed(orig) && |from| == |orig|
    requires NewlyReached(orig, orig, from, roots)
    ensures FwdMap(from).Keys <= ReachSet(orig, roots)
  {
    forall i | i in FwdMap(from) ensures i in ReachSet(orig, roots) {
      assert !orig[i].BrokenHeart?;
    }
  }

  /** Every broken heart points into the new area, which is no longer than
      the old one. */
  lemma GcBounds(orig: seq<RNode>, from: seq<RNode>, to: seq<RNode>, origin: seq<nat>)
    requires GcInv(orig, from, to, origin, {})
    ensures |to| <= |orig|
    ensures forall i | 0 <= i < |from| && from[i].BrokenHeart? :: from[i].dst < |to|
  {
    forall i | 0 <= i < |from| && from[i].BrokenHeart? ensures from[i].dst < |to| {
      assert from[i] != orig[i];
    }
  }

  /** When nothing is pending any more, the new area is exactly the image of
      the moved nodes, the moved nodes are closed under references, and they
      are all reachable from `roots` when every move was. */
  lemma GcDone(orig: seq<RNode>, from: seq<RNode>, to: seq<RNode>, origin: seq<nat>, roots: set<nat>)
    requires GcInv(orig, from, to, origin, {})
    requires EnvsClosed(orig)
    requires forall r | r in roots :: r < |from| && from[r].BrokenHeart?
    requires NewlyReached(orig, orig, from, roots)
    ensures Moved(FwdMap(from), orig, to) && Onto(FwdMap(from), to)
    ensures WellFormed(to) && EnvsClosed(to)
    ensures |to| == |FwdMap(from).Keys|
    ensures FwdMap(from).Keys == ReachSet(orig, roots)
  {
    GcDoneMoved(orig, from, to, origin);
    MovedKeepsShape(FwdMap(from), orig, to);
    CountMoved(from);
    GcDoneReach(orig, from, to, origin, roots);
  }
}
