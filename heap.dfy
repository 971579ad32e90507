/** The nodes of the runtime's garbage-collected area and the facts about
    relocating them (src/runtime.rs, `Closure` and `RuntimeNode`).  Every
    reference between nodes is an index into the area; a collection moves
    the live nodes to new indices, described here by a forwarding map. */
module Heap {
  import opened Wrappers
  import opened Numbers
  import opened Symbols
  import Env

  /** A closure: its unique name, the native function that is its body (an
      opaque entry identifier), the environment it was built in, its number
      of parameters, and whether the last of them collects the rest. */
  datatype Closure = Closure(name: string, body: nat, env: nat, nargs: nat, variadic: bool)

  datatype RNode =
    | RSymbol(sym: Symbol)
    | RNumber(num: Number)
    | RPair(car: nat, cdr: nat)
    | REnv(name: string, vars: map<string, nat>, outer: Option<nat>)
    | RClosure(c: Closure)
    | BrokenHeart(dst: nat)   // the node has moved to `dst` in the other area

  /** The indices a node refers to. */
  function Children(n: RNode): set<nat> {
    match n
    case RPair(a, d) => {a, d}
    case REnv(_, vars, outer) => vars.Values + (if outer.Some? then {outer.value} else {})
    case RClosure(c) => {c.env}
    case _ => {}
  }

  predicate InBounds(n: RNode, k: nat) {
    forall c | c in Children(n) :: c < k
  }

  /** Binding a variable of a frame to an index inside the area keeps the
      frame's references inside it. */
  lemma BindKeepsBounds(n: RNode, key: string, value: nat, k: nat)
    requires n.REnv? && InBounds(n, k) && value < k
    ensures InBounds(n.(vars := n.vars[key := value]), k)
  {
    var m := n.vars[key := value];
    var n' := n.(vars := m);
    assert Children(n') == m.Values + (if n.outer.Some? then {n.outer.value} else {});
    forall c | c in Children(n') ensures c < k {
      if c !in m.Values {
        assert c in Children(n);
      } else {
        var x :| x in m && m[x] == c;
        if x != key { assert n.vars[x] in Children(n); }
      }
    }
  }

  /** Every reference stays inside the area and no node has moved away. */
  ghost predicate WellFormed(a: seq<RNode>) {
    forall i | 0 <= i < |a| :: !a[i].BrokenHeart? && InBounds(a[i], |a|)
  }

  /** Outer pointers of environments, and the environments of closures,
      lead to environments. */
  ghost predicate EnvsClosed(a: seq<RNode>) {
    forall i | 0 <= i < |a| ::
      (a[i].REnv? && a[i].outer.Some? ==> a[i].outer.value < |a| && a[a[i].outer.value].REnv?) &&
      (a[i].RClosure? ==> a[i].c.env < |a| && a[a[i].c.env].REnv?)
  }

  function FrameOf(n: RNode): Option<Env.Frame<nat>> {
    if n.REnv? then Some(Env.Frame(n.vars, n.outer)) else None
  }

  /** The area seen as a store of environment frames. */
  function Frames(a: seq<RNode>): (s: Env.Store<nat>)
    ensures |s| == |a|
    ensures forall i | 0 <= i < |a| :: s[i] == FrameOf(a[i])
  {
    seq(|a|, i requires 0 <= i < |a| => FrameOf(a[i]))
  }

  lemma FramesClosed(a: seq<RNode>)
    requires EnvsClosed(a)
    ensures Env.Closed(Frames(a))
  {
    var s := Frames(a);
    forall e | 0 <= e < |s| && s[e].Some? && s[e].value.outer.Some?
      ensures Env.IsFrame(s, s[e].value.outer.value)
    {
      assert a[e].REnv?;
    }
  }

  /** A node with every reference translated through `f`. */
  function Rename(n: RNode, f: map<nat, nat>): (r: RNode)
    requires Children(n) <= f.Keys
    ensures r.BrokenHeart? <==> n.BrokenHeart?
    ensures r.REnv? <==> n.REnv?
    ensures r.RPair? <==> n.RPair?
    ensures r.RClosure? <==> n.RClosure?
  {
    match n
    case RPair(a, d) => RPair(f[a], f[d])
    case REnv(name, vars, outer) =>
      REnv(name, map k | k in vars :: f[vars[k]], if outer.Some? then Some(f[outer.value]) else None)
    case RClosure(c) => RClosure(c.(env := f[c.env]))
    case _ => n
  }

  /** `f` relocates the nodes of area `a` it covers into area `b`: it is
      one-to-one, the nodes it covers refer only to covered nodes, and each
      covered node reappears at its new index with its references
      translated. The triggers keep the solver from following references
      on its own; `MovedAt` states one node's part. */
  ghost predicate Moved(f: map<nat, nat>, a: seq<RNode>, b: seq<RNode>) {
    (forall i {:trigger MovedNode(f, a, b, i)} | i in f :: MovedNode(f, a, b, i)) &&
    (forall i {:trigger Pre(f, f[i])} | i in f :: Pre(f, f[i]) == i)
  }

  /** The covered node `i` reappears at `f[i]` in `b` with its references
      translated. */
  ghost predicate MovedNode(f: map<nat, nat>, a: seq<RNode>, b: seq<RNode>, i: nat) {
    i in f && i < |a| && f[i] < |b| && Children(a[i]) <= f.Keys && b[f[i]] == Rename(a[i], f)
  }

  /** What `Moved` says about one covered node. */
  lemma MovedAt(f: map<nat, nat>, a: seq<RNode>, b: seq<RNode>, i: nat)
    requires Moved(f, a, b) && i in f
    ensures i < |a| && f[i] < |b| && Children(a[i]) <= f.Keys && b[f[i]] == Rename(a[i], f)
  {
    assert MovedNode(f, a, b, i);
  }

  /** An index that `f` sends to `j`; `f` is one-to-one exactly when this
      undoes `f` on every index it covers. */
  ghost function Pre(f: map<nat, nat>, j: nat): (i: nat)
    requires j in f.Values
    ensures i in f && f[i] == j
  {
    var i :| i in f && f[i] == j; i
  }

  /** Whether `f` covers every index of `b`. */
  ghost predicate Onto(f: map<nat, nat>, b: seq<RNode>) {
    forall j | 0 <= j < |b| :: j in f.Values
  }

  function Identity(n: nat): (f: map<nat, nat>)
    ensures forall i: nat :: i in f <==> i < n
    ensures forall i | i in f :: f[i] == i
  {
    if n == 0 then map[] else Identity(n - 1)[n - 1 := n - 1]
  }

  function Compose(f: map<nat, nat>, g: map<nat, nat>): (h: map<nat, nat>)
    ensures forall i :: i in h <==> i in f && f[i] in g
    ensures forall i | i in h :: h[i] == g[f[i]]
  {
    map i | i in f && f[i] in g :: g[f[i]]
  }

  function MapSeq(f: map<nat, nat>, s: seq<nat>): (r: seq<nat>)
    requires forall k | 0 <= k < |s| :: s[k] in f
    ensures |r| == |s|
    ensures forall k | 0 <= k < |s| :: r[k] == f[s[k]]
  {
    seq(|s|, k requires 0 <= k < |s| => f[s[k]])
  }

  function MapVals(f: map<nat, nat>, m: map<string, nat>): (r: map<string, nat>)
    requires forall n | n in m :: m[n] in f
    ensures r.Keys == m.Keys
    ensures forall n | n in m :: r[n] == f[m[n]]
  {
    map n | n in m :: f[m[n]]
  }

  predicate AllIn(s: seq<nat>, f: map<nat, nat>) {
    forall k | 0 <= k < |s| :: s[k] in f
  }

  predicate ValsIn(m: map<string, nat>, f: map<nat, nat>) {
    forall n | n in m :: m[n] in f
  }

  lemma RenameIdentity(n: RNode, k: nat)
    requires InBounds(n, k)
    ensures Children(n) <= Identity(k).Keys && Rename(n, Identity(k)) == n
  {
    var f := Identity(k);
    if n.REnv? {
      forall x | x in n.vars ensures n.vars[x] in f {
        assert n.vars[x] in Children(n);
      }
      var m := map x | x in n.vars :: f[n.vars[x]];
      assert m == n.vars;
    }
  }

  /** With no collection, the identity map relates the area to itself. */
  lemma MovedIdentity(a: seq<RNode>)
    requires WellFormed(a)
    ensures Moved(Identity(|a|), a, a) && Onto(Identity(|a|), a)
  {
    var f := Identity(|a|);
    forall i | i in f ensures Children(a[i]) <= f.Keys && a[f[i]] == Rename(a[i], f) {
      RenameIdentity(a[i], |a|);
    }
    forall j | 0 <= j < |a| ensures j in f.Values {
      assert f[j] == j;
    }
    forall i | i in f ensures Pre(f, f[i]) == i {
      assert f[Pre(f, f[i])] == f[i];
    }
  }

  lemma MapSeqIdentity(s: seq<nat>, k: nat)
    requires forall i | 0 <= i < |s| :: s[i] < k
    ensures AllIn(s, Identity(k)) && MapSeq(Identity(k), s) == s
  {
  }

  lemma MapValsIdentity(m: map<string, nat>, k: nat)
    requires forall n | n in m :: m[n] < k
    ensures ValsIn(m, Identity(k)) && MapVals(Identity(k), m) == m
  {
  }

  /** Appending a node to the target area keeps a relocation valid. */
  lemma MovedAppend(f: map<nat, nat>, a: seq<RNode>, b: seq<RNode>, x: RNode)
    requires Moved(f, a, b)
    ensures Moved(f, a, b + [x])
  {
    var b' := b + [x];
    forall i | i in f ensures MovedNode(f, a, b', i) {
      MovedAt(f, a, b, i);
      assert b'[f[i]] == b[f[i]];
    }
  }

  /** Overwriting a target node that no covered node was moved to keeps a
      relocation valid. */
  lemma MovedUpdateFresh(f: map<nat, nat>, a: seq<RNode>, b: seq<RNode>, j: nat, x: RNode)
    requires Moved(f, a, b) && j < |b|
    requires forall i | i in f :: f[i] != j
    ensures Moved(f, a, b[j := x])
  {
    var b' := b[j := x];
    forall i | i in f ensures MovedNode(f, a, b', i) {
      MovedAt(f, a, b, i);
      assert b'[f[i]] == b[f[i]];
    }
  }

  /** A relocation of `a'` is one of `a` without the node `j`, when the two
      areas differ only at `j` and no other node of `a` refers to `j`. */
  lemma MovedDrop(f: map<nat, nat>, a: seq<RNode>, a': seq<RNode>, b: seq<RNode>, j: nat)
    requires Moved(f, a', b) && |a| == |a'|
    requires forall i | 0 <= i < |a| && i != j :: a[i] == a'[i] && j !in Children(a[i])
    ensures Moved(f - {j}, a, b)
  {
    var g := f - {j};
    forall i | i in g ensures MovedNode(g, a, b, i) {
      MovedAt(f, a', b, i);
      assert Children(a[i]) <= g.Keys;
      assert Rename(a[i], g) == Rename(a[i], f);
    }
    forall i | i in g ensures Pre(g, g[i]) == i {
      assert Pre(f, f[i]) == i && Pre(f, f[Pre(g, g[i])]) == Pre(g, g[i]);
    }
  }

  lemma ChildrenRename(n: RNode, f: map<nat, nat>)
    requires Children(n) <= f.Keys
    ensures Children(Rename(n, f)) == set c | c in Children(n) :: f[c]
  {
    if n.REnv? {
      var r := Rename(n, f);
      var img := set c | c in Children(n) :: f[c];
      forall y | y in Children(r) ensures y in img {
        if y in r.vars.Values {
          var k :| k in r.vars && r.vars[k] == y;
          assert n.vars[k] in n.vars.Values;
        }
      }
      forall y | y in img ensures y in Children(r) {
        var c :| c in Children(n) && y == f[c];
        if c in n.vars.Values {
          var k :| k in n.vars && n.vars[k] == c;
          assert r.vars[k] == y;
        }
      }
    }
  }

  lemma RenameCompose(n: RNode, f: map<nat, nat>, g: map<nat, nat>)
    requires Children(n) <= f.Keys
    requires forall c | c in Children(n) :: f[c] in g
    ensures Children(n) <= Compose(f, g).Keys
    ensures Children(Rename(n, f)) <= g.Keys
    ensures Rename(Rename(n, f), g) == Rename(n, Compose(f, g))
  {
    ChildrenRename(n, f);
    if n.REnv? {
      RenameComposeEnv(n, f, g);
    }
  }

  lemma RenameComposeEnv(n: RNode, f: map<nat, nat>, g: map<nat, nat>)
    requires n.REnv? && Children(n) <= f.Keys
    requires forall c | c in Children(n) :: f[c] in g
    requires Children(Rename(n, f)) <= g.Keys
    ensures Children(n) <= Compose(f, g).Keys
    ensures Rename(Rename(n, f), g) == Rename(n, Compose(f, g))
  {
    var v := n.vars;
    forall k | k in v ensures v[k] in f && f[v[k]] in g {
      assert v[k] in v.Values;
    }
    var r := Rename(n, f);
    assert r.vars == MapVals(f, v);
    MapValsCompose(f, g, v);
    assert Rename(r, g).vars == MapVals(g, r.vars);
    assert Rename(n, Compose(f, g)).vars == MapVals(Compose(f, g), v);
  }

  /** Two successive relocations compose into one, over the nodes that
      survive both. */
  lemma MovedCompose(f: map<nat, nat>, a: seq<RNode>, b: seq<RNode>, g: map<nat, nat>, c: seq<RNode>)
    requires Moved(f, a, b) && Moved(g, b, c)
    ensures Moved(Compose(f, g), a, c)
  {
    var h := Compose(f, g);
    forall i | i in h
      ensures i < |a| && h[i] < |c| && Children(a[i]) <= h.Keys && c[h[i]] == Rename(a[i], h)
    {
      MovedAt(f, a, b, i);
      MovedAt(g, b, c, f[i]);
      ChildrenRename(a[i], f);
      assert Children(b[f[i]]) <= g.Keys;
      forall x | x in Children(a[i]) ensures f[x] in g {
        assert f[x] in Children(b[f[i]]);
      }
      RenameCompose(a[i], f, g);
    }
    forall i | i in h ensures Pre(h, h[i]) == i {
      var i' := Pre(h, h[i]);
      assert g[f[i']] == g[f[i]];
      assert Pre(g, g[f[i']]) == f[i'] && Pre(g, g[f[i]]) == f[i];
      assert Pre(f, f[i']) == i' && Pre(f, f[i]) == i;
    }
  }

  lemma MapSeqCompose(f: map<nat, nat>, g: map<nat, nat>, s: seq<nat>)
    requires AllIn(s, f) && AllIn(MapSeq(f, s), g)
    ensures AllIn(s, Compose(f, g))
    ensures MapSeq(Compose(f, g), s) == MapSeq(g, MapSeq(f, s))
  {
    forall k | 0 <= k < |s| ensures s[k] in Compose(f, g) {
      assert MapSeq(f, s)[k] == f[s[k]];
    }
  }

  lemma MapValsCompose(f: map<nat, nat>, g: map<nat, nat>, m: map<string, nat>)
    requires ValsIn(m, f) && ValsIn(MapVals(f, m), g)
    ensures ValsIn(m, Compose(f, g))
    ensures MapVals(Compose(f, g), m) == MapVals(g, MapVals(f, m))
  {
    forall n | n in m ensures m[n] in Compose(f, g) {
      assert MapVals(f, m)[n] == f[m[n]];
    }
  }

  /** A relocation that covers the whole target area carries well-formedness
      and closed environments over to it. */
  lemma MovedKeepsShape(f: map<nat, nat>, a: seq<RNode>, b: seq<RNode>)
    requires Moved(f, a, b) && Onto(f, b) && WellFormed(a) && EnvsClosed(a)
    ensures WellFormed(b) && EnvsClosed(b)
  {
    forall j | 0 <= j < |b|
      ensures !b[j].BrokenHeart? && InBounds(b[j], |b|)
      ensures (b[j].REnv? && b[j].outer.Some? ==> b[j].outer.value < |b| && b[b[j].outer.value].REnv?)
      ensures (b[j].RClosure? ==> b[j].c.env < |b| && b[b[j].c.env].REnv?)
    {
      assert j in f.Values;
      var i :| i in f && f[i] == j;
      MovedAt(f, a, b, i);
      ChildrenRename(a[i], f);
      forall c | c in Children(a[i]) ensures c < |a| && f[c] < |b| && Children(a[c]) <= f.Keys && b[f[c]] == Rename(a[c], f) {
        MovedAt(f, a, b, c);
      }
      if a[i].REnv? && a[i].outer.Some? {
        assert a[i].outer.value in Children(a[i]);
      }
      if a[i].RClosure? {
        assert a[i].c.env in Children(a[i]);
      }
    }
  }

  // ---------------------------------------------------------------------
  // Lists in the area

  /** `l` is a proper list in area `a` whose elements are `xs`. */
  ghost predicate IsList(a: seq<RNode>, l: nat, xs: seq<nat>)
    decreases |xs|
  {
    l < |a| &&
    if xs == [] then a[l] == RSymbol(Nil)
    else a[l].RPair? && a[l].car == xs[0] && IsList(a, a[l].cdr, xs[1..])
  }

  /** A relocation that covers a list moves it to a list of the relocated
      elements. */
  lemma {:induction false} IsListMoved(f: map<nat, nat>, a: seq<RNode>, b: seq<RNode>, l: nat, xs: seq<nat>)
    requires Moved(f, a, b) && IsList(a, l, xs) && l in f
    ensures AllIn(xs, f) && IsList(b, f[l], MapSeq(f, xs))
    decreases |xs|
  {
    MovedAt(f, a, b, l);
    if xs != [] {
      assert a[l].cdr in Children(a[l]) && xs[0] in Children(a[l]);
      IsListMoved(f, a, b, a[l].cdr, xs[1..]);
      assert MapSeq(f, xs)[1..] == MapSeq(f, xs[1..]);
    }
  }

  /** A list survives appending a node and overwriting a node outside it. */
  lemma {:induction false} IsListAppend(a: seq<RNode>, x: RNode, l: nat, xs: seq<nat>)
    requires IsList(a, l, xs)
    ensures IsList(a + [x], l, xs)
    decreases |xs|
  {
    if xs != [] { IsListAppend(a, x, a[l].cdr, xs[1..]); }
  }

  /** Overwriting an environment keeps every list intact, since list cells
      are pairs and the nil symbol. */
  lemma {:induction false} IsListUpdateEnv(a: seq<RNode>, j: nat, x: RNode, l: nat, xs: seq<nat>)
    requires IsList(a, l, xs) && j < |a| && a[j].REnv?
    ensures IsList(a[j := x], l, xs)
    decreases |xs|
  {
    if xs != [] { IsListUpdateEnv(a, j, x, a[l].cdr, xs[1..]); }
  }

  /** The cells of a list, the nil at its end included. */
  ghost function ListCells(a: seq<RNode>, l: nat, xs: seq<nat>): set<nat>
    requires IsList(a, l, xs)
    decreases |xs|
  {
    if xs == [] then {l} else {l} + ListCells(a, a[l].cdr, xs[1..])
  }

  // ---------------------------------------------------------------------
  // Reachability

  ghost predicate IsPath(a: seq<RNode>, p: seq<nat>) {
    |p| > 0 &&
    (forall k | 0 <= k < |p| :: p[k] < |a|) &&
    (forall k, l | 0 <= k && l == k + 1 && l < |p| :: p[l] in Children(a[p[k]]))
  }

  /** Node `i` can be reached from one of the nodes in `s`. */
  ghost predicate Reachable(a: seq<RNode>, s: set<nat>, i: nat) {
    exists p :: IsPath(a, p) && p[0] in s && p[|p| - 1] == i
  }

  ghost function ReachSet(a: seq<RNode>, s: set<nat>): set<nat> {
    set i | 0 <= i < |a| && Reachable(a, s, i)
  }

  lemma ReachableStart(a: seq<RNode>, s: set<nat>, i: nat)
    requires i in s && i < |a|
    ensures Reachable(a, s, i)
  {
    assert IsPath(a, [i]);
  }

  /** Anything reachable from a child is reachable from its parent. */
  lemma ReachableStep(a: seq<RNode>, s: set<nat>, p: nat, c: nat, i: nat)
    requires p in s && p < |a| && c in Children(a[p]) && Reachable(a, {c}, i)
    ensures Reachable(a, s, i)
  {
    var q :| IsPath(a, q) && q[0] in {c} && q[|q| - 1] == i;
    var q' := [p] + q;
    assert IsPath(a, q');
  }

  lemma ReachableWiden(a: seq<RNode>, s: set<nat>, t: set<nat>, i: nat)
    requires Reachable(a, s, i) && s <= t
    ensures Reachable(a, t, i)
  {
  }

  /** A set of nodes that contains the starting nodes and is closed under
      references contains every reachable node. */
  lemma ReachInClosed(a: seq<RNode>, s: set<nat>, c: set<nat>)
    requires s <= c
    requires forall x | x in c :: x < |a| && Children(a[x]) <= c
    ensures ReachSet(a, s) <= c
  {
    forall i | i in ReachSet(a, s) ensures i in c {
      var p :| IsPath(a, p) && p[0] in s && p[|p| - 1] == i;
      PathInClosed(a, p, c, |p| - 1);
    }
  }

  lemma {:induction false} PathInClosed(a: seq<RNode>, p: seq<nat>, c: set<nat>, k: nat)
    requires IsPath(a, p) && p[0] in c && k < |p|
    requires forall x | x in c :: x < |a| && Children(a[x]) <= c
    ensures p[k] in c
  {
    if k > 0 { PathInClosed(a, p, c, k - 1); }
  }
}
