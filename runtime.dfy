/** The runtime of compiled programs (src/runtime.rs): an operand stack of
    node indices, a two-space garbage-collected node area, a registry of
    named roots and the set of loaded packages.  Every operation that may
    allocate may also collect, and a collection moves nodes; such
    operations return, as a ghost result, the forwarding map `fwd` that says
    where each surviving node went. */
module Runtime {
  import opened Wrappers
  import opened Numbers
  import opened Symbols
  import opened Errors
  import opened Heap
  import opened Collector
  import opened Text
  import Env
  import Util

  const CUR_ENV: string := "__cur_env"
  const TOP_ENV: string := "__top_env"

  /** The indices the collector treats as live: the stack and the roots. */
  ghost function RootSet(s: seq<nat>, r: map<string, nat>): set<nat> {
    (set k | 0 <= k < |s| :: s[k]) + r.Values
  }

  /** The nodes a collection keeps are exactly those reachable from `live`. */
  ghost predicate Survivors(f: map<nat, nat>, a: seq<RNode>, live: set<nat>) {
    f.Keys == ReachSet(a, live)
  }

  /** A relocation of the area that the stack and the roots followed. */
  ghost predicate Relocated(f: map<nat, nat>, a: seq<RNode>, a': seq<RNode>,
                            s: seq<nat>, s': seq<nat>, r: map<string, nat>, r': map<string, nat>) {
    Moved(f, a, a') && AllIn(s, f) && s' == MapSeq(f, s) && ValsIn(r, f) && r' == MapVals(f, r)
  }

  /** Allocating without collecting: the identity relocation. */
  lemma RelocatedIdentity(a: seq<RNode>, s: seq<nat>, r: map<string, nat>)
    requires WellFormed(a)
    requires forall k | 0 <= k < |s| :: s[k] < |a|
    requires forall n | n in r :: r[n] < |a|
    ensures Relocated(Identity(|a|), a, a, s, s, r, r) && Onto(Identity(|a|), a)
  {
    MovedIdentity(a);
    MapSeqIdentity(s, |a|);
    MapValsIdentity(r, |a|);
  }

  /** A node appended after a relocation keeps the relocation valid. */
  lemma RelocatedAppend(f: map<nat, nat>, a: seq<RNode>, a': seq<RNode>, x: RNode,
                        s: seq<nat>, s': seq<nat>, r: map<string, nat>, r': map<string, nat>)
    requires Relocated(f, a, a', s, s', r, r')
    ensures Relocated(f, a, a' + [x], s, s', r, r')
  {
    MovedAppend(f, a, a', x);
  }

  /** Two relocations in a row are one relocation. */
  lemma RelocatedCompose(f: map<nat, nat>, g: map<nat, nat>, a: seq<RNode>, b: seq<RNode>, c: seq<RNode>,
                         s: seq<nat>, s': seq<nat>, s'': seq<nat>,
                         r: map<string, nat>, r': map<string, nat>, r'': map<string, nat>)
    requires Relocated(f, a, b, s, s', r, r') && Relocated(g, b, c, s', s'', r', r'')
    ensures Relocated(Compose(f, g), a, c, s, s'', r, r'')
  {
    MovedCompose(f, a, b, g, c);
    MapSeqCompose(f, g, s);
    MapValsCompose(f, g, r);
  }

  class Runtime {
    var stack: seq<nat>
    var area: seq<RNode>      // `areas.0`, the half in use
    var spare: seq<RNode>     // `areas.1`, the half a collection copies into
    var size: nat
    var roots: map<string, nat>
    var packages: set<string>

    /** The area never outgrows its capacity, holds no broken heart, refers
        only to its own nodes, and the stack and the roots point into it. */
    ghost predicate Valid()
      reads this
    {
      size > 0 && |area| <= size && WellFormed(area) && EnvsClosed(area) &&
      (forall k | 0 <= k < |stack| :: stack[k] < |area|) &&
      (forall n | n in roots :: roots[n] < |area|)
    }

    /** A node that may be added to the area as it stands. */
    ghost predicate Insertable(n: RNode)
      reads this
    {
      !n.BrokenHeart? && InBounds(n, |area|) &&
      (n.REnv? && n.outer.Some? ==> n.outer.value < |area| && area[n.outer.value].REnv?) &&
      (n.RClosure? ==> n.c.env < |area| && area[n.c.env].REnv?)
    }

    /** `Runtime::new`. */
    constructor(size: nat)
      requires size > 0
      ensures Valid()
      ensures stack == [] && area == [] && spare == [] && this.size == size && roots == map[] && packages == {}
    {
      stack := [];
      area := [];
      spare := [];
      this.size := size;
      roots := map[];
      packages := {};
    }

    /** `clear`: empties everything but keeps the capacity. */
    method Clear()
      requires Valid()
      modifies this
      ensures Valid()
      ensures stack == [] && area == [] && spare == [] && size == old(size) && roots == map[] && packages == {}
    {
      roots := map[];
      stack := [];
      packages := {};
      area := [];
      spare := [];
    }

    // -------------------------------------------------------------------
    // The stack machine

    method Push(i: nat)
      requires Valid() && i < |area|
      modifies this`stack
      ensures Valid() && stack == old(stack) + [i]
    {
      stack := stack + [i];
    }

    /** `pop`; an empty stack panics with "Stack underflow". */
    method Pop() returns (i: nat)
      requires Valid() && |stack| > 0
      modifies this`stack
      ensures Valid()
      ensures i == old(stack)[|old(stack)| - 1] && stack == old(stack)[..|old(stack)| - 1]
      ensures i < |area|
    {
      i := stack[|stack| - 1];
      stack := stack[..|stack| - 1];
    }

    /** `top`: the last pushed index, nothing removed. */
    function Top(): (i: nat)
      reads this
      requires |stack| > 0
      ensures i in stack && i == stack[|stack| - 1]
    {
      stack[|stack| - 1]
    }

    /** `swap`: exchanges the two top entries only. */
    method Swap()
      requires Valid() && |stack| >= 2
      modifies this`stack
      ensures Valid()
      ensures var n := |old(stack)|;
        stack == old(stack)[..n - 2] + [old(stack)[n - 1], old(stack)[n - 2]]
    {
      var n := |stack|;
      stack := stack[..n - 2] + [stack[n - 1], stack[n - 2]];
    }

    // -------------------------------------------------------------------
    // Roots

    /** `add_root`: the name must be new. */
    method AddRoot(name: string, value: nat)
      requires Valid() && name !in roots && value < |area|
      modifies this`roots
      ensures Valid() && roots == old(roots)[name := value]
    {
      roots := roots[name := value];
    }

    /** `set_root`: inserts or overwrites. */
    method SetRoot(name: string, value: nat)
      requires Valid() && value < |area|
      modifies this`roots
      ensures Valid() && roots == old(roots)[name := value]
    {
      roots := roots[name := value];
    }

    /** `remove_root`: the name must be present; only that entry goes. */
    method RemoveRoot(name: string) returns (value: nat)
      requires Valid() && name in roots
      modifies this`roots
      ensures Valid() && value == old(roots)[name] && roots == old(roots) - {name}
    {
      value := roots[name];
      roots := roots - {name};
    }

    /** `get_root`: the name must be present. */
    function GetRoot(name: string): (value: nat)
      reads this
      requires Valid() && name in roots
      ensures value < |area|
    {
      roots[name]
    }

    // -------------------------------------------------------------------
    // Packages

    /** `add_package`: asserts the name was not loaded before. */
    method AddPackage(name: string)
      requires name !in packages
      modifies this`packages
      ensures packages == old(packages) + {name}
    {
      packages := packages + {name};
    }

    predicate HasPackage(name: string)
      reads this
    {
      name in packages
    }

    // -------------------------------------------------------------------
    // Getters

    /** `get_free`: the number of nodes in use. */
    function GetFree(): nat
      reads this
    {
      |area|
    }

    function GetSize(): nat
      reads this
    {
      size
    }

    /** `get_node`: an index outside the area panics. */
    function GetNode(active: bool, index: nat): (n: RNode)
      reads this
      requires index < (if active then |area| else |spare|)
      ensures n == (if active then area[index] else spare[index])
    {
      if active then area[index] else spare[index]
    }

    /** `get_c_func`: the body of a closure. */
    function GetCFunc(index: nat): (r: Result<nat, Error>)
      reads this
      requires index < |area|
      ensures r.Ok? <==> area[index].RClosure?
      ensures r.Ok? ==> r.value == area[index].c.body
      ensures r.Err? ==> r.error == NotANumber
    {
      if area[index].RClosure? then Ok(area[index].c.body) else Err(NotANumber)
    }

    function GetNumber(index: nat): (r: Result<Number, Error>)
      reads this
      requires index < |area|
      ensures r.Ok? <==> area[index].RNumber?
      ensures r.Ok? ==> r.value == area[index].num
      ensures r.Err? ==> r.error == NotANumber
    {
      if area[index].RNumber? then Ok(area[index].num) else Err(NotANumber)
    }

    function GetSymbol(index: nat): (r: Result<Symbol, Error>)
      reads this
      requires index < |area|
      ensures r.Ok? <==> area[index].RSymbol?
      ensures r.Ok? ==> r.value == area[index].sym
      ensures r.Err? ==> r.error == NotASymbol
    {
      if area[index].RSymbol? then Ok(area[index].sym) else Err(NotASymbol)
    }

    function GetPair(index: nat): (r: Result<(nat, nat), Error>)
      reads this
      requires index < |area|
      ensures r.Ok? <==> area[index].RPair?
      ensures r.Ok? ==> r.value == (area[index].car, area[index].cdr)
      ensures r.Err? ==> r.error == NotAPair
    {
      if area[index].RPair? then Ok((area[index].car, area[index].cdr)) else Err(NotAPair)
    }

    // -------------------------------------------------------------------
    // Allocation and collection

    /** `new_node`: asserts there is room, and appends. */
    method NewNode(node: RNode) returns (idx: nat)
      requires Valid() && |area| < size && Insertable(node)
      modifies this`area
      ensures Valid() && idx == |old(area)| && area == old(area) + [node]
    {
      idx := |area|;
      area := area + [node];
    }

    /** `gc_dfs`: copies the node at `cur` and, depth first, everything it
        refers to, leaving broken hearts behind; a node that has already
        moved is not copied again. */
    method GcDfs(ghost orig: seq<RNode>, ghost origin: seq<nat>, ghost pending: set<nat>, cur: nat)
      returns (dst: nat, ghost origin': seq<nat>)
      requires GcInv(orig, area, spare, origin, pending) && cur < |area|
      modifies this`area, this`spare
      ensures GcInv(orig, area, spare, origin', pending)
      ensures Keeps(old(area), area) && NewlyReached(orig, old(area), area, {cur})
      ensures area[cur] == BrokenHeart(dst)
      ensures |spare| >= |old(spare)|
      decreases |orig| - |spare|, 0
    {
      if area[cur].BrokenHeart? {
        dst := area[cur].dst;
        origin' := origin;
        return;
      }
      var node := area[cur];
      dst := |spare|;
      GcForward(orig, area, spare, origin, pending, cur);
      ForwardReached(orig, area, cur, dst);

      spare := spare + [node];
      area := area[cur := BrokenHeart(dst)];
      origin' := origin + [cur];
      ghost var mid := area;
      var content;
      content, origin' := GcChildren(orig, origin', pending, cur, node);
      KeepsReachedTrans(orig, old(area), mid, area, {cur});
      GcFinish(orig, area, spare, origin', pending, cur, dst);
      spare := spare[dst := content];
    }

    /** The part of `gc_dfs` that copies the nodes `node` refers to and
        builds its translated copy. */
    method GcChildren(ghost orig: seq<RNode>, ghost origin: seq<nat>, ghost pending: set<nat>, ghost cur: nat,
                      node: RNode)
      returns (content: RNode, ghost origin': seq<nat>)
      requires GcInv(orig, area, spare, origin, pending + {cur})
      requires cur < |orig| && node == orig[cur]
      modifies this`area, this`spare
      ensures GcInv(orig, area, spare, origin', pending + {cur})
      ensures Keeps(old(area), area) && NewlyReached(orig, old(area), area, {cur})
      ensures |spare| >= |old(spare)|
      ensures Children(orig[cur]) <= FwdMap(area).Keys && content == Rename(orig[cur], FwdMap(area))
      decreases |orig| - |spare|, 4
    {
      origin' := origin;
      match node {
        case RClosure(c) =>
          var env;
          env, origin' := GcChild(orig, origin', pending, cur, c.env);
          content := RClosure(c.(env := env));
        case REnv(_, _, _) =>
          content, origin' := GcEnvChildren(orig, origin', pending, cur, node);
        case RPair(a, d) =>
          content, origin' := GcPairChildren(orig, origin', pending, cur, node);
        case RSymbol(_) =>
          content := node;
        case RNumber(_) =>
          content := node;
        case BrokenHeart(_) =>
          assert false;
          content := node;
      }
    }

    /** `gc_dfs` on an environment: its variables, then its outer environment. */
    method GcEnvChildren(ghost orig: seq<RNode>, ghost origin: seq<nat>, ghost pending: set<nat>, ghost cur: nat,
                         node: RNode)
      returns (content: RNode, ghost origin': seq<nat>)
      requires GcInv(orig, area, spare, origin, pending + {cur})
      requires cur < |orig| && node == orig[cur] && node.REnv?
      modifies this`area, this`spare
      ensures GcInv(orig, area, spare, origin', pending + {cur})
      ensures Keeps(old(area), area) && NewlyReached(orig, old(area), area, {cur})
      ensures |spare| >= |old(spare)|
      ensures Children(orig[cur]) <= FwdMap(area).Keys && content == Rename(orig[cur], FwdMap(area))
      decreases |orig| - |spare|, 3
    {
      var newVars;
      newVars, origin' := GcVars(orig, origin, pending, cur, node.vars);
      var newOuter := None;
      if node.outer.Some? {
        ghost var before := area;
        var o;
        o, origin' := GcChild(orig, origin', pending, cur, node.outer.value);
        KeepsMapped(before, area, node.vars, newVars);
        KeepsReachedTrans(orig, old(area), before, area, {cur});
        newOuter := Some(o);
      }
      content := REnv(node.name, newVars, newOuter);
      EnvCopied(orig[cur], area, newVars, newOuter);
    }

    /** `gc_dfs` on a pair: its car, then its cdr. */
    method GcPairChildren(ghost orig: seq<RNode>, ghost origin: seq<nat>, ghost pending: set<nat>, ghost cur: nat,
                          node: RNode)
      returns (content: RNode, ghost origin': seq<nat>)
      requires GcInv(orig, area, spare, origin, pending + {cur})
      requires cur < |orig| && node == orig[cur] && node.RPair?
      modifies this`area, this`spare
      ensures GcInv(orig, area, spare, origin', pending + {cur})
      ensures Keeps(old(area), area) && NewlyReached(orig, old(area), area, {cur})
      ensures |spare| >= |old(spare)|
      ensures Children(orig[cur]) <= FwdMap(area).Keys && content == Rename(orig[cur], FwdMap(area))
      decreases |orig| - |spare|, 3
    {
      var na, nd;
      na, origin' := GcChild(orig, origin, pending, cur, node.car);
      ghost var before := area;
      nd, origin' := GcChild(orig, origin', pending, cur, node.cdr);
      KeepsReachedTrans(orig, old(area), before, area, {cur});
      content := RPair(na, nd);
      PairCopied(node, before, area, na, nd);
    }

    /** One recursive call of `gc_dfs` on a node `cur` refers to. */
    method GcChild(ghost orig: seq<RNode>, ghost origin: seq<nat>, ghost pending: set<nat>, ghost cur: nat,
                   child: nat)
      returns (dst: nat, ghost origin': seq<nat>)
      requires GcInv(orig, area, spare, origin, pending + {cur})
      requires cur < |orig| && child in Children(orig[cur])
      modifies this`area, this`spare
      ensures GcInv(orig, area, spare, origin', pending + {cur})
      ensures Keeps(old(area), area) && NewlyReached(orig, old(area), area, {cur})
      ensures |spare| >= |old(spare)|
      ensures child < |area| && area[child] == BrokenHeart(dst)
      decreases |orig| - |spare|, 1
    {
      assert child < |area|;
      dst, origin' := GcDfs(orig, origin, pending + {cur}, child);
      NewlyLift(orig, old(area), area, cur, child);
    }

    /** The loop of `gc_dfs` over an environment's variables. */
    method GcVars(ghost orig: seq<RNode>, ghost origin: seq<nat>, ghost pending: set<nat>, ghost cur: nat,
                  vars: map<string, nat>)
      returns (newVars: map<string, nat>, ghost origin': seq<nat>)
      requires GcInv(orig, area, spare, origin, pending + {cur})
      requires cur < |orig| && vars.Values <= Children(orig[cur])
      modifies this`area, this`spare
      ensures GcInv(orig, area, spare, origin', pending + {cur})
      ensures Keeps(old(area), area) && NewlyReached(orig, old(area), area, {cur})
      ensures |spare| >= |old(spare)|
      ensures newVars.Keys == vars.Keys
      ensures forall x | x in vars :: vars[x] < |area| && area[vars[x]] == BrokenHeart(newVars[x])
      decreases |orig| - |spare|, 2
    {
      newVars := map[];
      origin' := origin;
      var rest := vars.Keys;
      while rest != {}
        invariant rest <= vars.Keys && newVars.Keys == vars.Keys - rest
        invariant GcInv(orig, area, spare, origin', pending + {cur})
        invariant Keeps(old(area), area) && NewlyReached(orig, old(area), area, {cur})
        invariant |spare| >= |old(spare)|
        invariant forall x | x in newVars :: x in vars && vars[x] < |area| && area[vars[x]] == BrokenHeart(newVars[x])
        decreases rest
      {
        var name :| name in rest;
        assert vars[name] in vars.Values;
        ghost var before := area;
        var nv;
        nv, origin' := GcChild(orig, origin', pending, cur, vars[name]);
        KeepsMapped(before, area, vars, newVars);
        KeepsReachedTrans(orig, old(area), before, area, {cur});
        newVars := newVars[name := nv];
        rest := rest - {name};
      }
    }

    /** `gc`: copies everything reachable from the roots (in the map's order)
        and from the stack (bottom to top) into the other half, rewrites the
        roots and the stack, swaps the halves, and doubles the capacity when
        nothing was reclaimed. */
    method Gc() returns (ghost fwd: map<nat, nat>)
      requires Valid()
      modifies this`area, this`spare, this`stack, this`roots, this`size
      ensures Valid()
      ensures Relocated(fwd, old(area), area, old(stack), stack, old(roots), roots) && Onto(fwd, area)
      ensures Survivors(fwd, old(area), RootSet(old(stack), old(roots)))
      ensures |area| == |fwd.Keys|
      ensures size == (if |area| == |old(area)| then 2 * old(size) else old(size))
      ensures |spare| == |old(area)| && FwdMap(spare) == fwd
    {
      var oldFree := |area|;
      fwd := GcCopy();
      area, spare := spare, area;
      if |area| == oldFree {
        size := size * 2;
      }
    }

    /** Everything `gc` does before it swaps the halves: the live part of
        `area` is copied into `spare`, leaving a broken heart at every old
        place, and the stack and the roots are rewritten. */
    method GcCopy() returns (ghost fwd: map<nat, nat>)
      requires Valid()
      modifies this`area, this`spare, this`stack, this`roots
      ensures Relocated(fwd, old(area), spare, old(stack), stack, old(roots), roots) && Onto(fwd, spare)
      ensures Survivors(fwd, old(area), RootSet(old(stack), old(roots)))
      ensures |spare| == |fwd.Keys| && |spare| <= |old(area)|
      ensures WellFormed(spare) && EnvsClosed(spare)
      ensures (forall k | 0 <= k < |stack| :: stack[k] < |spare|) && (forall n | n in roots :: roots[n] < |spare|)
      ensures |area| == |old(area)| && FwdMap(area) == fwd
    {
      ghost var orig := area;
      ghost var live := RootSet(stack, roots);
      spare := [];
      var entries := Util.MapToAssocList(roots);
      GcBegin(orig, stack, roots, entries);
      ghost var origin := GcRoots(orig, [], live, entries);
      ghost var mid := area;
      origin := GcStack(orig, origin, live);
      RootsKept(entries, old(roots), roots, mid, area);
      RootsEnd(entries, old(roots), roots, area);
      GcConclude(orig, area, spare, origin, old(stack), stack, old(roots), roots);
      fwd := FwdMap(area);
    }

    /** The first loop of `gc`: every root is copied and rewritten, in the
        order of the association list built from the roots. */
    method GcRoots(ghost orig: seq<RNode>, ghost origin: seq<nat>, ghost live: set<nat>, entries: seq<(string, nat)>)
      returns (ghost origin': seq<nat>)
      requires GcInv(orig, area, spare, origin, {}) && Keeps(orig, area) && NewlyReached(orig, orig, area, live)
      requires RootsCopied(entries, 0, roots, roots, area)
      requires forall i | 0 <= i < |entries| :: entries[i].1 in live && entries[i].1 < |area|
      modifies this`area, this`spare, this`roots
      ensures GcInv(orig, area, spare, origin', {}) && Keeps(orig, area) && NewlyReached(orig, orig, area, live)
      ensures Keeps(old(area), area)
      ensures RootsCopied(entries, |entries|, old(roots), roots, area)
    {
      origin' := origin;
      var k := 0;
      while k < |entries|
        invariant 0 <= k <= |entries|
        invariant GcInv(orig, area, spare, origin', {}) && Keeps(orig, area) && NewlyReached(orig, orig, area, live)
        invariant Keeps(old(area), area)
        invariant RootsCopied(entries, k, old(roots), roots, area)
      {
        var (name, root) := entries[k];
        ghost var before := area;
        var newRoot;
        newRoot, origin' := GcDfs(orig, origin', {}, root);
        AfterRoot(orig, before, area, root, live);
        KeepsTrans(old(area), before, area);
        RootsStep(entries, k, old(roots), roots, before, area, newRoot);
        roots := roots[name := newRoot];
        k := k + 1;
      }
    }

    /** The second loop of `gc`: the stack is rebuilt from the copies of its
        entries, bottom to top. */
    method GcStack(ghost orig: seq<RNode>, ghost origin: seq<nat>, ghost live: set<nat>)
      returns (ghost origin': seq<nat>)
      requires GcInv(orig, area, spare, origin, {}) && Keeps(orig, area) && NewlyReached(orig, orig, area, live)
      requires forall k | 0 <= k < |stack| :: stack[k] in live && stack[k] < |area|
      modifies this`area, this`spare, this`stack
      ensures GcInv(orig, area, spare, origin', {}) && Keeps(orig, area) && NewlyReached(orig, orig, area, live)
      ensures Keeps(old(area), area)
      ensures |stack| == |old(stack)|
      ensures forall k | 0 <= k < |stack| :: old(stack)[k] < |area| && area[old(stack)[k]] == BrokenHeart(stack[k])
    {
      var oldStack := stack;
      origin' := origin;
      stack := [];
      var j := 0;
      while j < |oldStack|
        invariant 0 <= j <= |oldStack|
        invariant GcInv(orig, area, spare, origin', {}) && Keeps(orig, area) && NewlyReached(orig, orig, area, live)
        invariant Keeps(old(area), area)
        invariant |stack| == j
        invariant forall i | 0 <= i < j :: oldStack[i] < |area| && area[oldStack[i]] == BrokenHeart(stack[i])
      {
        ghost var before := area;
        var newElem;
        newElem, origin' := GcDfs(orig, origin', {}, oldStack[j]);
        AfterRoot(orig, before, area, oldStack[j], live);
        KeepsTrans(old(area), before, area);
        KeepsListed(before, area, oldStack, stack);
        ghost var prev := stack;
        stack := stack + [newElem];
        forall i | 0 <= i < j + 1 ensures oldStack[i] < |area| && area[oldStack[i]] == BrokenHeart(stack[i]) {
          if i < j {
            assert stack[i] == prev[i];
          }
        }
        j := j + 1;
      }
    }

    /** `try_gc`: collects only when the area is full; afterwards there is
        room for one more node. */
    method TryGc() returns (ghost fwd: map<nat, nat>)
      requires Valid()
      modifies this`area, this`spare, this`stack, this`roots, this`size
      ensures Valid() && |area| < size
      ensures Relocated(fwd, old(area), area, old(stack), stack, old(roots), roots) && Onto(fwd, area)
      ensures |old(area)| < old(size) ==>
        area == old(area) && stack == old(stack) && roots == old(roots) && size == old(size) && spare == old(spare)
      ensures |old(area)| >= old(size) ==> fwd.Keys == ReachSet(old(area), RootSet(old(stack), old(roots)))
    {
      if |area| < size {
        RelocatedIdentity(area, stack, roots);
        fwd := Identity(|area|);
        return;
      }
      fwd := Gc();
    }

    /** `new_node_with_gc`.  When a collection can happen the node must not
        refer to other nodes, since the source does not relocate the node it
        was given. */
    method NewNodeWithGc(node: RNode) returns (idx: nat, ghost fwd: map<nat, nat>)
      requires Valid() && Insertable(node) && (Children(node) == {} || |area| < size)
      modifies this`area, this`spare, this`stack, this`roots, this`size
      ensures Valid()
      ensures Relocated(fwd, old(area), area, old(stack), stack, old(roots), roots)
      ensures idx == |area| - 1 && area[idx] == node && Onto(fwd, area[..idx])
      ensures |old(area)| < old(size) ==> area == old(area) + [node] && stack == old(stack) && roots == old(roots)
    {
      fwd := TryGc();
      ghost var mid := area;
      assert Insertable(node) by {
        assert Children(node) == {} || mid == old(area);
      }
      idx := NewNode(node);
      RelocatedAppend(fwd, old(area), mid, node, old(stack), stack, old(roots), roots);
      assert area[..idx] == mid;
    }

    /** `load_to` for a runtime node: allocate it, collecting first if the
        area is full, and push its index. */
    method LoadTo(node: RNode) returns (ghost fwd: map<nat, nat>)
      requires Valid() && Insertable(node) && (Children(node) == {} || |area| < size)
      modifies this`area, this`spare, this`stack, this`roots, this`size
      ensures Valid()
      ensures Pushed(fwd, old(area), old(stack), old(roots), area, stack, roots, node)
    {
      var idx;
      idx, fwd := NewNodeWithGc(node);
      ghost var s1 := stack;
      Push(idx);
      assert stack[..|s1|] == s1;
    }

    /** `new_pair`: collects, if it must, while both operands are still on
        the stack; then pops the car and then the cdr and pushes the pair of
        their (relocated) indices. */
    method NewPair() returns (ghost fwd: map<nat, nat>)
      requires Valid() && |stack| >= 2
      modifies this`area, this`spare, this`stack, this`roots, this`size
      ensures Valid() && AllIn(old(stack), fwd)
      ensures var n := |old(stack)|;
        Pushed(fwd, old(area), old(stack)[..n - 2], old(roots), area, stack, roots,
               RPair(fwd[old(stack)[n - 1]], fwd[old(stack)[n - 2]]))
    {
      fwd := TryGc();
      ghost var mid, s1 := area, stack;
      PairPushed(fwd, old(area), mid, old(stack), s1, old(roots), roots);
      var n := |stack|;
      var car, cdr := stack[n - 1], stack[n - 2];
      stack := stack[..n - 2];
      var pair := NewNode(RPair(car, cdr));
      stack := stack + [pair];
      assert stack == s1[..n - 2] + [|mid|];
    }

    /** `node_vec_from_stack`: pops `nargs` entries and returns copies of
        their nodes, in the order they were popped. */
    method NodeVecFromStack(nargs: nat) returns (nodes: seq<RNode>)
      requires Valid() && nargs <= |stack|
      modifies this`stack
      ensures Valid() && stack == old(stack)[..|old(stack)| - nargs]
      ensures |nodes| == nargs
      ensures forall i | 0 <= i < nargs :: nodes[i] == area[PopOrder(old(stack), nargs)[i]]
    {
      nodes := [];
      var k := 0;
      while k < nargs
        invariant 0 <= k <= nargs && Valid()
        invariant stack == old(stack)[..|old(stack)| - k]
        invariant |nodes| == k && forall i | 0 <= i < k :: nodes[i] == area[old(stack)[|old(stack)| - 1 - i]]
      {
        var idx := Pop();
        nodes := nodes + [area[idx]];
        k := k + 1;
      }
    }

    /** The start of `zip_stack_nodes`: the top reversed, and nil pushed as
        the empty list. */
    method ZipBegin(nargs: nat) returns (ghost fwd: map<nat, nat>)
      requires Valid() && nargs <= |stack|
      modifies this`area, this`spare, this`stack, this`roots, this`size
      ensures Valid()
      ensures Zipped(fwd, old(area), old(stack)[..|old(stack)| - nargs], old(roots),
                     PopOrder(old(stack), nargs), nargs, area, stack, roots)
    {
      ghost var m := |stack| - nargs;
      // (top) a1 a2 ... an  becomes  (top) an ... a2 a1
      ReverseTop(nargs);
      fwd := LoadTo(RSymbol(Nil));
      ZipStart(fwd, old(area), old(stack)[..m], old(roots), PopOrder(old(stack), nargs), area, stack, roots);
    }

    /** One turn of the consing loop of `zip_stack_nodes`: `swap`, then
        `new_pair`, conses the next entry onto the list on top. */
    method ConsOnto(ghost f: map<nat, nat>, ghost a0: seq<RNode>, ghost p0: seq<nat>, ghost r0: map<string, nat>,
                    ghost xs: seq<nat>, ghost j: nat) returns (ghost f': map<nat, nat>)
      requires Valid() && Zipped(f, a0, p0, r0, xs, j, area, stack, roots) && j > 0
      modifies this`area, this`spare, this`stack, this`roots, this`size
      ensures Valid() && Zipped(f', a0, p0, r0, xs, j - 1, area, stack, roots)
    {
      ghost var a1, s1, r1 := area, stack, roots;
      Swap();
      ghost var sw := stack;
      ghost var g := NewPair();
      ZipStep(f, g, a0, p0, r0, xs, j, a1, s1, r1, sw, area, stack, roots);
      f' := Compose(f, g);
    }

    /** The first half of `zip_stack_nodes`: pops `nargs` entries and pushes
        them back in the order popped, reversing the top of the stack. */
    method ReverseTop(nargs: nat)
      requires Valid() && nargs <= |stack|
      modifies this`stack
      ensures Valid()
      ensures stack == old(stack)[..|old(stack)| - nargs] + PopOrder(old(stack), nargs)
    {
      ghost var m := |stack| - nargs;
      ghost var xs := PopOrder(stack, nargs);
      var nodes: seq<nat> := [];
      var k := 0;
      while k < nargs
        invariant 0 <= k <= nargs && Valid()
        invariant stack == old(stack)[..|old(stack)| - k]
        invariant nodes == xs[..k]
      {
        var x := Pop();
        nodes := nodes + [x];
        k := k + 1;
      }
      assert nodes == xs;
      k := 0;
      while k < nargs
        invariant 0 <= k <= nargs && Valid()
        invariant stack == old(stack)[..m] + xs[..k]
      {
        Push(nodes[k]);
        k := k + 1;
      }
      assert xs[..nargs] == xs;
    }

    /** `zip_stack_nodes`: replaces the top `nargs` entries with a list of
        them, the former top first. */
    method ZipStackNodes(nargs: nat) returns (ghost fwd: map<nat, nat>)
      requires Valid() && nargs <= |stack|
      modifies this`area, this`spare, this`stack, this`roots, this`size
      ensures Valid() && MadeList(fwd, old(area), old(stack), old(roots), nargs, area, stack, roots)
    {
      fwd := ZipBegin(nargs);
      var i := 0;
      while i < nargs
        invariant 0 <= i <= nargs && Valid()
        invariant Zipped(fwd, old(area), old(stack)[..|old(stack)| - nargs], old(roots),
                         PopOrder(old(stack), nargs), nargs - i, area, stack, roots)
      {
        fwd := ConsOnto(fwd, old(area), old(stack)[..|old(stack)| - nargs], old(roots), PopOrder(old(stack), nargs), nargs - i);
        i := i + 1;
      }
      ZipDone(fwd, old(area), old(stack), old(roots), nargs, area, stack, roots);
    }

    // -------------------------------------------------------------------
    // Environments

    /** `new_env`: keeps `outer` on the stack across the collection, then
        allocates an empty frame whose outer pointer is where `outer` went. */
    method NewEnv(name: string, outer: nat) returns (idx: nat, ghost fwd: map<nat, nat>)
      requires Valid() && outer < |area| && area[outer].REnv?
      modifies this`area, this`spare, this`stack, this`roots, this`size
      ensures Valid()
      ensures Relocated(fwd, old(area), area, old(stack), stack, old(roots), roots)
      ensures outer in fwd && idx == |area| - 1 && area[idx] == REnv(name, map[], Some(fwd[outer]))
      ensures forall i | i in fwd :: fwd[i] < idx
      ensures forall i | 0 <= i < |area| :: idx !in Children(area[i])
    {
      Push(outer);
      fwd := TryGc();
      ghost var mid := area;
      RelocatedPop(fwd, old(area), mid, old(stack), outer, stack, old(roots), roots);
      var o := Pop();
      idx := NewNode(REnv(name, map[], Some(o)));
      RelocatedAppend(fwd, old(area), mid, area[idx], old(stack), stack, old(roots), roots);
      forall i | i in fwd ensures fwd[i] < idx {
        MovedAt(fwd, old(area), mid, i);
      }
      forall i | 0 <= i < |area| ensures idx !in Children(area[i]) {
        if i < idx {
          assert area[i] == mid[i] && InBounds(mid[i], |mid|);
        }
      }
    }

    /** `current_env`: the root `__cur_env`, which must be present. */
    function CurrentEnv(): (e: nat)
      reads this
      requires Valid() && CUR_ENV in roots
      ensures e < |area| && e == GetRoot(CUR_ENV)
    {
      roots[CUR_ENV]
    }

    /** `top_env`: allocates the outermost frame, named "top", and makes it
        both the top and the current environment; neither root may exist. */
    method TopEnv() returns (node: nat, ghost fwd: map<nat, nat>)
      requires Valid() && CUR_ENV !in roots && TOP_ENV !in roots
      modifies this`area, this`spare, this`stack, this`roots, this`size
      ensures Valid()
      ensures Relocated(fwd, old(area), area, old(stack), stack, old(roots), roots - {CUR_ENV, TOP_ENV})
      ensures node == |area| - 1 && area[node] == REnv("top", map[], None)
      ensures CUR_ENV in roots && TOP_ENV in roots && roots[CUR_ENV] == node && roots[TOP_ENV] == node
    {
      node, fwd := NewNodeWithGc(REnv("top", map[], None));
      ghost var r1 := roots;
      roots := roots[TOP_ENV := node];
      roots := roots[CUR_ENV := node];
      assert roots - {CUR_ENV, TOP_ENV} == r1 by {
        assert CUR_ENV !in r1 && TOP_ENV !in r1;
      }
    }

    /** `get_cur_env`: the binding of `key` in the frame at `idx` itself;
        `None` (after logging an error) when the node is not a frame. */
    function GetCurEnv(idx: nat, key: string): (r: Option<nat>)
      reads this
      requires idx < |area|
      ensures area[idx].REnv? ==> r == Env.GetCur(Frames(area), idx, key)
      ensures !area[idx].REnv? ==> r == None
      ensures Valid() && r.Some? ==> r.value < |area|
    {
      if area[idx].REnv? && key in area[idx].vars then
        assert area[idx].vars[key] in Children(area[idx]);
        Some(area[idx].vars[key])
      else None
    }

    /** `move_to_env`: makes a frame the current environment; any other
        node panics. */
    method MoveToEnv(env: nat)
      requires Valid() && env < |area| && area[env].REnv?
      modifies this`roots
      ensures Valid() && roots == old(roots)[CUR_ENV := env] && CurrentEnv() == env
    {
      SetRoot(CUR_ENV, env);
    }

    /** `get_outer_env`: the frame's outer pointer; any other node panics. */
    function GetOuterEnv(idx: nat): (r: Option<nat>)
      reads this
      requires idx < |area| && area[idx].REnv?
      ensures Env.IsFrame(Frames(area), idx) && r == Frames(area)[idx].value.outer
      ensures Valid() && r.Some? ==> r.value < |area| && area[r.value].REnv?
    {
      area[idx].outer
    }

    /** `insert_cur_env`, and `define` on a runtime environment: binds `key`
        in the frame at `idx`; any other node panics. Only that frame's
        variables change. */
    method InsertCurEnv(idx: nat, key: string, value: nat)
      requires Valid() && idx < |area| && area[idx].REnv? && value < |area|
      modifies this`area
      ensures Valid() && |area| == |old(area)|
      ensures Env.IsFrame(Frames(old(area)), idx)
      ensures Frames(area) == Env.Define(Frames(old(area)), idx, key, value)
      ensures area[idx] == old(area)[idx].(vars := old(area)[idx].vars[key := value])
      ensures forall i | 0 <= i < |area| && i != idx :: area[i] == old(area)[i]
    {
      var n := area[idx];
      BindKeepsBounds(n, key, value, |area|);
      area := area[idx := REnv(n.name, n.vars[key := value], n.outer)];
      assert Frames(area) == Env.Define(Frames(old(area)), idx, key, value);
    }

    /** `get` on a runtime environment: the trait's `get` over the frames of
        the area. */
    function EnvGet(e: nat, key: string): (r: Option<nat>)
      reads this
      requires Valid() && e < |area| && area[e].REnv?
      ensures Env.Closed(Frames(area)) && r == Env.Get(Frames(area), e, key, |area|)
      ensures r.Some? ==> r.value < |area|
    {
      FramesClosed(area);
      EnvGetFrom(e, key, |area|)
    }

    function EnvGetFrom(e: nat, key: string, fuel: nat): (r: Option<nat>)
      reads this
      requires Valid() && e < |area| && area[e].REnv?
      ensures Env.Closed(Frames(area)) && r == Env.Get(Frames(area), e, key, fuel)
      ensures r.Some? ==> r.value < |area|
      decreases fuel
    {
      FramesClosed(area);
      if fuel == 0 then None
      else match (GetCurEnv(e, key), GetOuterEnv(e))
        case (Some(v), _) => Some(v)
        case (None, Some(o)) => EnvGetFrom(o, key, fuel - 1)
        case (None, None) => None
    }

    /** `set` on a runtime environment: overwrites the innermost binding on
        the chain, or answers `None` and changes nothing. */
    method EnvSet(e: nat, key: string, value: nat, fuel: nat) returns (r: Option<nat>)
      requires Valid() && e < |area| && area[e].REnv? && value < |area|
      modifies this`area
      ensures Valid() && |area| == |old(area)|
      ensures Env.Closed(Frames(old(area))) &&
        (Frames(area), r) == Env.Set(Frames(old(area)), e, key, value, fuel)
      ensures forall i | 0 <= i < |area| :: area[i].REnv? == old(area)[i].REnv?
      decreases fuel
    {
      FramesClosed(area);
      if fuel == 0 {
        return None;
      }
      if GetCurEnv(e, key).Some? {
        InsertCurEnv(e, key, value);
        return Some(value);
      }
      var outer := GetOuterEnv(e);
      if outer.Some? {
        r := EnvSet(outer.value, key, value, fuel - 1);
      } else {
        r := None;
      }
    }

    // -------------------------------------------------------------------
    // Binding the arguments of a call

    /** One `define(&format!("#{i}_func_{id}"), pop())` on the current
        frame: the top entry is bound in it and popped. */
    method DefineParam(i: nat, id: string)
      requires Valid() && |stack| >= 1 && CUR_ENV in roots && area[roots[CUR_ENV]].REnv?
      modifies this`stack, this`area
      ensures Valid() && stack == old(stack)[..|old(stack)| - 1]
      ensures var e := roots[CUR_ENV]; var n := old(area)[e];
        area == old(area)[e := n.(vars := n.vars[ParamName(i, id) := old(stack)[|old(stack)| - 1]])]
    {
      var value := Pop();
      var e := CurrentEnv();
      InsertCurEnv(e, ParamName(i, id), value);
      assert area == old(area)[e := old(area)[e].(vars := old(area)[e].vars[ParamName(i, id) := value])];
    }

    /** The loop `for i in 0..count`: the first `count` entries popped are
        bound, in pop order, in the current frame, which held no variable. */
    method BindFixed(id: string, count: nat)
      requires Valid() && count <= |stack| && CUR_ENV in roots
      requires area[roots[CUR_ENV]].REnv? && area[roots[CUR_ENV]].vars == map[]
      modifies this`stack, this`area
      ensures Valid() && stack == old(stack)[..|old(stack)| - count]
      ensures var e := roots[CUR_ENV];
        area == old(area)[e := old(area)[e].(vars := Bindings(id, PopOrder(old(stack), count)))]
    {
      var e := CurrentEnv();
      var i := 0;
      while i < count
        invariant 0 <= i <= count && Valid() && roots == old(roots)
        invariant stack == old(stack)[..|old(stack)| - i]
        invariant area == old(area)[e := old(area)[e].(vars := Bindings(id, PopOrder(old(stack), i)))]
      {
        DefineParam(i, id);
        assert PopOrder(old(stack), i + 1)[..i] == PopOrder(old(stack), i);
        i := i + 1;
      }
    }

    /** The argument binding shared by `prepare_args`, `call_closure` and
        `tail_call_closure`, on a fresh, empty current frame that nothing
        refers to: with `k` the closure's parameter count, the first `k - 1`
        entries popped are bound, the rest are zipped into a list when the
        closure is variadic, and the last parameter gets the next entry.
        A closure without parameters takes nothing off the stack. */
    method BindArgs(c: Closure, nparams: nat) returns (ghost g: map<nat, nat>)
      requires Valid() && CUR_ENV in roots
      requires area[roots[CUR_ENV]].REnv? && area[roots[CUR_ENV]].vars == map[]
      requires forall i | 0 <= i < |area| :: roots[CUR_ENV] !in Children(area[i])
      requires CallArity(c, nparams) && ArgsTaken(c, nparams) <= |stack|
      modifies this`area, this`spare, this`stack, this`roots, this`size
      ensures Valid() && ArgsBound(g, old(area), old(stack), old(roots), c, nparams, area, stack, roots)
    {
      var e := CurrentEnv();
      if c.nargs == 0 {
        g := Identity(|area|);
        MovedIdentity(area);
        RelocatedIdentity(area, stack, roots);
        MovedDrop(g, area, area, area, e);
        BoundNone(area, stack, roots, c, nparams);
      } else if c.variadic {
        g := BindVariadic(c, nparams);
      } else {
        g := BindExact(c);
      }
    }

    /** `BindArgs` for a variadic closure with parameters. */
    method BindVariadic(c: Closure, nparams: nat) returns (ghost g: map<nat, nat>)
      requires Valid() && CUR_ENV in roots
      requires area[roots[CUR_ENV]].REnv? && area[roots[CUR_ENV]].vars == map[]
      requires forall i | 0 <= i < |area| :: roots[CUR_ENV] !in Children(area[i])
      requires c.variadic && 0 < c.nargs && c.nargs - 1 <= nparams <= |stack|
      modifies this`area, this`spare, this`stack, this`roots, this`size
      ensures Valid() && ArgsBound(g, old(area), old(stack), old(roots), c, nparams, area, stack, roots)
    {
      var e := CurrentEnv();
      BindFixed(c.name, c.nargs - 1);
      ghost var a1, s1 := area, stack;
      g := ZipStackNodes(nparams - c.nargs + 1);
      MovedAt(g, a1, area, e);
      ghost var a2, s2 := area, stack;
      DefineParam(c.nargs - 1, c.name);
      BoundLastVariadic(g, old(area), old(stack), old(roots), c, nparams, a1, s1, a2, s2, roots, area, stack);
    }

    /** `BindArgs` for a closure that is not variadic and has parameters:
        nothing is allocated, so nothing moves. */
    method BindExact(c: Closure) returns (ghost g: map<nat, nat>)
      requires Valid() && CUR_ENV in roots
      requires area[roots[CUR_ENV]].REnv? && area[roots[CUR_ENV]].vars == map[]
      requires forall i | 0 <= i < |area| :: roots[CUR_ENV] !in Children(area[i])
      requires !c.variadic && 0 < c.nargs <= |stack|
      modifies this`area, this`stack
      ensures Valid() && ArgsBound(g, old(area), old(stack), old(roots), c, c.nargs, area, stack, roots)
    {
      g := Identity(|area|);
      MapSeqIdentity(stack, |area|);
      MapValsIdentity(roots, |area|);
      BindFixed(c.name, c.nargs - 1);
      ghost var a1, s1 := area, stack;
      MovedIdentity(area);
      DefineParam(c.nargs - 1, c.name);
      BoundLastFixed(g, old(area), old(stack), old(roots), c, a1, s1, area, stack);
    }

    /** `prepare_args`: checks that `cid` is a closure whose arity admits
        `nparams` arguments, opens a frame named "closure" inside the
        closure's environment, makes it current and binds the arguments in
        it. On an error nothing changes. */
    method PrepareArgs(cid: nat, nparams: nat) returns (r: Result<(), Error>, ghost fwd: map<nat, nat>)
      requires Valid() && cid < |area|
      requires area[cid].RClosure? && PrepareArity(area[cid].c, nparams) ==> ArgsTaken(area[cid].c, nparams) <= |stack|
      modifies this`area, this`spare, this`stack, this`roots, this`size
      ensures Valid()
      ensures !old(area)[cid].RClosure? ==> r == Err(NotAClosure) && Unchanged(old(area), old(stack), old(roots))
      ensures old(area)[cid].RClosure? && !PrepareArity(old(area)[cid].c, nparams) ==>
        r == Err(ArityMismatch(old(area)[cid].c.nargs, nparams)) && Unchanged(old(area), old(stack), old(roots))
      ensures old(area)[cid].RClosure? && PrepareArity(old(area)[cid].c, nparams) ==>
        r == Ok(()) && ArgsPrepared(fwd, old(area), old(stack), old(roots), old(area)[cid].c, nparams, area, stack, roots)
    {
      fwd := map[];
      if !area[cid].RClosure? {
        return Err(NotAClosure), fwd;
      }
      var c := area[cid].c;
      if (!c.variadic && c.nargs != nparams) || (c.variadic && c.nargs > nparams) {
        return Err(ArityMismatch(c.nargs, nparams)), fwd;
      }
      fwd := EnterFrame(c, nparams);
      r := Ok(());
    }

    /** The part `prepare_args`, `call_closure` and `tail_call_closure`
        share once the arity is checked: a frame named "closure" inside the
        closure's environment becomes current and receives the arguments. */
    method EnterFrame(c: Closure, nparams: nat) returns (ghost fwd: map<nat, nat>)
      requires Valid() && c.env < |area| && area[c.env].REnv?
      requires CallArity(c, nparams) && ArgsTaken(c, nparams) <= |stack|
      modifies this`area, this`spare, this`stack, this`roots, this`size
      ensures Valid() && ArgsPrepared(fwd, old(area), old(stack), old(roots), c, nparams, area, stack, roots)
    {
      var env, f1 := NewEnv("closure", c.env);
      ghost var rn := roots;
      MoveToEnv(env);
      ghost var a1, s1, r1 := area, stack, roots;
      ghost var g := BindArgs(c, nparams);
      fwd := Prepared(f1, g, old(area), old(stack), old(roots), c, nparams, a1, s1, rn, r1, area, stack, roots);
    }

    /** The area, the stack and the roots are as they were. */
    ghost predicate Unchanged(a: seq<RNode>, s: seq<nat>, r: map<string, nat>)
      reads this
    {
      area == a && stack == s && roots == r
    }

    // -------------------------------------------------------------------
    // Pairs and equality

    /** `set_car`: overwrites the car of the pair at `index` in the chosen
        area and nothing else; any other node is an error and changes
        nothing. */
    method SetCar(active: bool, index: nat, target: nat) returns (r: Result<(), Error>)
      requires Valid() && index < (if active then |area| else |spare|)
      requires active ==> target < |area|
      modifies this`area, this`spare
      ensures Valid()
      ensures var n := if active then old(area)[index] else old(spare)[index];
        (r.Ok? <==> n.RPair?) && (r.Err? ==> r.error == NotAPair && area == old(area) && spare == old(spare))
      ensures r.Ok? && active ==> area == old(area)[index := RPair(target, old(area)[index].cdr)] && spare == old(spare)
      ensures r.Ok? && !active ==> spare == old(spare)[index := RPair(target, old(spare)[index].cdr)] && area == old(area)
    {
      var n := if active then area[index] else spare[index];
      if !n.RPair? {
        return Err(NotAPair);
      }
      if active {
        assert n.cdr in Children(n);
        area := area[index := RPair(target, n.cdr)];
      } else {
        spare := spare[index := RPair(target, n.cdr)];
      }
      r := Ok(());
    }

    /** `set_cdr`: as `set_car`, for the cdr. */
    method SetCdr(active: bool, index: nat, target: nat) returns (r: Result<(), Error>)
      requires Valid() && index < (if active then |area| else |spare|)
      requires active ==> target < |area|
      modifies this`area, this`spare
      ensures Valid()
      ensures var n := if active then old(area)[index] else old(spare)[index];
        (r.Ok? <==> n.RPair?) && (r.Err? ==> r.error == NotAPair && area == old(area) && spare == old(spare))
      ensures r.Ok? && active ==> area == old(area)[index := RPair(old(area)[index].car, target)] && spare == old(spare)
      ensures r.Ok? && !active ==> spare == old(spare)[index := RPair(old(spare)[index].car, target)] && area == old(area)
    {
      var n := if active then area[index] else spare[index];
      if !n.RPair? {
        return Err(NotAPair);
      }
      if active {
        assert n.car in Children(n);
        area := area[index := RPair(n.car, target)];
      } else {
        spare := spare[index := RPair(n.car, target)];
      }
      r := Ok(());
    }

    // -------------------------------------------------------------------
    // Built-in operators

    /** The arithmetic operators: the top `nargs` entries are popped and
        folded; a result is allocated and pushed. */
    method ArithBuiltin(sym: Symbol, nargs: nat) returns (r: Result<(), Error>, ghost fwd: map<nat, nat>)
      requires Valid() && IsArith(sym) && nargs <= |stack|
      modifies this`area, this`spare, this`stack, this`roots, this`size
      ensures Valid()
      ensures Applied(ArithEffect(NodesAt(old(area), PopOrder(old(stack), nargs)), sym), nargs,
                      old(area), old(stack), old(roots), area, stack, roots, r, fwd)
    {
      fwd := map[];
      var nodes := NodeVecFromStack(nargs);
      assert nodes == NodesAt(area, PopOrder(old(stack), nargs));
      var v := Util.EvalArith(nodes, NodeNumber, ArithOp(sym));
      if v.Err? {
        return Err(v.error), fwd;
      }
      fwd := LoadTo(RNumber(v.value));
      r := Ok(());
    }

    /** The numeric comparisons: exactly two operands, answered by `t` or
        `nil`. */
    method RelBuiltin(sym: Symbol, nargs: nat) returns (r: Result<(), Error>, ghost fwd: map<nat, nat>)
      requires Valid() && IsRel(sym) && nargs <= |stack|
      modifies this`area, this`spare, this`stack, this`roots, this`size
      ensures Valid()
      ensures Applied(RelEffect(NodesAt(old(area), PopOrder(old(stack), nargs)), sym), nargs,
                      old(area), old(stack), old(roots), area, stack, roots, r, fwd)
    {
      fwd := map[];
      var nodes := NodeVecFromStack(nargs);
      assert nodes == NodesAt(area, PopOrder(old(stack), nargs));
      var v := Util.EvalRel(nodes, NodeNumber, RelOp(sym));
      if v.Err? {
        return Err(v.error), fwd;
      }
      fwd := LoadTo(RSymbol(v.value));
      r := Ok(());
    }

    /** `remainder` and `quotient`: the first operand popped is the
        dividend; both must be integers. */
    method IntDivBuiltin(sym: Symbol) returns (r: Result<(), Error>, ghost fwd: map<nat, nat>)
      requires Valid() && IsIntDiv(sym) && |stack| >= 2
      requires IntDivDefined(area[stack[|stack| - 1]], area[stack[|stack| - 2]])
      modifies this`area, this`spare, this`stack, this`roots, this`size
      ensures Valid()
      ensures Applied(IntDivEffect(sym, old(area)[old(stack)[|old(stack)| - 1]], old(area)[old(stack)[|old(stack)| - 2]]), 2,
                      old(area), old(stack), old(roots), area, stack, roots, r, fwd)
    {
      fwd := map[];
      var lhs := Pop();
      var rhs := Pop();
      assert stack == old(stack)[..|old(stack)| - 2];
      var v := IntDivValue(sym, area[lhs], area[rhs]);
      if v.Err? {
        return Err(v.error), fwd;
      }
      fwd := LoadTo(RNumber(v.value));
      r := Ok(());
    }

    /** `eq?`: structural equality of the two operands. */
    method EqBuiltin() returns (r: Result<(), Error>, ghost fwd: map<nat, nat>)
      requires Valid() && |stack| >= 2
      requires NodeEq(area, stack[|stack| - 1], stack[|stack| - 2], |area| + 1).Ok?
      modifies this`area, this`spare, this`stack, this`roots, this`size
      ensures Valid()
      ensures Applied(EqEffect(old(area), old(stack)[|old(stack)| - 1], old(stack)[|old(stack)| - 2]), 2,
                      old(area), old(stack), old(roots), area, stack, roots, r, fwd)
    {
      var lhs := Pop();
      var rhs := Pop();
      var b := NodeEq(area, lhs, rhs, |area| + 1).value;
      fwd := LoadTo(RSymbol(if b then T else Nil));
      r := Ok(());
    }

    /** `atom?`, `number?`, `car` and `cdr`: one operand. */
    method UnaryBuiltin(sym: Symbol) returns (r: Result<(), Error>, ghost fwd: map<nat, nat>)
      requires Valid() && IsUnary(sym) && |stack| >= 1
      modifies this`area, this`spare, this`stack, this`roots, this`size
      ensures Valid()
      ensures Applied(UnaryEffect(sym, old(area)[old(stack)[|old(stack)| - 1]]), 1,
                      old(area), old(stack), old(roots), area, stack, roots, r, fwd)
    {
      fwd := map[];
      var index := Pop();
      var val := area[index];
      match UnaryEffect(sym, val)
      case Fails(e) =>
        r := Err(e);
      case Loads(x) =>
        fwd := LoadTo(x);
        r := Ok(());
      case Pushes(i) =>
        assert i in Children(val);
        Push(i);
        r := Ok(());
    }

    /** The arm of `apply` for `+`, `-`, `*` and `/`. */
    method ApplyArith(sym: Symbol, nargs: nat) returns (r: Result<(), Error>, ghost fwd: map<nat, nat>)
      requires Valid() && nargs <= |stack| && SymbolDefined(area, stack, sym, nargs) && IsArith(sym)
      modifies this`area, this`spare, this`stack, this`roots, this`size
      ensures Valid()
      ensures SymbolApplied(sym, nargs, old(area), old(stack), old(roots), area, stack, roots, r, fwd)
    {
      r, fwd := ArithBuiltin(sym, nargs);
      ArithApplied(sym, nargs, old(area), old(stack), old(roots), area, stack, roots, r, fwd);
    }

    /** The arm of `apply` for `=`, `>`, `<`, `>=` and `<=`. */
    method ApplyRel(sym: Symbol, nargs: nat) returns (r: Result<(), Error>, ghost fwd: map<nat, nat>)
      requires Valid() && nargs <= |stack| && SymbolDefined(area, stack, sym, nargs) && IsRel(sym)
      modifies this`area, this`spare, this`stack, this`roots, this`size
      ensures Valid()
      ensures SymbolApplied(sym, nargs, old(area), old(stack), old(roots), area, stack, roots, r, fwd)
    {
      r, fwd := RelBuiltin(sym, nargs);
      RelApplied(sym, nargs, old(area), old(stack), old(roots), area, stack, roots, r, fwd);
    }

    /** The arm of `apply` for `remainder` and `quotient`. */
    method ApplyIntDiv(sym: Symbol, nargs: nat) returns (r: Result<(), Error>, ghost fwd: map<nat, nat>)
      requires Valid() && nargs <= |stack| && SymbolDefined(area, stack, sym, nargs) && IsIntDiv(sym)
      modifies this`area, this`spare, this`stack, this`roots, this`size
      ensures Valid()
      ensures SymbolApplied(sym, nargs, old(area), old(stack), old(roots), area, stack, roots, r, fwd)
    {
      r, fwd := IntDivBuiltin(sym);
      IntDivApplied(sym, nargs, old(area), old(stack), old(roots), area, stack, roots, r, fwd);
    }

    /** The arm of `apply` for `eq?`. */
    method ApplyEq(sym: Symbol, nargs: nat) returns (r: Result<(), Error>, ghost fwd: map<nat, nat>)
      requires Valid() && nargs <= |stack| && SymbolDefined(area, stack, sym, nargs) && sym.Eq?
      modifies this`area, this`spare, this`stack, this`roots, this`size
      ensures Valid()
      ensures SymbolApplied(sym, nargs, old(area), old(stack), old(roots), area, stack, roots, r, fwd)
    {
      r, fwd := EqBuiltin();
      EqApplied(sym, nargs, old(area), old(stack), old(roots), area, stack, roots, r, fwd);
    }

    /** The arm of `apply` for `atom?`, `number?`, `car` and `cdr`. */
    method ApplyUnary(sym: Symbol, nargs: nat) returns (r: Result<(), Error>, ghost fwd: map<nat, nat>)
      requires Valid() && nargs <= |stack| && SymbolDefined(area, stack, sym, nargs) && IsUnary(sym)
      modifies this`area, this`spare, this`stack, this`roots, this`size
      ensures Valid()
      ensures SymbolApplied(sym, nargs, old(area), old(stack), old(roots), area, stack, roots, r, fwd)
    {
      r, fwd := UnaryBuiltin(sym);
      UnaryApplied(sym, nargs, old(area), old(stack), old(roots), area, stack, roots, r, fwd);
    }

    /** The arm of `apply` for `cons`. */
    method ApplyCons(sym: Symbol, nargs: nat) returns (r: Result<(), Error>, ghost fwd: map<nat, nat>)
      requires Valid() && nargs <= |stack| && SymbolDefined(area, stack, sym, nargs) && sym.Cons?
      modifies this`area, this`spare, this`stack, this`roots, this`size
      ensures Valid()
      ensures SymbolApplied(sym, nargs, old(area), old(stack), old(roots), area, stack, roots, r, fwd)
    {
      fwd := NewPair();
      r := Ok(());
    }

    /** The arm of `apply` for `list`. */
    method ApplyList(sym: Symbol, nargs: nat) returns (r: Result<(), Error>, ghost fwd: map<nat, nat>)
      requires Valid() && nargs <= |stack| && SymbolDefined(area, stack, sym, nargs) && sym.List?
      modifies this`area, this`spare, this`stack, this`roots, this`size
      ensures Valid()
      ensures SymbolApplied(sym, nargs, old(area), old(stack), old(roots), area, stack, roots, r, fwd)
    {
      fwd := ZipStackNodes(nargs);
      r := Ok(());
    }

    /** `apply` once its operator, the symbol `sym`, is popped. */
    method ApplySymbol(sym: Symbol, nargs: nat) returns (r: Result<(), Error>, ghost fwd: map<nat, nat>)
      requires Valid() && nargs <= |stack| && SymbolDefined(area, stack, sym, nargs)
      modifies this`area, this`spare, this`stack, this`roots, this`size
      ensures Valid()
      ensures SymbolApplied(sym, nargs, old(area), old(stack), old(roots), area, stack, roots, r, fwd)
    {
      fwd := map[];
      if sym.Nil? || sym.T? {
        r := Err(CannotBeHead);
      } else if IsArith(sym) {
        r, fwd := ApplyArith(sym, nargs);
      } else if IsRel(sym) {
        r, fwd := ApplyRel(sym, nargs);
      } else if IsIntDiv(sym) {
        r, fwd := ApplyIntDiv(sym, nargs);
      } else if sym.Eq? {
        r, fwd := ApplyEq(sym, nargs);
      } else if IsUnary(sym) {
        r, fwd := ApplyUnary(sym, nargs);
      } else if sym.Cons? {
        r, fwd := ApplyCons(sym, nargs);
      } else if sym.List? {
        r, fwd := ApplyList(sym, nargs);
      } else {
        r := Err(Unsupported);
      }
    }

    /** `apply`: pops the operator and runs the built-in it names on the
        `nargs` operands below it.  The operator must be a symbol other
        than `nil` and `t`; applying a user symbol panics, because closures
        are called through `call_closure`. */
    method Apply(nargs: nat) returns (r: Result<(), Error>, ghost fwd: map<nat, nat>)
      requires Valid() && nargs < |stack| && ApplyDefined(area, stack, nargs)
      modifies this`area, this`spare, this`stack, this`roots, this`size
      ensures Valid()
      ensures var op := old(area)[old(stack)[|old(stack)| - 1]];
        var below := old(stack)[..|old(stack)| - 1];
        if op.RSymbol? then
          SymbolApplied(op.sym, nargs, old(area), below, old(roots), area, stack, roots, r, fwd)
        else
          r == Err(NotASymbol) && area == old(area) && stack == below && roots == old(roots)
    {
      fwd := map[];
      var index := Pop();
      var op := GetSymbol(index);
      if op.Err? {
        return Err(op.error), fwd;
      }
      r, fwd := ApplySymbol(op.value, nargs);
    }
  }

  // ---------------------------------------------------------------------
  // Binding the arguments of a call

  /** How many stack entries binding the arguments of `c` consumes: all
      `nparams` of them, unless the closure has no parameter at all. */
  function ArgsTaken(c: Closure, nparams: nat): nat {
    if c.nargs == 0 then 0 else nparams
  }

  /** The arity check of `prepare_args`. */
  predicate PrepareArity(c: Closure, nparams: nat) {
    !((!c.variadic && c.nargs != nparams) || (c.variadic && c.nargs > nparams))
  }

  /** The arities the argument binding is meant for: exactly `c.nargs`
      arguments, or, for a variadic closure, at least the `c.nargs - 1`
      fixed ones, the rest going into a list. */
  predicate CallArity(c: Closure, nparams: nat) {
    if c.variadic then c.nargs <= nparams + 1 else c.nargs == nparams
  }

  /** `prepare_args` demands more than the binding needs: a variadic closure
      must get at least one argument for its rest list. */
  lemma PrepareArityCalls(c: Closure, nparams: nat)
    ensures PrepareArity(c, nparams) ==> CallArity(c, nparams)
    ensures CallArity(c, nparams) && !PrepareArity(c, nparams) <==> c.variadic && c.nargs == nparams + 1
  {
  }

  /** Relocating the values of the bindings is binding the relocated values. */
  lemma BindingsRenamed(g: map<nat, nat>, id: string, vals: seq<nat>)
    requires AllIn(vals, g)
    ensures ValsIn(Bindings(id, vals), g)
    ensures (map k | k in Bindings(id, vals) :: g[Bindings(id, vals)[k]]) == Bindings(id, MapSeq(g, vals))
  {
    var m := Bindings(id, vals);
    var w := MapSeq(g, vals);
    BindingsAt(id, vals);
    BindingsAt(id, w);
    forall k | k in m ensures m[k] in g {
      var i :| 0 <= i < |vals| && k == ParamName(i, id);
    }
    var m' := map k | k in m :: g[m[k]];
    forall k | k in m' ensures m'[k] == Bindings(id, w)[k] {
      var i :| 0 <= i < |vals| && k == ParamName(i, id);
    }
  }

  /** The frame `e` of area `a` binds the parameters of `c` to `vals`, the
      arguments in pop order: each of the first parameters to one value;
      the last one, when `c` is variadic, to a list of the values left. */
  ghost predicate ParamsBound(a: seq<RNode>, e: nat, c: Closure, vals: seq<nat>) {
    e < |a| && a[e].REnv? &&
    var k := c.nargs;
    var vars := a[e].vars;
    if k == 0 then vars == map[]
    else if !c.variadic then |vals| == k && vars == Bindings(c.name, vals)
    else
      var last := ParamName(k - 1, c.name);
      k - 1 <= |vals| && last in vars &&
      vars == Bindings(c.name, vals[..k - 1] + [vars[last]]) && IsList(a, vars[last], vals[k - 1..])
  }

  /** The i-th parameter other than a variadic last one is bound to the
      i-th argument popped. */
  lemma ParamBound(a: seq<RNode>, e: nat, c: Closure, vals: seq<nat>, i: nat)
    requires ParamsBound(a, e, c, vals)
    requires i < c.nargs && (c.variadic ==> i < c.nargs - 1)
    ensures i < |vals| && ParamName(i, c.name) in a[e].vars && a[e].vars[ParamName(i, c.name)] == vals[i]
  {
    var last := ParamName(c.nargs - 1, c.name);
    if c.variadic {
      var w := vals[..c.nargs - 1] + [a[e].vars[last]];
      BindingsAt(c.name, w);
      assert w[i] == vals[i];
    } else {
      BindingsAt(c.name, vals);
    }
  }

  /** What binding the arguments leaves, from the area `a1`, the stack `s1`
      and the roots `r1` whose current frame `e` is fresh and empty: the
      frame reappears at `g[e]` with the same name and outer frame and the
      parameters bound; every other node is relocated by `g`, and so are the
      stack below the arguments and the roots. */
  ghost predicate ArgsBound(g: map<nat, nat>, a1: seq<RNode>, s1: seq<nat>, r1: map<string, nat>, c: Closure, nparams: nat,
                            a: seq<RNode>, s: seq<nat>, r: map<string, nat>) {
    var t := ArgsTaken(c, nparams);
    CUR_ENV in r1 && t <= |s1| && r1[CUR_ENV] < |a1| && a1[r1[CUR_ENV]].REnv? &&
    var e := r1[CUR_ENV];
    var n := a1[e];
    Moved(g - {e}, a1, a) && e in g && (forall i | i in g && i != e :: g[i] != g[e]) &&
    (n.outer.Some? ==> n.outer.value in g) &&
    ValsIn(r1, g) && r == MapVals(g, r1) &&
    AllIn(s1[..|s1| - t], g) && s == MapSeq(g, s1[..|s1| - t]) &&
    AllIn(PopOrder(s1, t), g) && ParamsBound(a, g[e], c, MapSeq(g, PopOrder(s1, t))) &&
    a[g[e]].name == n.name && a[g[e]].outer == (if n.outer.Some? then Some(g[n.outer.value]) else None)
  }

  /** What `prepare_args` leaves after a successful check, from the area
      `a0`, the stack `s0` and the roots `r0`: a new current frame named
      "closure", inside the relocated environment of the closure, with the
      parameters bound to the relocated arguments; everything else, the
      previous `__cur_env` root aside, relocated by `f`. */
  ghost predicate ArgsPrepared(f: map<nat, nat>, a0: seq<RNode>, s0: seq<nat>, r0: map<string, nat>, c: Closure, nparams: nat,
                               a: seq<RNode>, s: seq<nat>, r: map<string, nat>) {
    var t := ArgsTaken(c, nparams);
    t <= |s0| && CUR_ENV in r &&
    var e := r[CUR_ENV];
    Relocated(f, a0, a, s0[..|s0| - t], s, r0 - {CUR_ENV}, r - {CUR_ENV}) &&
    AllIn(PopOrder(s0, t), f) && c.env in f && (forall i | i in f :: f[i] != e) &&
    ParamsBound(a, e, c, MapSeq(f, PopOrder(s0, t))) &&
    a[e].name == "closure" && a[e].outer == Some(f[c.env])
  }

  /** A closure without parameters binds nothing and takes nothing. */
  lemma BoundNone(a1: seq<RNode>, s1: seq<nat>, r1: map<string, nat>, c: Closure, nparams: nat)
    requires WellFormed(a1) && c.nargs == 0
    requires Relocated(Identity(|a1|), a1, a1, s1, s1, r1, r1)
    requires CUR_ENV in r1 && r1[CUR_ENV] < |a1| && a1[r1[CUR_ENV]].REnv? && a1[r1[CUR_ENV]].vars == map[]
    requires Moved(Identity(|a1|) - {r1[CUR_ENV]}, a1, a1)
    ensures ArgsBound(Identity(|a1|), a1, s1, r1, c, nparams, a1, s1, r1)
  {
    var g := Identity(|a1|);
    var e := r1[CUR_ENV];
    assert s1[..|s1|] == s1;
    assert MapSeq(g, PopOrder(s1, 0)) == [];
    assert a1[e].outer.Some? ==> a1[e].outer.value in Children(a1[e]);
  }

  /** `ArgsBound` from its parts. */
  lemma BoundFrom(g: map<nat, nat>, a1: seq<RNode>, s1: seq<nat>, r1: map<string, nat>, c: Closure, nparams: nat,
                  a: seq<RNode>, s: seq<nat>, r: map<string, nat>, e: nat, t: nat)
    requires t == ArgsTaken(c, nparams) && t <= |s1|
    requires CUR_ENV in r1 && e == r1[CUR_ENV] && e < |a1| && a1[e].REnv?
    requires Moved(g - {e}, a1, a) && e in g && (forall i | i in g && i != e :: g[i] != g[e])
    requires a1[e].outer.Some? ==> a1[e].outer.value in g
    requires ValsIn(r1, g) && r == MapVals(g, r1)
    requires AllIn(s1[..|s1| - t], g) && s == MapSeq(g, s1[..|s1| - t])
    requires AllIn(PopOrder(s1, t), g) && ParamsBound(a, g[e], c, MapSeq(g, PopOrder(s1, t)))
    requires a[g[e]].name == a1[e].name
    requires a[g[e]].outer == (if a1[e].outer.Some? then Some(g[a1[e].outer.value]) else None)
    ensures ArgsBound(g, a1, s1, r1, c, nparams, a, s, r)
  {
  }

  /** A frame `e` that no other node refers to, rewritten in place before a
      relocation `g` and again after it: every other node is relocated,
      and the frame's new place is no other node's. */
  lemma FrameRewritten(g: map<nat, nat>, a0: seq<RNode>, a1: seq<RNode>, a2: seq<RNode>, a: seq<RNode>, e: nat)
    requires Moved(g, a1, a2) && e in g && |a0| == |a1| && |a| == |a2|
    requires forall i | 0 <= i < |a0| && i != e :: a0[i] == a1[i] && e !in Children(a0[i])
    requires forall i | 0 <= i < |a| && i != g[e] :: a[i] == a2[i]
    ensures Moved(g - {e}, a0, a) && (forall i | i in g && i != e :: g[i] != g[e])
    ensures e < |a1| && Children(a1[e]) <= g.Keys && g[e] < |a2| && a2[g[e]] == Rename(a1[e], g)
  {
    MovedAt(g, a1, a2, e);
    MovedDrop(g, a0, a1, a2, e);
    forall i | i in g && i != e ensures g[i] != g[e] {
      assert Pre(g, g[i]) == i && Pre(g, g[e]) == e;
    }
    MovedUpdateFresh(g - {e}, a0, a2, g[e], a[g[e]]);
    assert a2[g[e] := a[g[e]]] == a;
  }

  /** The frame of a closure that is not variadic once its last parameter
      is bound. */
  lemma FixedParams(c: Closure, xs: seq<nat>, a1: seq<RNode>, e: nat, a: seq<RNode>)
    requires !c.variadic && 0 < c.nargs == |xs|
    requires e < |a1| && a1[e].REnv? && a1[e].vars == Bindings(c.name, xs[..c.nargs - 1])
    requires a == a1[e := a1[e].(vars := a1[e].vars[ParamName(c.nargs - 1, c.name) := xs[c.nargs - 1]])]
    ensures ParamsBound(a, e, c, xs)
  {
    assert xs[..|xs|][..|xs| - 1] == xs[..|xs| - 1];
    assert xs[..|xs|] == xs;
  }

  /** The frame of a variadic closure once the list of the rest is bound to
      its last parameter: the first arguments bound before the collection
      `g` are relocated with the frame. */
  lemma VariadicParams(g: map<nat, nat>, c: Closure, fixed: seq<nat>, rest: seq<nat>,
                       a1: seq<RNode>, e: nat, a2: seq<RNode>, e2: nat, a: seq<RNode>, l: nat)
    requires c.variadic && 0 < c.nargs && |fixed| == c.nargs - 1
    requires e < |a1| && a1[e].REnv? && a1[e].vars == Bindings(c.name, fixed)
    requires Children(a1[e]) <= g.Keys && e2 < |a2| && a2[e2] == Rename(a1[e], g)
    requires AllIn(rest, g) && IsList(a2, l, MapSeq(g, rest))
    requires a == a2[e2 := a2[e2].(vars := a2[e2].vars[ParamName(c.nargs - 1, c.name) := l])]
    ensures AllIn(fixed + rest, g) && ParamsBound(a, e2, c, MapSeq(g, fixed + rest))
  {
    var k := c.nargs;
    forall i | 0 <= i < k - 1 ensures fixed[i] in g {
      BindingsAt(c.name, fixed);
      assert fixed[i] in Children(a1[e]);
    }
    BindingsRenamed(g, c.name, fixed);
    var xs := fixed + rest;
    var vals := MapSeq(g, xs);
    assert vals[..k - 1] == MapSeq(g, fixed);
    assert vals[k - 1..] == MapSeq(g, rest);
    IsListUpdateEnv(a2, e2, a[e2], l, MapSeq(g, rest));
    assert (vals[..k - 1] + [l])[..k - 1] == vals[..k - 1];
  }

  /** A relocation that keeps a stack in place keeps its slices in place. */
  lemma StackKept(g: map<nat, nat>, s0: seq<nat>, k: nat)
    requires AllIn(s0, g) && MapSeq(g, s0) == s0 && k <= |s0|
    ensures AllIn(s0[..|s0| - k], g) && MapSeq(g, s0[..|s0| - k]) == s0[..|s0| - k]
    ensures AllIn(PopOrder(s0, k), g) && MapSeq(g, PopOrder(s0, k)) == PopOrder(s0, k)
  {
    forall i | 0 <= i < |s0| ensures g[s0[i]] == s0[i] {
      assert MapSeq(g, s0)[i] == g[s0[i]];
    }
  }

  /** The end of binding for a closure that is not variadic: no collection
      ran, the last argument is bound like the others. */
  lemma BoundLastFixed(g: map<nat, nat>, a0: seq<RNode>, s0: seq<nat>, r0: map<string, nat>, c: Closure,
                       a1: seq<RNode>, s1: seq<nat>, a: seq<RNode>, s: seq<nat>)
    requires AllIn(s0, g) && MapSeq(g, s0) == s0 && ValsIn(r0, g) && MapVals(g, r0) == r0
    requires CUR_ENV in r0 && r0[CUR_ENV] < |a0| && g[r0[CUR_ENV]] == r0[CUR_ENV]
    requires var e := r0[CUR_ENV]; (a0[e].REnv? && a0[e].vars == map[] &&
      forall i | 0 <= i < |a0| :: e !in Children(a0[i]))
    requires !c.variadic && 0 < c.nargs <= |s0|
    requires var e := r0[CUR_ENV]; (s1 == s0[..|s0| - (c.nargs - 1)] &&
      a1 == a0[e := a0[e].(vars := Bindings(c.name, PopOrder(s0, c.nargs - 1)))])
    requires Moved(g, a1, a1)
    requires var e := r0[CUR_ENV]; (s == s1[..|s1| - 1] &&
      a == a1[e := a1[e].(vars := a1[e].vars[ParamName(c.nargs - 1, c.name) := s1[|s1| - 1]])])
    ensures ArgsBound(g, a0, s0, r0, c, c.nargs, a, s, r0)
  {
    var e := r0[CUR_ENV];
    var k := c.nargs;
    FrameRewritten(g, a0, a1, a1, a, e);
    StackKept(g, s0, k);
    PopOrderSplit(s0, k - 1, 1);
    var xs := PopOrder(s0, k);
    assert xs[..k - 1] == PopOrder(s0, k - 1) && s1[|s1| - 1] == xs[k - 1];
    FixedParams(c, xs, a1, e, a);
    assert a0[e].outer.Some? ==> a0[e].outer.value in Children(a1[e]);
    BoundFrom(g, a0, s0, r0, c, k, a, s, r0, e, k);
  }

  /** Popping `m` entries and then `z` more is popping `m + z`. */
  lemma PopOrderSplit(s0: seq<nat>, m: nat, z: nat)
    requires m + z <= |s0|
    ensures PopOrder(s0, m + z) == PopOrder(s0, m) + PopOrder(s0[..|s0| - m], z)
    ensures s0[..|s0| - m][..|s0| - m - z] == s0[..|s0| - (m + z)]
  {
  }

  /** The stack of a variadic call: the entries below the arguments are
      relocated by the collection that zipped the rest. */
  lemma VariadicStack(g: map<nat, nat>, s0: seq<nat>, s1: seq<nat>, s2: seq<nat>, s: seq<nat>, m: nat, z: nat)
    requires m + z <= |s0| && s1 == s0[..|s0| - m]
    requires |s2| == |s1| - z + 1 && AllIn(s1[..|s1| - z], g) && s2[..|s1| - z] == MapSeq(g, s1[..|s1| - z])
    requires s == s2[..|s2| - 1]
    ensures AllIn(s0[..|s0| - (m + z)], g) && s == MapSeq(g, s0[..|s0| - (m + z)])
    ensures PopOrder(s0, m + z) == PopOrder(s0, m) + PopOrder(s1, z) && s2[|s2| - 1] == s2[|s1| - z]
  {
    PopOrderSplit(s0, m, z);
  }

  /** The end of binding for a variadic closure: the rest was zipped into a
      list by a collection `g`, and the list is bound to the last
      parameter. */
  lemma BoundLastVariadic(g: map<nat, nat>, a0: seq<RNode>, s0: seq<nat>, r0: map<string, nat>, c: Closure, nparams: nat,
                          a1: seq<RNode>, s1: seq<nat>, a2: seq<RNode>, s2: seq<nat>, r: map<string, nat>,
                          a: seq<RNode>, s: seq<nat>)
    requires CUR_ENV in r0 && r0[CUR_ENV] < |a0|
    requires var e := r0[CUR_ENV]; (a0[e].REnv? && a0[e].vars == map[] &&
      forall i | 0 <= i < |a0| :: e !in Children(a0[i]))
    requires c.variadic && 0 < c.nargs && c.nargs - 1 <= nparams <= |s0|
    requires var e := r0[CUR_ENV]; (s1 == s0[..|s0| - (c.nargs - 1)] &&
      a1 == a0[e := a0[e].(vars := Bindings(c.name, PopOrder(s0, c.nargs - 1)))])
    requires MadeList(g, a1, s1, r0, nparams - c.nargs + 1, a2, s2, r)
    requires CUR_ENV in r
    requires var e := r[CUR_ENV]; (e < |a2| && a2[e].REnv? && s == s2[..|s2| - 1] &&
      a == a2[e := a2[e].(vars := a2[e].vars[ParamName(c.nargs - 1, c.name) := s2[|s2| - 1]])])
    ensures ArgsBound(g, a0, s0, r0, c, nparams, a, s, r)
  {
    var e := r0[CUR_ENV];
    var k := c.nargs;
    var z := nparams - k + 1;
    VariadicStack(g, s0, s1, s2, s, k - 1, z);
    assert r[CUR_ENV] == g[e];
    FrameRewritten(g, a0, a1, a2, a, e);
    VariadicParams(g, c, PopOrder(s0, k - 1), PopOrder(s1, z), a1, e, a2, g[e], a, s2[|s2| - 1]);
    assert a0[e].outer.Some? ==> a0[e].outer.value in Children(a1[e]);
    BoundFrom(g, a0, s0, r0, c, nparams, a, s, r, e, nparams);
  }

  /** `prepare_args` from its parts: the collection `f1` of `new_env`, which
      left the fresh frame `idx`, then the binding `g`. */
  lemma Prepared(f1: map<nat, nat>, g: map<nat, nat>, a0: seq<RNode>, s0: seq<nat>, r0: map<string, nat>,
                 c: Closure, nparams: nat, a1: seq<RNode>, s1: seq<nat>, rn: map<string, nat>, r1: map<string, nat>,
                 a: seq<RNode>, s: seq<nat>, r: map<string, nat>) returns (f: map<nat, nat>)
    requires ArgsTaken(c, nparams) <= |s0|
    requires Relocated(f1, a0, a1, s0, s1, r0, rn)
    requires CUR_ENV in r1 && r1 == rn[CUR_ENV := r1[CUR_ENV]]
    requires c.env in f1 && r1[CUR_ENV] < |a1| && a1[r1[CUR_ENV]] == REnv("closure", map[], Some(f1[c.env]))
    requires forall i | i in f1 :: f1[i] < r1[CUR_ENV]
    requires ArgsBound(g, a1, s1, r1, c, nparams, a, s, r)
    ensures ArgsPrepared(f, a0, s0, r0, c, nparams, a, s, r)
  {
    var idx := r1[CUR_ENV];
    var t := ArgsTaken(c, nparams);
    var h := g - {idx};
    f := Compose(f1, h);
    MovedCompose(f1, a0, a1, h, a);
    PreparedStack(f1, g, idx, s0, s1, s, t);
    PreparedRoots(f1, g, idx, r0, rn, r1, r);
    assert f1[c.env] in g;
    forall i | i in f ensures f[i] != r[CUR_ENV] {
      assert f1[i] != idx;
    }
  }

  /** The stack over `prepare_args`: the entries below the arguments, and
      the arguments, relocated by the two collections in turn. */
  lemma PreparedStack(f1: map<nat, nat>, g: map<nat, nat>, idx: nat, s0: seq<nat>, s1: seq<nat>, s: seq<nat>, t: nat)
    requires AllIn(s0, f1) && s1 == MapSeq(f1, s0) && (forall i | i in f1 :: f1[i] < idx) && t <= |s0|
    requires AllIn(s1[..|s1| - t], g) && s == MapSeq(g, s1[..|s1| - t]) && AllIn(PopOrder(s1, t), g)
    ensures var f := Compose(f1, g - {idx});
      AllIn(s0[..|s0| - t], f) && s == MapSeq(f, s0[..|s0| - t]) &&
      AllIn(PopOrder(s0, t), f) && MapSeq(f, PopOrder(s0, t)) == MapSeq(g, PopOrder(s1, t))
  {
    var f := Compose(f1, g - {idx});
    var b0 := s0[..|s0| - t];
    var b1 := s1[..|s1| - t];
    forall k | 0 <= k < |b0| ensures b0[k] in f && f[b0[k]] == s[k] {
      assert b1[k] == s1[k] == f1[s0[k]];
    }
    var xs := PopOrder(s0, t);
    forall i | 0 <= i < t ensures xs[i] in f && f[xs[i]] == g[PopOrder(s1, t)[i]] {
      assert PopOrder(s1, t)[i] == s1[|s1| - 1 - i] == f1[s0[|s0| - 1 - i]];
    }
  }

  /** The roots over `prepare_args`: all but `__cur_env` relocated by the
      two collections in turn; `__cur_env` names the new frame. */
  lemma PreparedRoots(f1: map<nat, nat>, g: map<nat, nat>, idx: nat, r0: map<string, nat>, rn: map<string, nat>,
                      r1: map<string, nat>, r: map<string, nat>)
    requires ValsIn(r0, f1) && rn == MapVals(f1, r0) && (forall i | i in f1 :: f1[i] < idx)
    requires r1 == rn[CUR_ENV := idx] && ValsIn(r1, g) && r == MapVals(g, r1)
    ensures var f := Compose(f1, g - {idx});
      ValsIn(r0 - {CUR_ENV}, f) && r - {CUR_ENV} == MapVals(f, r0 - {CUR_ENV}) && CUR_ENV in r && r[CUR_ENV] == g[idx]
  {
    var f := Compose(f1, g - {idx});
    forall n | n in r0 - {CUR_ENV} ensures r0[n] in f && f[r0[n]] == r[n] {
      assert r1[n] == f1[r0[n]];
    }
  }

  /** `node_eq` on two nodes that are not both pairs and not both closures. */
  predicate EqNodes(m: RNode, n: RNode) {
    match (m, n)
    case (RSymbol(x), RSymbol(y)) => x == y
    case (RNumber(x), RNumber(y)) => Numbers.Eq(x, y)
    case (REnv(x, v, o), REnv(y, w, p)) => x == y && v == w && o == p
    case (BrokenHeart(x), BrokenHeart(y)) => x == y
    case _ => false
  }

  /** `node_eq`: structural equality of two nodes of the area.  Symbols and
      frames compare by value, numbers numerically, pairs field by field
      (the cdrs only once the cars agree); nodes of different kinds differ.
      Comparing two closures panics, here `Err(Unreachable)`.  The source
      recurses without bound, so on a cyclic structure it exhausts its
      native stack; the model counts the depth of recursion with `fuel` and
      answers `Err(OutOfFuel)` when it runs out. */
  function NodeEq(h: seq<RNode>, a: nat, b: nat, fuel: nat): Result<bool, Error>
    requires WellFormed(h) && a < |h| && b < |h|
    decreases fuel
  {
    if fuel == 0 then Err(OutOfFuel)
    else match (h[a], h[b])
      case (RPair(x, y), RPair(z, w)) =>
        assert x in Children(h[a]) && y in Children(h[a]);
        assert z in Children(h[b]) && w in Children(h[b]);
        (match NodeEq(h, x, z, fuel - 1)
         case Err(e) => Err(e)
         case Ok(false) => Ok(false)
         case Ok(true) => NodeEq(h, y, w, fuel - 1))
      case (RClosure(_), RClosure(_)) => Err(Unreachable)
      case (m, n) => Ok(EqNodes(m, n))
  }

  /** `node_eq` is symmetric, errors included. */
  lemma {:induction false} NodeEqSymmetric(h: seq<RNode>, a: nat, b: nat, fuel: nat)
    requires WellFormed(h) && a < |h| && b < |h|
    ensures NodeEq(h, a, b, fuel) == NodeEq(h, b, a, fuel)
    decreases fuel
  {
    if fuel > 0 && h[a].RPair? && h[b].RPair? {
      assert h[a].car in Children(h[a]) && h[a].cdr in Children(h[a]);
      assert h[b].car in Children(h[b]) && h[b].cdr in Children(h[b]);
      NodeEqSymmetric(h, h[a].car, h[b].car, fuel - 1);
      NodeEqSymmetric(h, h[a].cdr, h[b].cdr, fuel - 1);
    }
  }

  /** An answer reached within some depth is the answer at every larger
      depth: the fuel only cuts off comparisons that do not end. */
  lemma {:induction false} NodeEqMoreFuel(h: seq<RNode>, a: nat, b: nat, fuel: nat, more: nat)
    requires WellFormed(h) && a < |h| && b < |h| && fuel <= more
    requires NodeEq(h, a, b, fuel) != Err(OutOfFuel)
    ensures NodeEq(h, a, b, more) == NodeEq(h, a, b, fuel)
    decreases fuel
  {
    if h[a].RPair? && h[b].RPair? {
      assert h[a].car in Children(h[a]) && h[a].cdr in Children(h[a]);
      assert h[b].car in Children(h[b]) && h[b].cdr in Children(h[b]);
      NodeEqMoreFuel(h, h[a].car, h[b].car, fuel - 1, more - 1);
      if NodeEq(h, h[a].car, h[b].car, fuel - 1) == Ok(true) {
        NodeEqMoreFuel(h, h[a].cdr, h[b].cdr, fuel - 1, more - 1);
      }
    }
  }

  // ---------------------------------------------------------------------
  // What `apply` computes

  /** `TryFrom<RuntimeNode> for Number`. */
  function NodeNumber(n: RNode): Result<Number, Error> {
    if n.RNumber? then Ok(n.num) else Err(NotANumber)
  }

  function NodesAt(h: seq<RNode>, xs: seq<nat>): (r: seq<RNode>)
    requires forall k | 0 <= k < |xs| :: xs[k] < |h|
    ensures |r| == |xs| && forall k | 0 <= k < |xs| :: r[k] == h[xs[k]]
  {
    seq(|xs|, k requires 0 <= k < |xs| => h[xs[k]])
  }

  predicate IsArith(sym: Symbol) { sym.Add? || sym.Sub? || sym.Mul? || sym.Div? }

  predicate IsRel(sym: Symbol) { sym.EqNum? || sym.Gt? || sym.Lt? || sym.Ge? || sym.Le? }

  predicate IsIntDiv(sym: Symbol) { sym.Remainder? || sym.Quotient? }

  predicate IsUnary(sym: Symbol) { sym.Atom? || sym.NumberP? || sym.Car? || sym.Cdr? }

  function ArithOp(sym: Symbol): (Number, Number) -> Number
    requires IsArith(sym)
  {
    match sym
    case Add => Numbers.Add
    case Sub => Numbers.Sub
    case Mul => Numbers.Mul
    case _ => Numbers.Div
  }

  function RelOp(sym: Symbol): (Number, Number) -> bool
    requires IsRel(sym)
  {
    match sym
    case EqNum => Numbers.Eq
    case Gt => Numbers.Gt
    case Lt => Numbers.Lt
    case Ge => Numbers.Ge
    case _ => Numbers.Le
  }

  /** `eval_arith` over runtime nodes: at least two operands, all numbers,
      folded from the left. */
  function ArithValue(nodes: seq<RNode>, op: (Number, Number) -> Number): Result<Number, Error> {
    if |nodes| < 2 then Err(FewerParams)
    else match Util.ConvertAll(nodes, NodeNumber)
      case Err(e) => Err(e)
      case Ok(ns) => Ok(Util.FoldLeft(op, ns[0], ns[1..]))
  }

  /** `eval_rel` over runtime nodes: exactly two numbers. */
  function RelValue(nodes: seq<RNode>, op: (Number, Number) -> bool): Result<Symbol, Error> {
    if |nodes| != 2 then Err(Util.ExactlyNParams(nodes, 2).error)
    else match Util.ConvertAll(nodes, NodeNumber)
      case Err(e) => Err(e)
      case Ok(ns) => Ok(if op(ns[0], ns[1]) then T else Nil)
  }

  /** Rust panics on a zero divisor and on `i64::MIN / -1`. */
  predicate IntDivDefined(lhs: RNode, rhs: RNode) {
    lhs.RNumber? && lhs.num.Int? && rhs.RNumber? && rhs.num.Int? ==> Numbers.Quotient(lhs.num.i, rhs.num.i).Some?
  }

  /** `remainder` and `quotient` on the first and second operand popped. */
  function IntDivValue(sym: Symbol, lhs: RNode, rhs: RNode): Result<Number, Error>
    requires IntDivDefined(lhs, rhs)
  {
    if lhs.RNumber? && lhs.num.Int? && rhs.RNumber? && rhs.num.Int? then
      Numbers.QuotientRemainder(lhs.num.i, rhs.num.i);
      if sym.Quotient? then Ok(Int(Numbers.Quotient(lhs.num.i, rhs.num.i).value))
      else Ok(Int(Numbers.Remainder(lhs.num.i, rhs.num.i).value))
    else Err(ExpectedTwoIntegers)
  }

  /** What `apply` does once it has popped its operator. */
  datatype Effect =
    | Fails(e: Error)      // returns the error
    | Loads(node: RNode)   // allocates the node and pushes it
    | Pushes(index: nat)   // pushes an index already in the area
    | Conses               // `new_pair`
    | Lists                // `zip_stack_nodes(nargs)`

  function ArithEffect(nodes: seq<RNode>, sym: Symbol): Effect
    requires IsArith(sym)
  {
    match ArithValue(nodes, ArithOp(sym))
    case Err(e) => Fails(e)
    case Ok(x) => Loads(RNumber(x))
  }

  function RelEffect(nodes: seq<RNode>, sym: Symbol): Effect
    requires IsRel(sym)
  {
    match RelValue(nodes, RelOp(sym))
    case Err(e) => Fails(e)
    case Ok(x) => Loads(RSymbol(x))
  }

  function IntDivEffect(sym: Symbol, lhs: RNode, rhs: RNode): Effect
    requires IntDivDefined(lhs, rhs)
  {
    match IntDivValue(sym, lhs, rhs)
    case Err(e) => Fails(e)
    case Ok(x) => Loads(RNumber(x))
  }

  function EqEffect(h: seq<RNode>, lhs: nat, rhs: nat): Effect
    requires WellFormed(h) && lhs < |h| && rhs < |h| && NodeEq(h, lhs, rhs, |h| + 1).Ok?
  {
    Loads(RSymbol(if NodeEq(h, lhs, rhs, |h| + 1).value then T else Nil))
  }

  /** `atom?` and `number?` answer `t` or `nil`; `car` and `cdr` push a
      field of a pair. */
  function UnaryEffect(sym: Symbol, n: RNode): (e: Effect)
    requires IsUnary(sym)
    ensures e.Fails? || e.Loads? || e.Pushes?
  {
    match sym
    case Atom => Loads(RSymbol(if n.RPair? then Nil else T))
    case NumberP => Loads(RSymbol(if n.RNumber? then T else Nil))
    case Car => if n.RPair? then Pushes(n.car) else Fails(NotAPair)
    case _ => if n.RPair? then Pushes(n.cdr) else Fails(NotAPair)
  }

  /** The calls of `apply` that do not panic, given the stack below the
      operator: `remainder`, `quotient` and `eq?` assert two operands,
      `atom?`, `number?`, `car` and `cdr` one; `cons` pops two whatever
      `nargs` says; the integer operations panic on a zero divisor or an
      overflowing quotient, `eq?` on closures and on cyclic structures; a
      user symbol is never applied here. */
  predicate SymbolDefined(h: seq<RNode>, s: seq<nat>, sym: Symbol, nargs: nat)
    requires WellFormed(h) && nargs <= |s| && forall k | 0 <= k < |s| :: s[k] < |h|
  {
    var n := |s|;
    if IsIntDiv(sym) then nargs == 2 && IntDivDefined(h[s[n - 1]], h[s[n - 2]])
    else if sym.Eq? then nargs == 2 && NodeEq(h, s[n - 1], s[n - 2], |h| + 1).Ok?
    else if IsUnary(sym) then nargs == 1
    else if sym.Cons? then n >= 2
    else !sym.User?
  }

  /** The top of the stack is the operator, and its call does not panic. */
  predicate ApplyDefined(h: seq<RNode>, s: seq<nat>, nargs: nat)
    requires WellFormed(h) && nargs < |s| && forall k | 0 <= k < |s| :: s[k] < |h|
  {
    var op := h[s[|s| - 1]];
    op.RSymbol? ==> SymbolDefined(h, s[..|s| - 1], op.sym, nargs)
  }

  predicate IsUnsupported(sym: Symbol) {
    sym.Floor? || sym.Ceiling? || sym.Sin? || sym.Cos? || sym.Abs?
  }

  predicate IsNumeric(sym: Symbol) { IsArith(sym) || IsRel(sym) || IsIntDiv(sym) }

  /** What the built-in `sym` does, given the area `a0`, the stack `s0`
      below the operator and the roots `r0` before it, in terms of the state
      `(a, s, r)`, the result `res` and the relocation `fwd` after it. */
  ghost predicate SymbolApplied(sym: Symbol, nargs: nat, a0: seq<RNode>, s0: seq<nat>, r0: map<string, nat>,
                                a: seq<RNode>, s: seq<nat>, r: map<string, nat>, res: Result<(), Error>, fwd: map<nat, nat>)
    requires WellFormed(a0) && nargs <= |s0| && forall k | 0 <= k < |s0| :: s0[k] < |a0|
    requires SymbolDefined(a0, s0, sym, nargs)
  {
    match sym
    case Nil | T => Applied(Fails(CannotBeHead), 0, a0, s0, r0, a, s, r, res, fwd)
    case Add | Sub | Mul | Div =>
      Applied(ArithEffect(NodesAt(a0, PopOrder(s0, nargs)), sym), nargs, a0, s0, r0, a, s, r, res, fwd)
    case EqNum | Gt | Lt | Ge | Le =>
      Applied(RelEffect(NodesAt(a0, PopOrder(s0, nargs)), sym), nargs, a0, s0, r0, a, s, r, res, fwd)
    case Remainder | Quotient =>
      Applied(IntDivEffect(sym, a0[s0[|s0| - 1]], a0[s0[|s0| - 2]]), 2, a0, s0, r0, a, s, r, res, fwd)
    case Eq => Applied(EqEffect(a0, s0[|s0| - 1], s0[|s0| - 2]), 2, a0, s0, r0, a, s, r, res, fwd)
    case Atom | NumberP | Car | Cdr => Applied(UnaryEffect(sym, a0[s0[|s0| - 1]]), 1, a0, s0, r0, a, s, r, res, fwd)
    case Cons => Applied(Conses, 2, a0, s0, r0, a, s, r, res, fwd)
    case List => Applied(Lists, nargs, a0, s0, r0, a, s, r, res, fwd)
    case Floor | Ceiling | Sin | Cos | Abs => Applied(Fails(Unsupported), 0, a0, s0, r0, a, s, r, res, fwd)
    case User(_) => false
  }

  /** The effect of the arithmetic built-ins is the one `SymbolApplied` names for them. */
  lemma ArithApplied(sym: Symbol, nargs: nat, a0: seq<RNode>, s0: seq<nat>, r0: map<string, nat>,
                     a: seq<RNode>, s: seq<nat>, r: map<string, nat>, res: Result<(), Error>, fwd: map<nat, nat>)
    requires WellFormed(a0) && nargs <= |s0| && (forall k | 0 <= k < |s0| :: s0[k] < |a0|) && SymbolDefined(a0, s0, sym, nargs)
    requires IsArith(sym) && Applied(ArithEffect(NodesAt(a0, PopOrder(s0, nargs)), sym), nargs, a0, s0, r0, a, s, r, res, fwd)
    ensures SymbolApplied(sym, nargs, a0, s0, r0, a, s, r, res, fwd)
  {
  }

  /** The effect of the comparison built-ins is the one `SymbolApplied` names for them. */
  lemma RelApplied(sym: Symbol, nargs: nat, a0: seq<RNode>, s0: seq<nat>, r0: map<string, nat>,
                     a: seq<RNode>, s: seq<nat>, r: map<string, nat>, res: Result<(), Error>, fwd: map<nat, nat>)
    requires WellFormed(a0) && nargs <= |s0| && (forall k | 0 <= k < |s0| :: s0[k] < |a0|) && SymbolDefined(a0, s0, sym, nargs)
    requires IsRel(sym) && Applied(RelEffect(NodesAt(a0, PopOrder(s0, nargs)), sym), nargs, a0, s0, r0, a, s, r, res, fwd)
    ensures SymbolApplied(sym, nargs, a0, s0, r0, a, s, r, res, fwd)
  {
  }

  /** The effect of the integer-division built-ins is the one `SymbolApplied` names for them. */
  lemma IntDivApplied(sym: Symbol, nargs: nat, a0: seq<RNode>, s0: seq<nat>, r0: map<string, nat>,
                     a: seq<RNode>, s: seq<nat>, r: map<string, nat>, res: Result<(), Error>, fwd: map<nat, nat>)
    requires WellFormed(a0) && nargs <= |s0| && (forall k | 0 <= k < |s0| :: s0[k] < |a0|) && SymbolDefined(a0, s0, sym, nargs)
    requires IsIntDiv(sym) && Applied(IntDivEffect(sym, a0[s0[|s0| - 1]], a0[s0[|s0| - 2]]), 2, a0, s0, r0, a, s, r, res, fwd)
    ensures SymbolApplied(sym, nargs, a0, s0, r0, a, s, r, res, fwd)
  {
  }

  /** The effect of the `eq?` built-ins is the one `SymbolApplied` names for them. */
  lemma EqApplied(sym: Symbol, nargs: nat, a0: seq<RNode>, s0: seq<nat>, r0: map<string, nat>,
                     a: seq<RNode>, s: seq<nat>, r: map<string, nat>, res: Result<(), Error>, fwd: map<nat, nat>)
    requires WellFormed(a0) && nargs <= |s0| && (forall k | 0 <= k < |s0| :: s0[k] < |a0|) && SymbolDefined(a0, s0, sym, nargs)
    requires sym.Eq? && Applied(EqEffect(a0, s0[|s0| - 1], s0[|s0| - 2]), 2, a0, s0, r0, a, s, r, res, fwd)
    ensures SymbolApplied(sym, nargs, a0, s0, r0, a, s, r, res, fwd)
  {
  }

  /** The effect of the one-operand built-ins is the one `SymbolApplied` names for them. */
  lemma UnaryApplied(sym: Symbol, nargs: nat, a0: seq<RNode>, s0: seq<nat>, r0: map<string, nat>,
                     a: seq<RNode>, s: seq<nat>, r: map<string, nat>, res: Result<(), Error>, fwd: map<nat, nat>)
    requires WellFormed(a0) && nargs <= |s0| && (forall k | 0 <= k < |s0| :: s0[k] < |a0|) && SymbolDefined(a0, s0, sym, nargs)
    requires IsUnary(sym) && Applied(UnaryEffect(sym, a0[s0[|s0| - 1]]), 1, a0, s0, r0, a, s, r, res, fwd)
    ensures SymbolApplied(sym, nargs, a0, s0, r0, a, s, r, res, fwd)
  {
  }

  /** The state after a built-in with effect `e` that popped `k` entries of
      the stack `s0`, from the area `a0` and the roots `r0`. */
  ghost predicate Applied(e: Effect, k: nat, a0: seq<RNode>, s0: seq<nat>, r0: map<string, nat>,
                          a: seq<RNode>, s: seq<nat>, r: map<string, nat>, res: Result<(), Error>, fwd: map<nat, nat>) {
    match e
    case Fails(err) => k <= |s0| && res == Err(err) && a == a0 && s == s0[..|s0| - k] && r == r0
    case Loads(x) => k <= |s0| && res == Ok(()) && Pushed(fwd, a0, s0[..|s0| - k], r0, a, s, r, x)
    case Pushes(i) => k <= |s0| && res == Ok(()) && a == a0 && s == s0[..|s0| - k] + [i] && r == r0
    case Conses => k == 2 && 2 <= |s0| && res == Ok(()) && AllIn(s0, fwd) &&
      Pushed(fwd, a0, s0[..|s0| - 2], r0, a, s, r, RPair(fwd[s0[|s0| - 1]], fwd[s0[|s0| - 2]]))
    case Lists => res == Ok(()) && MadeList(fwd, a0, s0, r0, k, a, s, r)
  }

  /** A one-to-one relocation translates variable maps one-to-one. */
  lemma RenameVarsInjective(f: map<nat, nat>, a: seq<RNode>, b: seq<RNode>, v: map<string, nat>, w: map<string, nat>)
    requires Moved(f, a, b) && v.Values <= f.Keys && w.Values <= f.Keys
    ensures (map k | k in v :: f[v[k]]) == (map k | k in w :: f[w[k]]) ==> v == w
  {
    var v', w' := map k | k in v :: f[v[k]], map k | k in w :: f[w[k]];
    if v' == w' {
      assert v.Keys == v'.Keys == w'.Keys == w.Keys;
      forall k | k in v ensures v[k] == w[k] {
        assert v[k] in v.Values && w[k] in w.Values;
        assert f[v[k]] == v'[k] == w'[k] == f[w[k]];
        assert Pre(f, f[v[k]]) == v[k] && Pre(f, f[w[k]]) == w[k];
      }
    }
  }

  /** Translating two leaves through a one-to-one relocation does not change
      whether they are equal. */
  lemma EqNodesRenamed(f: map<nat, nat>, a: seq<RNode>, b: seq<RNode>, i: nat, j: nat)
    requires Moved(f, a, b) && i in f && j in f
    ensures MovedNode(f, a, b, i) && MovedNode(f, a, b, j)
    ensures EqNodes(b[f[i]], b[f[j]]) == EqNodes(a[i], a[j])
  {
    MovedAt(f, a, b, i);
    MovedAt(f, a, b, j);
    var m, n := a[i], a[j];
    if m.REnv? && n.REnv? {
      assert m.vars.Values <= Children(m) && n.vars.Values <= Children(n);
      RenameVarsInjective(f, a, b, m.vars, n.vars);
      if m.outer.Some? && n.outer.Some? {
        assert m.outer.value in Children(m) && n.outer.value in Children(n);
        assert Pre(f, f[m.outer.value]) == m.outer.value && Pre(f, f[n.outer.value]) == n.outer.value;
      }
    }
  }

  /** A collection does not change the answer of `eq?`: comparing the
      relocated nodes gives what comparing the originals gave. */
  lemma {:induction false} NodeEqMoved(f: map<nat, nat>, a: seq<RNode>, b: seq<RNode>, i: nat, j: nat, fuel: nat)
    requires Moved(f, a, b) && WellFormed(a) && WellFormed(b) && i in f && j in f
    ensures i < |a| && j < |a| && f[i] < |b| && f[j] < |b|
    ensures NodeEq(b, f[i], f[j], fuel) == NodeEq(a, i, j, fuel)
    decreases fuel
  {
    EqNodesRenamed(f, a, b, i, j);
    if fuel > 0 && a[i].RPair? && a[j].RPair? {
      assert a[i].car in Children(a[i]) && a[i].cdr in Children(a[i]);
      assert a[j].car in Children(a[j]) && a[j].cdr in Children(a[j]);
      NodeEqMoved(f, a, b, a[i].car, a[j].car, fuel - 1);
      NodeEqMoved(f, a, b, a[i].cdr, a[j].cdr, fuel - 1);
    }
  }

  /** The top `k` entries of a stack, in the order `pop` returns them. */
  function PopOrder(s: seq<nat>, k: nat): (r: seq<nat>)
    requires k <= |s|
    ensures |r| == k && forall i | 0 <= i < k :: r[i] == s[|s| - 1 - i]
  {
    seq(k, i requires 0 <= i < k => s[|s| - 1 - i])
  }

  /** A relocation of a stack is one of each of its prefixes. */
  lemma RelocatedPrefix(f: map<nat, nat>, a: seq<RNode>, a': seq<RNode>,
                        s: seq<nat>, s': seq<nat>, r: map<string, nat>, r': map<string, nat>, k: nat)
    requires Relocated(f, a, a', s, s', r, r') && k <= |s|
    ensures Relocated(f, a, a', s[..k], s'[..k], r, r')
  {
    assert s'[..k] == MapSeq(f, s[..k]);
  }

  /** Popping the entry pushed before a collection gives where it moved. */
  lemma RelocatedPop(f: map<nat, nat>, a: seq<RNode>, a': seq<RNode>, s: seq<nat>, x: nat,
                     s': seq<nat>, r: map<string, nat>, r': map<string, nat>)
    requires Relocated(f, a, a', s + [x], s', r, r')
    ensures Relocated(f, a, a', s, s'[..|s|], r, r')
    ensures x in f && s'[|s|] == f[x] && x < |a| && f[x] < |a'| && a'[f[x]].REnv? == a[x].REnv?
  {
    RelocatedPrefix(f, a, a', s + [x], s', r, r', |s|);
    assert (s + [x])[..|s|] == s && (s + [x])[|s|] == x;
    MovedAt(f, a, a', x);
  }

  /** The state `(a', s', r')` is `(a, s, r)` relocated by `f`, with a new
      node `x` allocated last and pushed. */
  ghost predicate Pushed(f: map<nat, nat>, a: seq<RNode>, s: seq<nat>, r: map<string, nat>,
                         a': seq<RNode>, s': seq<nat>, r': map<string, nat>, x: RNode) {
    |s'| == |s| + 1 && |a'| > 0 && Relocated(f, a, a', s, s'[..|s|], r, r') &&
    s'[|s|] == |a'| - 1 && a'[|a'| - 1] == x
  }

  /** The state `new_pair` leaves after its collection `f`. */
  lemma PairPushed(f: map<nat, nat>, a: seq<RNode>, a': seq<RNode>,
                   s: seq<nat>, s': seq<nat>, r: map<string, nat>, r': map<string, nat>)
    requires Relocated(f, a, a', s, s', r, r') && |s| >= 2
    ensures AllIn(s, f)
    ensures var n := |s|; var x := RPair(s'[n - 1], s'[n - 2]);
      x == RPair(f[s[n - 1]], f[s[n - 2]]) &&
      Pushed(f, a, s[..n - 2], r, a' + [x], s'[..n - 2] + [|a'|], r', x)
  {
    var n := |s|;
    var x := RPair(s'[n - 1], s'[n - 2]);
    RelocatedPrefix(f, a, a', s, s', r, r', n - 2);
    RelocatedAppend(f, a, a', x, s[..n - 2], s'[..n - 2], r, r');
    assert (s'[..n - 2] + [|a'|])[..n - 2] == s'[..n - 2];
  }

  /** Part-way through `zip_stack_nodes`, with `j` entries still to be consed:
      below the top lie the relocated old stack and the first `j` of the
      entries, and the top is a list of the relocated rest of them. */
  ghost predicate Zipped(f: map<nat, nat>, a0: seq<RNode>, p0: seq<nat>, r0: map<string, nat>, xs: seq<nat>, j: nat,
                         a: seq<RNode>, s: seq<nat>, r: map<string, nat>) {
    j <= |xs| && |s| == |p0| + j + 1 &&
    Relocated(f, a0, a, p0 + xs[..j], s[..|s| - 1], r0, r) &&
    AllIn(xs[j..], f) && IsList(a, s[|s| - 1], MapSeq(f, xs[j..]))
  }

  lemma ZipStart(f: map<nat, nat>, a0: seq<RNode>, p0: seq<nat>, r0: map<string, nat>, xs: seq<nat>,
                 a: seq<RNode>, s: seq<nat>, r: map<string, nat>)
    requires Pushed(f, a0, p0 + xs, r0, a, s, r, RSymbol(Nil))
    ensures Zipped(f, a0, p0, r0, xs, |xs|, a, s, r)
  {
    assert xs[..|xs|] == xs && xs[|xs|..] == [];
    assert MapSeq(f, xs[|xs|..]) == [];
  }

  /** What `zip_stack_nodes` leaves behind: below the top, the relocated
      stack without its top `k` entries; on top, a list of those entries,
      relocated, the former top first. */
  ghost predicate MadeList(f: map<nat, nat>, a0: seq<RNode>, s0: seq<nat>, r0: map<string, nat>, k: nat,
                           a: seq<RNode>, s: seq<nat>, r: map<string, nat>) {
    k <= |s0| && |s| == |s0| - k + 1 &&
    Relocated(f, a0, a, s0[..|s0| - k], s[..|s0| - k], r0, r) &&
    AllIn(PopOrder(s0, k), f) && IsList(a, s[|s0| - k], MapSeq(f, PopOrder(s0, k)))
  }

  /** The end of the consing loop: every entry is in the list. */
  lemma ZipDone(f: map<nat, nat>, a0: seq<RNode>, s0: seq<nat>, r0: map<string, nat>, k: nat,
                a: seq<RNode>, s: seq<nat>, r: map<string, nat>)
    requires k <= |s0| && Zipped(f, a0, s0[..|s0| - k], r0, PopOrder(s0, k), 0, a, s, r)
    ensures MadeList(f, a0, s0, r0, k, a, s, r)
  {
    var p0 := s0[..|s0| - k];
    var xs := PopOrder(s0, k);
    assert p0 + xs[..0] == p0 && xs[0..] == xs;
  }

  /** The stack below the list, over one turn of the consing loop: the
      entry just consed on leaves it, and the rest moves with `g`. */
  lemma ZipRestStep(f: map<nat, nat>, g: map<nat, nat>, a0: seq<RNode>, a: seq<RNode>, a': seq<RNode>,
                    p0: seq<nat>, xs: seq<nat>, j: nat, s: seq<nat>, sw: seq<nat>, s': seq<nat>,
                    r0: map<string, nat>, r: map<string, nat>, r': map<string, nat>)
    requires 0 < j <= |xs| && |s| == |p0| + j + 1
    requires Relocated(f, a0, a, p0 + xs[..j], s[..|s| - 1], r0, r)
    requires sw == s[..|s| - 2] + [s[|s| - 1], s[|s| - 2]]
    requires |s'| == |sw| - 1 && Relocated(g, a, a', sw[..|sw| - 2], s'[..|sw| - 2], r, r')
    ensures Relocated(Compose(f, g), a0, a', p0 + xs[..j - 1], s'[..|s'| - 1], r0, r')
  {
    var n := |s|;
    var k := |p0| + j - 1;
    RelocatedPrefix(f, a0, a, p0 + xs[..j], s[..n - 1], r0, r, k);
    assert (p0 + xs[..j])[..k] == p0 + xs[..j - 1];
    assert s[..n - 1][..k] == sw[..n - 2];
    RelocatedCompose(f, g, a0, a, a', p0 + xs[..j - 1], sw[..n - 2], s'[..n - 2], r0, r, r');
  }

  /** The list on top, over one turn of the consing loop: the list below
      moves with `g`, and the new pair conses the relocated entry onto it. */
  lemma ZipListStep(f: map<nat, nat>, g: map<nat, nat>, a: seq<RNode>, a': seq<RNode>,
                    p0: seq<nat>, xs: seq<nat>, j: nat, s: seq<nat>, sw: seq<nat>, s': seq<nat>,
                    r0: map<string, nat>)
    requires 0 < j <= |xs| && |s| == |p0| + j + 1
    requires AllIn(p0 + xs[..j], f) && s[..|s| - 1] == MapSeq(f, p0 + xs[..j])
    requires AllIn(xs[j..], f) && IsList(a, s[|s| - 1], MapSeq(f, xs[j..]))
    requires sw == s[..|s| - 2] + [s[|s| - 1], s[|s| - 2]] && AllIn(sw, g)
    requires Moved(g, a, a') && |s'| == |sw| - 1 && s'[|s'| - 1] < |a'|
    requires a'[s'[|s'| - 1]] == RPair(g[sw[|sw| - 1]], g[sw[|sw| - 2]])
    ensures AllIn(xs[j - 1..], Compose(f, g)) && IsList(a', s'[|s'| - 1], MapSeq(Compose(f, g), xs[j - 1..]))
  {
    var h := Compose(f, g);
    var n := |s|;
    var l := s[n - 1];
    var src := xs[j - 1..];
    assert src[1..] == xs[j..];
    assert (p0 + xs[..j])[n - 2] == src[0];
    assert s[..n - 1][n - 2] == s[n - 2];
    assert l in g by { assert sw[n - 2] == l; }
    assert f[src[0]] in g by { assert sw[n - 1] == s[n - 2]; }
    IsListMoved(g, a, a', l, MapSeq(f, src[1..]));
    MapSeqCompose(f, g, src[1..]);
    assert AllIn(src, h) by {
      forall k | 0 <= k < |src| ensures src[k] in h {
        if k > 0 { assert src[k] == src[1..][k - 1]; }
      }
    }
    var zs := MapSeq(h, src);
    assert zs[1..] == MapSeq(h, src[1..]);
  }

  /** One turn of the consing loop of `zip_stack_nodes`: a swap, then
      `new_pair`, whose relocation `g` composes with the one so far. */
  lemma ZipStep(f: map<nat, nat>, g: map<nat, nat>, a0: seq<RNode>, p0: seq<nat>, r0: map<string, nat>, xs: seq<nat>, j: nat,
                a: seq<RNode>, s: seq<nat>, r: map<string, nat>, sw: seq<nat>,
                a': seq<RNode>, s': seq<nat>, r': map<string, nat>)
    requires Zipped(f, a0, p0, r0, xs, j, a, s, r) && j > 0
    requires sw == s[..|s| - 2] + [s[|s| - 1], s[|s| - 2]]
    requires AllIn(sw, g)
    requires Pushed(g, a, sw[..|sw| - 2], r, a', s', r', RPair(g[sw[|sw| - 1]], g[sw[|sw| - 2]]))
    ensures Zipped(Compose(f, g), a0, p0, r0, xs, j - 1, a', s', r')
  {
    ZipRestStep(f, g, a0, a, a', p0, xs, j, s, sw, s', r0, r, r');
    ZipListStep(f, g, a, a', p0, xs, j, s, sw, s', r0);
  }

  /** Turning the node at `cur` into a broken heart moves only `cur`. */
  lemma ForwardReached(orig: seq<RNode>, a: seq<RNode>, cur: nat, dst: nat)
    requires cur < |a| == |orig| && !a[cur].BrokenHeart?
    ensures Keeps(a, a[cur := BrokenHeart(dst)]) && NewlyReached(orig, a, a[cur := BrokenHeart(dst)], {cur})
  {
    ReachableStart(orig, {cur}, cur);
  }

  /** Two copying steps, each moving only what `s` reaches, in a row. */
  lemma KeepsReachedTrans(orig: seq<RNode>, a: seq<RNode>, b: seq<RNode>, c: seq<RNode>, s: set<nat>)
    requires Keeps(a, b) && NewlyReached(orig, a, b, s)
    requires Keeps(b, c) && NewlyReached(orig, b, c, s)
    ensures Keeps(a, c) && NewlyReached(orig, a, c, s)
  {
    KeepsTrans(a, b, c);
    NewlyTrans(orig, a, b, c, s);
  }

  /** The start of `gc`: nothing has moved, and every root is live. */
  lemma GcBegin(orig: seq<RNode>, s: seq<nat>, r: map<string, nat>, entries: seq<(string, nat)>)
    requires WellFormed(orig)
    requires (forall k | 0 <= k < |s| :: s[k] < |orig|) && (forall n | n in r :: r[n] < |orig|)
    requires forall i | 0 <= i < |entries| :: entries[i].0 in r && r[entries[i].0] == entries[i].1
    requires Util.DistinctKeys(entries)
    ensures GcInv(orig, orig, [], [], {}) && Keeps(orig, orig) && NewlyReached(orig, orig, orig, RootSet(s, r))
    ensures RootsCopied(entries, 0, r, r, orig)
    ensures forall i | 0 <= i < |entries| :: entries[i].1 in RootSet(s, r) && entries[i].1 < |orig|
    ensures forall k | 0 <= k < |s| :: s[k] in RootSet(s, r) && s[k] < |orig|
  {
    GcStart(orig);
    forall i | 0 <= i < |entries| ensures entries[i].1 in RootSet(s, r) {
      assert entries[i].1 == r[entries[i].0];
    }
  }

  /** The copies of the roots survive the copying of the stack. */
  lemma RootsKept(entries: seq<(string, nat)>, oldRoots: map<string, nat>, roots: map<string, nat>,
                  before: seq<RNode>, after: seq<RNode>)
    requires RootsCopied(entries, |entries|, oldRoots, roots, before) && Keeps(before, after)
    ensures RootsCopied(entries, |entries|, oldRoots, roots, after)
  {
    forall i | 0 <= i < |entries| ensures after[entries[i].1] == BrokenHeart(roots[entries[i].0]) {
      assert before[entries[i].1].BrokenHeart?;
    }
  }

  /** The end of `gc`: the copied area, the rewritten stack and the
      rewritten roots are a relocation of what was live. */
  lemma GcConclude(orig: seq<RNode>, from: seq<RNode>, to: seq<RNode>, origin: seq<nat>,
                   s: seq<nat>, s': seq<nat>, r: map<string, nat>, r': map<string, nat>)
    requires GcInv(orig, from, to, origin, {}) && EnvsClosed(orig)
    requires NewlyReached(orig, orig, from, RootSet(s, r))
    requires |s'| == |s| && forall k | 0 <= k < |s| :: s[k] < |from| && from[s[k]] == BrokenHeart(s'[k])
    requires r'.Keys == r.Keys && forall n | n in r' :: n in r && r[n] < |from| && from[r[n]] == BrokenHeart(r'[n])
    ensures Relocated(FwdMap(from), orig, to, s, s', r, r') && Onto(FwdMap(from), to)
    ensures FwdMap(from).Keys == ReachSet(orig, RootSet(s, r)) && |to| == |FwdMap(from).Keys| && |to| <= |orig|
    ensures WellFormed(to) && EnvsClosed(to)
    ensures (forall k | 0 <= k < |s'| :: s'[k] < |to|) && (forall n | n in r' :: r'[n] < |to|)
  {
    LiveMoved(from, s, s', r, r');
    GcDone(orig, from, to, origin, RootSet(s, r));
    GcBounds(orig, from, to, origin);
    RootsRelocated(from, |to|, s, s', r, r');
  }

  /** Every root and stack entry has a broken heart in the old area. */
  lemma LiveMoved(from: seq<RNode>, s: seq<nat>, s': seq<nat>, r: map<string, nat>, r': map<string, nat>)
    requires |s'| == |s| && forall k | 0 <= k < |s| :: s[k] < |from| && from[s[k]] == BrokenHeart(s'[k])
    requires r'.Keys == r.Keys && forall n | n in r' :: n in r && r[n] < |from| && from[r[n]] == BrokenHeart(r'[n])
    ensures forall x | x in RootSet(s, r) :: x < |from| && from[x].BrokenHeart?
  {
    forall x | x in RootSet(s, r) ensures x < |from| && from[x].BrokenHeart? {
      if x !in r.Values {
        var k :| 0 <= k < |s| && s[k] == x;
      } else {
        var n :| n in r && r[n] == x;
      }
    }
  }

  /** The rewritten stack and roots are the old ones seen through the
      forwarding map of `from`. */
  lemma RootsRelocated(from: seq<RNode>, bound: nat, s: seq<nat>, s': seq<nat>, r: map<string, nat>, r': map<string, nat>)
    requires forall i | 0 <= i < |from| && from[i].BrokenHeart? :: from[i].dst < bound
    requires |s'| == |s| && forall k | 0 <= k < |s| :: s[k] < |from| && from[s[k]] == BrokenHeart(s'[k])
    requires r'.Keys == r.Keys && forall n | n in r' :: n in r && r[n] < |from| && from[r[n]] == BrokenHeart(r'[n])
    ensures var f := FwdMap(from); AllIn(s, f) && s' == MapSeq(f, s) && ValsIn(r, f) && r' == MapVals(f, r)
    ensures (forall k | 0 <= k < |s'| :: s'[k] < bound) && (forall n | n in r' :: r'[n] < bound)
  {
    var f := FwdMap(from);
    assert s' == MapSeq(f, s);
    assert r' == MapVals(f, r);
  }

  /** After `k` entries of the root list: the processed roots point at the
      copies of their old nodes, the others are unchanged. */
  ghost predicate RootsCopied(entries: seq<(string, nat)>, k: nat, oldRoots: map<string, nat>,
                              roots: map<string, nat>, area: seq<RNode>)
  {
    k <= |entries| && roots.Keys == oldRoots.Keys &&
    (forall i | 0 <= i < |entries| :: entries[i].0 in oldRoots && oldRoots[entries[i].0] == entries[i].1) &&
    Util.DistinctKeys(entries) &&
    (forall i | k <= i < |entries| :: roots[entries[i].0] == entries[i].1) &&
    (forall i | 0 <= i < k :: entries[i].1 < |area| && area[entries[i].1] == BrokenHeart(roots[entries[i].0]))
  }

  lemma RootsStep(entries: seq<(string, nat)>, k: nat, oldRoots: map<string, nat>, roots: map<string, nat>,
                  before: seq<RNode>, after: seq<RNode>, newRoot: nat)
    requires RootsCopied(entries, k, oldRoots, roots, before) && k < |entries| && Keeps(before, after)
    requires entries[k].1 < |after| && after[entries[k].1] == BrokenHeart(newRoot)
    ensures RootsCopied(entries, k + 1, oldRoots, roots[entries[k].0 := newRoot], after)
  {
    var roots' := roots[entries[k].0 := newRoot];
    forall i | k + 1 <= i < |entries| ensures roots'[entries[i].0] == entries[i].1 {
      Util.DistinctAt(entries, k, i);
    }
    forall i | 0 <= i < k + 1 ensures entries[i].1 < |after| && after[entries[i].1] == BrokenHeart(roots'[entries[i].0]) {
      if i < k {
        Util.DistinctAt(entries, i, k);
        assert before[entries[i].1].BrokenHeart?;
      }
    }
  }

  lemma RootsEnd(entries: seq<(string, nat)>, oldRoots: map<string, nat>, roots: map<string, nat>, area: seq<RNode>)
    requires RootsCopied(entries, |entries|, oldRoots, roots, area)
    requires Util.KeysOf(entries) == oldRoots.Keys
    ensures roots.Keys == oldRoots.Keys
    ensures forall n | n in roots :: n in oldRoots && oldRoots[n] < |area| && area[oldRoots[n]] == BrokenHeart(roots[n])
  {
    forall n | n in roots ensures n in oldRoots && oldRoots[n] < |area| && area[oldRoots[n]] == BrokenHeart(roots[n]) {
      var i := Util.KeyIndex(entries, n);
    }
  }

  /** Stack entries whose nodes had moved still point at broken hearts. */
  lemma KeepsListed(before: seq<RNode>, after: seq<RNode>, olds: seq<nat>, news: seq<nat>)
    requires Keeps(before, after) && |news| <= |olds|
    requires forall i | 0 <= i < |news| :: olds[i] < |before| && before[olds[i]] == BrokenHeart(news[i])
    ensures forall i | 0 <= i < |news| :: olds[i] < |after| && after[olds[i]] == BrokenHeart(news[i])
  {
  }

  /** Entries whose nodes had moved still point at broken hearts. */
  lemma KeepsMapped(before: seq<RNode>, after: seq<RNode>, vars: map<string, nat>, newVars: map<string, nat>)
    requires Keeps(before, after)
    requires forall x | x in newVars :: x in vars && vars[x] < |before| && before[vars[x]] == BrokenHeart(newVars[x])
    ensures forall x | x in newVars :: x in vars && vars[x] < |after| && after[vars[x]] == BrokenHeart(newVars[x])
  {
  }

  /** Bookkeeping after the copy of one root. */
  lemma AfterRoot(orig: seq<RNode>, before: seq<RNode>, after: seq<RNode>, root: nat, live: set<nat>)
    requires root in live
    requires Keeps(orig, before) && NewlyReached(orig, orig, before, live)
    requires Keeps(before, after) && NewlyReached(orig, before, after, {root})
    ensures Keeps(orig, after) && NewlyReached(orig, orig, after, live)
  {
    NewlyWiden(orig, before, after, {root}, live);
    NewlyTrans(orig, orig, before, after, live);
  }

  /** The pair rebuilt by `gc_dfs` is the translation of the old one. */
  lemma PairCopied(n: RNode, before: seq<RNode>, after: seq<RNode>, na: nat, nd: nat)
    requires n.RPair? && Keeps(before, after)
    requires n.car < |before| && before[n.car] == BrokenHeart(na)
    requires n.cdr < |after| && after[n.cdr] == BrokenHeart(nd)
    ensures Children(n) <= FwdMap(after).Keys && RPair(na, nd) == Rename(n, FwdMap(after))
  {
    assert after[n.car] == before[n.car];
  }

  /** The environment rebuilt by `gc_dfs` is the translation of the old one. */
  lemma EnvCopied(n: RNode, from: seq<RNode>, newVars: map<string, nat>, newOuter: Option<nat>)
    requires n.REnv?
    requires newVars.Keys == n.vars.Keys
    requires forall x | x in n.vars :: n.vars[x] < |from| && from[n.vars[x]] == BrokenHeart(newVars[x])
    requires n.outer.Some? <==> newOuter.Some?
    requires n.outer.Some? ==> n.outer.value < |from| && from[n.outer.value] == BrokenHeart(newOuter.value)
    ensures Children(n) <= FwdMap(from).Keys
    ensures REnv(n.name, newVars, newOuter) == Rename(n, FwdMap(from))
  {
    var f := FwdMap(from);
    forall c | c in Children(n) ensures c in f {
      if c in n.vars.Values {
        var x :| x in n.vars && n.vars[x] == c;
      }
    }
    assert newVars == map k | k in n.vars :: f[n.vars[k]];
  }
}
