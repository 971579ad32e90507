/** The C interface of the runtime (src/lib.rs): the protocol by which
    compiled code calls a closure, and the small wrappers it calls for pair
    mutation, truth values, variables and packages.  The one global runtime
    behind a mutex is the parameter `rt`; the native body of a closure is
    modelled as a body that pushes one value, a symbol or a number. */
module Lib {
  import opened Wrappers
  import opened Errors
  import opened Symbols
  import opened Heap
  import opened Runtime
  import opened Text
  import Env

  /** The temporary root that holds the caller's frame during a call. */
  const OLD_ENV: string := "__old_env"

  /** 2^64: `usize` arithmetic wraps modulo this. */
  const USIZE: nat := 0x1_0000_0000_0000_0000

  // ---------------------------------------------------------------------
  // Arity, as written and as intended

  /** The arity check of `call_closure` and `tail_call_closure` as written:
      only a closure that is not variadic is checked. */
  predicate EnterArityAsWritten(c: Closure, nparams: nat) {
    !(!c.variadic && c.nargs != nparams)
  }

  /** `nparams - c.nargs + 1`, the number of entries zipped into the rest
      list, computed left to right in wrapping `usize` arithmetic. */
  function RestCountAsWritten(c: Closure, nparams: nat): (z: nat)
    requires 0 < c.nargs < USIZE && nparams < USIZE
    ensures z < USIZE
    ensures c.nargs <= nparams + 1 ==> z == nparams + 1 - c.nargs
    ensures nparams + 1 < c.nargs ==> z == USIZE - (c.nargs - 1 - nparams)
  {
    ((nparams - c.nargs) % USIZE + 1) % USIZE
  }

  /** The written check lets a variadic closure with three parameters be
      called with one argument: binding then pops two entries for the two
      fixed parameters, one more than the caller pushed, and asks for
      2^64 - 1 more for the rest list. */
  lemma TooFewArgumentsAdmitted()
    ensures var c := Closure("f", 0, 0, 3, true);
      EnterArityAsWritten(c, 1) && !CallArity(c, 1) &&
      c.nargs - 1 > 1 && RestCountAsWritten(c, 1) == USIZE - 1
  {
  }

  /** The intended check, `CallArity`, accepts a subset of what the written
      one accepts, and differs from it exactly on the variadic calls with
      fewer arguments than fixed parameters. */
  lemma ArityChecks(c: Closure, nparams: nat)
    ensures CallArity(c, nparams) ==> EnterArityAsWritten(c, nparams)
    ensures EnterArityAsWritten(c, nparams) && !CallArity(c, nparams) <==> c.variadic && nparams + 1 < c.nargs
  {
  }

  /** Under the intended check the rest count does not wrap, and the fixed
      parameters and the rest list together take exactly the arguments. */
  lemma CallArityRest(c: Closure, nparams: nat)
    requires CallArity(c, nparams) && c.variadic && 0 < c.nargs < USIZE && nparams < USIZE
    ensures (c.nargs - 1) + RestCountAsWritten(c, nparams) == nparams
  {
  }

  // ---------------------------------------------------------------------
  // Calls

  /** The state a call returns: where the closure and its arguments were,
      the value the body pushed; below it, the stack, and all the roots,
      the current frame among them, relocated by `f`. */
  ghost predicate Returned(f: map<nat, nat>, a0: seq<RNode>, s0: seq<nat>, r0: map<string, nat>,
                           a: seq<RNode>, s: seq<nat>, r: map<string, nat>, x: RNode) {
    |s| == |s0| + 1 && Relocated(f, a0, a, s0, s[..|s0|], r0, r) && s[|s0|] < |a| && a[s[|s0|]] == x
  }

  /** A returned call leaves the same roots, and the caller's frame current
      again. */
  lemma ReturnedRestores(f: map<nat, nat>, a0: seq<RNode>, s0: seq<nat>, r0: map<string, nat>,
                         a: seq<RNode>, s: seq<nat>, r: map<string, nat>, x: RNode)
    requires Returned(f, a0, s0, r0, a, s, r, x) && CUR_ENV in r0 && r0[CUR_ENV] < |a0|
    ensures r.Keys == r0.Keys && r[CUR_ENV] == f[r0[CUR_ENV]] && r[CUR_ENV] < |a|
    ensures a0[r0[CUR_ENV]].REnv? ==> a[r[CUR_ENV]].REnv? && a[r[CUR_ENV]].name == a0[r0[CUR_ENV]].name
  {
    MovedAt(f, a0, a, r0[CUR_ENV]);
  }

  /** The stack over a call: the entries below the arguments relocated by
      binding and then by the body. */
  lemma CallStack(f1: map<nat, nat>, f2: map<nat, nat>, b: seq<nat>, s1: seq<nat>, s2: seq<nat>, s3: seq<nat>, s: seq<nat>)
    requires AllIn(b, f1) && s1 == MapSeq(f1, b)
    requires |s2| == |s1| + 1 && s2[..|s1|] == s1
    requires |s3| == |s2| + 1 && AllIn(s2, f2) && s3[..|s2|] == MapSeq(f2, s2)
    requires s == s3[..|s3| - 2] + [s3[|s3| - 1]]
    ensures AllIn(b, Compose(f1, f2)) && s[..|b|] == MapSeq(Compose(f1, f2), b)
    ensures |s| == |b| + 1 && s[|b|] == s3[|s2|]
    ensures s3[|s2| - 1] == f2[s2[|s1|]]
  {
    forall k | 0 <= k < |b| ensures b[k] in Compose(f1, f2) && s[k] == f2[f1[b[k]]] {
      assert s2[k] == s1[k];
      assert s[k] == s3[k];
    }
  }

  /** The roots over a call: `__old_env` comes and goes, the other roots
      are relocated by binding and then by the body, and `__cur_env` is set
      back to the caller's frame, relocated. */
  lemma CallRoots(f1: map<nat, nat>, f2: map<nat, nat>, r0: map<string, nat>, r1: map<string, nat>,
                  r3: map<string, nat>, r: map<string, nat>)
    requires CUR_ENV in r0 && OLD_ENV !in r0
    requires var r' := r0[OLD_ENV := r0[CUR_ENV]];
      ValsIn(r' - {CUR_ENV}, f1) && r1 - {CUR_ENV} == MapVals(f1, r' - {CUR_ENV}) && CUR_ENV in r1
    requires ValsIn(r1 - {OLD_ENV}, f2) && r3 == MapVals(f2, r1 - {OLD_ENV})
    requires OLD_ENV in r1 && r1[OLD_ENV] in f2 && r == r3[CUR_ENV := f2[r1[OLD_ENV]]]
    ensures ValsIn(r0, Compose(f1, f2)) && r == MapVals(Compose(f1, f2), r0)
  {
    var r' := r0[OLD_ENV := r0[CUR_ENV]];
    assert r1[OLD_ENV] == f1[r0[CUR_ENV]] by {
      assert OLD_ENV in r' - {CUR_ENV};
    }
    forall k | k in r0 ensures r0[k] in Compose(f1, f2) {
      if k != CUR_ENV {
        assert k in r' - {CUR_ENV} && k in r1 - {OLD_ENV};
      }
    }
    forall k | k in r ensures k in r0 {
      if k != CUR_ENV {
        assert k in r3 && k in r1 - {OLD_ENV} && k in r1 - {CUR_ENV};
      }
    }
    forall k | k in r0 ensures k in r && r[k] == Compose(f1, f2)[r0[k]] {
      if k != CUR_ENV {
        assert k in r' - {CUR_ENV};
        assert k in r1 - {OLD_ENV};
      }
    }
  }

  /** The frame a call saved is still a frame when the body returns. */
  lemma SavedFrame(f1: map<nat, nat>, f2: map<nat, nat>, a0: seq<RNode>, a1: seq<RNode>, a3: seq<RNode>, e: nat)
    requires Moved(f1, a0, a1) && Moved(f2, a1, a3) && e < |a0| && e in f1 && f1[e] in f2 && a0[e].REnv?
    ensures f2[f1[e]] < |a3| && a3[f2[f1[e]]].REnv?
  {
    MovedAt(f1, a0, a1, e);
    MovedAt(f2, a1, a3, f1[e]);
  }

  /** The state in which the body of a called closure starts: the callee's
      frame current with the arguments bound, as `prepare_args` leaves it,
      and, on top of the stack, the caller's frame, relocated; the root
      `__old_env` that held it meanwhile is gone again. */
  ghost predicate Entered(f: map<nat, nat>, a0: seq<RNode>, s0: seq<nat>, r0: map<string, nat>, c: Closure, nparams: nat,
                          a: seq<RNode>, s: seq<nat>, r: map<string, nat>) {
    CUR_ENV in r0 && OLD_ENV !in r0 && |s| > 0 && OLD_ENV !in r &&
    ArgsPrepared(f, a0, s0, r0[OLD_ENV := r0[CUR_ENV]], c, nparams, a, s[..|s| - 1], r[OLD_ENV := s[|s| - 1]])
  }

  /** The first half of `call_closure`, once the closure is popped and its
      arity checked. */
  method CallEnter(rt: Runtime, c: Closure, nparams: nat) returns (ghost f: map<nat, nat>)
    requires rt.Valid() && CUR_ENV in rt.roots && OLD_ENV !in rt.roots && rt.area[rt.roots[CUR_ENV]].REnv?
    requires c.env < |rt.area| && rt.area[c.env].REnv? && CallArity(c, nparams) && ArgsTaken(c, nparams) <= |rt.stack|
    modifies rt`area, rt`spare, rt`stack, rt`roots, rt`size
    ensures rt.Valid() && Entered(f, old(rt.area), old(rt.stack), old(rt.roots), c, nparams, rt.area, rt.stack, rt.roots)
    ensures rt.area[rt.stack[|rt.stack| - 1]].REnv?
  {
    var oldEnv := rt.CurrentEnv();
    rt.AddRoot(OLD_ENV, oldEnv);
    ghost var r0 := rt.roots;
    f := rt.EnterFrame(c, nparams);
    ghost var a1, s1, r1 := rt.area, rt.stack, rt.roots;
    assert OLD_ENV in r0 - {CUR_ENV} && OLD_ENV in r1 - {CUR_ENV};
    MovedAt(f, old(rt.area), a1, oldEnv);
    var saved := rt.RemoveRoot(OLD_ENV);
    rt.Push(saved);
    assert rt.stack[..|rt.stack| - 1] == s1;
    assert rt.roots[OLD_ENV := saved] == r1;
  }

  /** The second half of `call_closure`: pops the result and the saved
      frame, makes that frame current and pushes the result back. */
  method CallLeave(rt: Runtime)
    requires rt.Valid() && |rt.stack| >= 2 && rt.area[rt.stack[|rt.stack| - 2]].REnv?
    modifies rt`stack, rt`roots
    ensures rt.Valid()
    ensures var s := old(rt.stack); var n := |s|;
      rt.stack == s[..n - 2] + [s[n - 1]] && rt.roots == old(rt.roots)[CUR_ENV := s[n - 2]]
  {
    var value := rt.Pop();
    var back := rt.Pop();
    rt.MoveToEnv(back);
    rt.Push(value);
  }

  /** `call_closure` from its parts: entering (relocation `f1`), the body
      (relocation `f2`, one value pushed) and leaving. */
  lemma CallReturned(f1: map<nat, nat>, f2: map<nat, nat>, a0: seq<RNode>, s0: seq<nat>, r0: map<string, nat>,
                     c: Closure, nparams: nat, a1: seq<RNode>, s1: seq<nat>, r1: map<string, nat>,
                     a: seq<RNode>, s2: seq<nat>, r2: map<string, nat>, x: RNode, s: seq<nat>, r: map<string, nat>)
    requires Entered(f1, a0, s0, r0, c, nparams, a1, s1, r1) && Pushed(f2, a1, s1, r1, a, s2, r2, x)
    requires |s2| >= 2 && s == s2[..|s2| - 2] + [s2[|s2| - 1]] && r == r2[CUR_ENV := s2[|s2| - 2]]
    ensures Returned(Compose(f1, f2), a0, s0[..|s0| - ArgsTaken(c, nparams)], r0, a, s, r, x)
  {
    var t := ArgsTaken(c, nparams);
    var b1 := s1[..|s1| - 1];
    MovedCompose(f1, a0, a1, f2, a);
    CallStack(f1, f2, s0[..|s0| - t], b1, s1, s2, s);
    var r1' := r1[OLD_ENV := s1[|s1| - 1]];
    assert r1' - {OLD_ENV} == r1 && r1'[OLD_ENV] == s1[|s1| - 1];
    CallRoots(f1, f2, r0, r1', r2, r);
  }

  /** A push keeps the frame below it a frame, relocated. */
  lemma PushedOver(f: map<nat, nat>, a: seq<RNode>, s: seq<nat>, r: map<string, nat>,
                   a': seq<RNode>, s': seq<nat>, r': map<string, nat>, x: RNode)
    requires Pushed(f, a, s, r, a', s', r', x) && |s| > 0 && s[|s| - 1] < |a| && a[s[|s| - 1]].REnv?
    ensures |s'| >= 2 && s[|s| - 1] in f && s'[|s'| - 2] == f[s[|s| - 1]]
    ensures s'[|s'| - 2] < |a'| && a'[s'[|s'| - 2]].REnv?
  {
    assert s'[|s'| - 2] == s'[..|s|][|s| - 1];
    MovedAt(f, a, a', s[|s| - 1]);
  }

  /** `call_closure` once the closure `c` is popped and its arity checked. */
  method CallChecked(rt: Runtime, c: Closure, nparams: nat, ret: RNode) returns (ghost fwd: map<nat, nat>)
    requires rt.Valid() && CUR_ENV in rt.roots && OLD_ENV !in rt.roots && rt.area[rt.roots[CUR_ENV]].REnv?
    requires c.env < |rt.area| && rt.area[c.env].REnv? && CallArity(c, nparams) && ArgsTaken(c, nparams) <= |rt.stack|
    requires ret.RSymbol? || ret.RNumber?
    modifies rt`area, rt`spare, rt`stack, rt`roots, rt`size
    ensures rt.Valid()
    ensures Returned(fwd, old(rt.area), old(rt.stack)[..|old(rt.stack)| - ArgsTaken(c, nparams)], old(rt.roots),
                     rt.area, rt.stack, rt.roots, ret)
  {
    ghost var a0, s0, r0 := rt.area, rt.stack, rt.roots;
    ghost var f1 := CallEnter(rt, c, nparams);
    ghost var a1, s1, r1 := rt.area, rt.stack, rt.roots;
    ghost var f2 := rt.LoadTo(ret);
    ghost var a2, s2, r2 := rt.area, rt.stack, rt.roots;
    PushedOver(f2, a1, s1, r1, a2, s2, r2, ret);
    CallLeave(rt);
    CallReturned(f1, f2, a0, s0, r0, c, nparams, a1, s1, r1, a2, s2, r2, ret, rt.stack, rt.roots);
    fwd := Compose(f1, f2);
  }

  /** `call_closure`, with the intended arity check: pops the closure, saves
      the current frame under the root `__old_env`, enters a new frame with
      the arguments bound, parks the saved frame on the stack and runs the
      body; then pops the result and the saved frame, makes that frame
      current again and pushes the result.  A node that is not a closure,
      or an arity the closure does not admit, is an error after the pop,
      and nothing else changes. */
  method CallClosure(rt: Runtime, nparams: nat, ret: RNode) returns (r: Result<(), Error>, ghost fwd: map<nat, nat>)
    requires rt.Valid() && |rt.stack| > 0 && CUR_ENV in rt.roots && OLD_ENV !in rt.roots && rt.area[rt.roots[CUR_ENV]].REnv?
    requires var s := rt.stack; var n := rt.area[s[|s| - 1]];
      n.RClosure? && CallArity(n.c, nparams) ==> ArgsTaken(n.c, nparams) < |s|
    requires ret.RSymbol? || ret.RNumber?
    modifies rt`area, rt`spare, rt`stack, rt`roots, rt`size
    ensures rt.Valid()
    ensures var s0 := old(rt.stack); var n := old(rt.area)[s0[|s0| - 1]];
      !n.RClosure? ==> (r == Err(NotAClosure) && rt.stack == s0[..|s0| - 1] &&
        rt.area == old(rt.area) && rt.roots == old(rt.roots))
    ensures var s0 := old(rt.stack); var n := old(rt.area)[s0[|s0| - 1]];
      n.RClosure? && !CallArity(n.c, nparams) ==> (r == Err(ArityMismatch(n.c.nargs, nparams)) &&
        rt.stack == s0[..|s0| - 1] && rt.area == old(rt.area) && rt.roots == old(rt.roots))
    ensures var s0 := old(rt.stack); var n := old(rt.area)[s0[|s0| - 1]];
      n.RClosure? && CallArity(n.c, nparams) ==> (r == Ok(()) &&
        Returned(fwd, old(rt.area), s0[..|s0| - 1 - ArgsTaken(n.c, nparams)], old(rt.roots), rt.area, rt.stack, rt.roots, ret))
  {
    fwd := map[];
    ghost var s0 := rt.stack;
    var index := rt.Pop();
    if !rt.area[index].RClosure? {
      return Err(NotAClosure), fwd;
    }
    var c := rt.area[index].c;
    if !CallArity(c, nparams) {
      return Err(ArityMismatch(c.nargs, nparams)), fwd;
    }
    assert rt.stack[..|rt.stack| - ArgsTaken(c, nparams)] == s0[..|s0| - 1 - ArgsTaken(c, nparams)];
    fwd := CallChecked(rt, c, nparams, ret);
    r := Ok(());
  }

  /** `tail_call_closure`, with the intended arity check: as `call_closure`,
      but the caller's frame is neither saved nor restored, so after the
      body the callee's frame is still current.  `a1`, `s1` and `r1` are the
      state in which the body starts. */
  method TailCallClosure(rt: Runtime, nparams: nat, ret: RNode)
    returns (r: Result<(), Error>, ghost fwd: map<nat, nat>, ghost body: map<nat, nat>,
             ghost a1: seq<RNode>, ghost s1: seq<nat>, ghost r1: map<string, nat>)
    requires rt.Valid() && |rt.stack| > 0
    requires var s := rt.stack; var n := rt.area[s[|s| - 1]];
      n.RClosure? && CallArity(n.c, nparams) ==> ArgsTaken(n.c, nparams) < |s|
    requires ret.RSymbol? || ret.RNumber?
    modifies rt`area, rt`spare, rt`stack, rt`roots, rt`size
    ensures rt.Valid()
    ensures var s0 := old(rt.stack); var n := old(rt.area)[s0[|s0| - 1]];
      !n.RClosure? ==> (r == Err(NotAClosure) && rt.stack == s0[..|s0| - 1] &&
        rt.area == old(rt.area) && rt.roots == old(rt.roots))
    ensures var s0 := old(rt.stack); var n := old(rt.area)[s0[|s0| - 1]];
      n.RClosure? && !CallArity(n.c, nparams) ==> (r == Err(ArityMismatch(n.c.nargs, nparams)) &&
        rt.stack == s0[..|s0| - 1] && rt.area == old(rt.area) && rt.roots == old(rt.roots))
    ensures var s0 := old(rt.stack); var n := old(rt.area)[s0[|s0| - 1]];
      n.RClosure? && CallArity(n.c, nparams) ==> (r == Ok(()) &&
        ArgsPrepared(fwd, old(rt.area), s0[..|s0| - 1], old(rt.roots), n.c, nparams, a1, s1, r1) &&
        Pushed(body, a1, s1, r1, rt.area, rt.stack, rt.roots, ret))
  {
    fwd, body := map[], map[];
    a1, s1, r1 := rt.area, rt.stack, rt.roots;
    var index := rt.Pop();
    if !rt.area[index].RClosure? {
      return Err(NotAClosure), fwd, body, a1, s1, r1;
    }
    var c := rt.area[index].c;
    if !CallArity(c, nparams) {
      return Err(ArityMismatch(c.nargs, nparams)), fwd, body, a1, s1, r1;
    }
    fwd := rt.EnterFrame(c, nparams);
    a1, s1, r1 := rt.area, rt.stack, rt.roots;
    body := rt.LoadTo(ret);
    r := Ok(());
  }

  /** After a tail call the current frame is the callee's: the frame named
      "closure" that the call created, relocated by the body, inside the
      relocated environment of the closure; it is none of the caller's
      frames. */
  lemma TailCallStaysInCallee(f: map<nat, nat>, body: map<nat, nat>, a0: seq<RNode>, s0: seq<nat>, r0: map<string, nat>,
                              c: Closure, nparams: nat, a1: seq<RNode>, s1: seq<nat>, r1: map<string, nat>,
                              a: seq<RNode>, s: seq<nat>, r: map<string, nat>, x: RNode)
    requires ArgsPrepared(f, a0, s0, r0, c, nparams, a1, s1, r1) && Pushed(body, a1, s1, r1, a, s, r, x)
    ensures CUR_ENV in r && r[CUR_ENV] == body[r1[CUR_ENV]]
    ensures r[CUR_ENV] < |a| && a[r[CUR_ENV]].REnv? && a[r[CUR_ENV]].name == "closure"
    ensures f[c.env] in body && a[r[CUR_ENV]].outer == Some(body[f[c.env]])
    ensures forall i | i in f :: f[i] != r1[CUR_ENV]
  {
    var e := r1[CUR_ENV];
    MovedAt(body, a1, a, e);
    assert f[c.env] in Children(a1[e]);
  }

  /** With a variadic closure called with one argument fewer than its
      parameters, the rest list is empty: the last parameter is nil. */
  lemma EmptyRest(a: seq<RNode>, e: nat, c: Closure, vals: seq<nat>)
    requires ParamsBound(a, e, c, vals) && c.variadic && 0 < c.nargs && |vals| == c.nargs - 1
    ensures var last := ParamName(c.nargs - 1, c.name);
      last in a[e].vars && a[a[e].vars[last]] == RSymbol(Nil)
  {
    assert vals[c.nargs - 1..] == [];
  }

  // ---------------------------------------------------------------------
  // The wrappers

  /** `rt_set_car`: the pair's index on success, 0 when the node is not a
      pair. */
  method RtSetCar(rt: Runtime, index: nat, target: nat) returns (res: nat)
    requires rt.Valid() && index < |rt.area| && target < |rt.area|
    modifies rt`area, rt`spare
    ensures rt.Valid()
    ensures old(rt.area)[index].RPair? ==> res == index && rt.area == old(rt.area)[index := RPair(target, old(rt.area)[index].cdr)]
    ensures !old(rt.area)[index].RPair? ==> res == 0 && rt.area == old(rt.area)
  {
    var r := rt.SetCar(true, index, target);
    res := if r.Ok? then index else 0;
  }

  /** `rt_set_cdr`: the pair's index on success, 0 when the node is not a
      pair. */
  method RtSetCdr(rt: Runtime, index: nat, target: nat) returns (res: nat)
    requires rt.Valid() && index < |rt.area| && target < |rt.area|
    modifies rt`area, rt`spare
    ensures rt.Valid()
    ensures old(rt.area)[index].RPair? ==> res == index && rt.area == old(rt.area)[index := RPair(old(rt.area)[index].car, target)]
    ensures !old(rt.area)[index].RPair? ==> res == 0 && rt.area == old(rt.area)
  {
    var r := rt.SetCdr(true, index, target);
    res := if r.Ok? then index else 0;
  }

  /** `rt_get_bool`: 0 for the symbol nil and 1 for any other node, symbol
      or not. */
  function RtGetBool(rt: Runtime, index: nat): (b: int)
    reads rt
    requires index < |rt.area|
    ensures b == 0 || b == 1
    ensures b == 0 <==> rt.area[index] == RSymbol(Nil)
  {
    var s := rt.GetSymbol(index);
    if s.Ok? && s.value.Nil? then 0 else 1
  }

  /** `rt_is_symbol`: 1 exactly for a symbol node. */
  function RtIsSymbol(rt: Runtime, index: nat): (b: int)
    reads rt
    requires index < |rt.area|
    ensures b == 0 || b == 1
    ensures b == 1 <==> rt.area[index].RSymbol?
  {
    if rt.GetSymbol(index).Ok? then 1 else 0
  }

  /** `rt_define`: binds `key` in the current frame itself. */
  method RtDefine(rt: Runtime, key: string, value: nat)
    requires rt.Valid() && CUR_ENV in rt.roots && value < |rt.area| && rt.area[rt.roots[CUR_ENV]].REnv?
    modifies rt`area
    ensures rt.Valid()
    ensures Frames(rt.area) == Env.Define(Frames(old(rt.area)), rt.roots[CUR_ENV], key, value)
  {
    var env := rt.CurrentEnv();
    rt.InsertCurEnv(env, key, value);
  }

  /** `rt_set`: overwrites the innermost binding of `key` on the chain of
      the current frame; the `None` of an unbound name is dropped, so that
      `set!` changes nothing and reports nothing. */
  method RtSet(rt: Runtime, key: string, value: nat)
    requires rt.Valid() && CUR_ENV in rt.roots && value < |rt.area| && rt.area[rt.roots[CUR_ENV]].REnv?
    modifies rt`area
    ensures rt.Valid() && Env.Closed(Frames(old(rt.area)))
    ensures Frames(rt.area) == Env.Set(Frames(old(rt.area)), rt.roots[CUR_ENV], key, value, |old(rt.area)|).0
  {
    var env := rt.CurrentEnv();
    var _ := rt.EnvSet(env, key, value, |rt.area|);
  }

  /** `rt_get`: the innermost binding of `key` on the chain of the current
      frame; an unbound name panics in `unwrap`. */
  function RtGet(rt: Runtime, key: string): (v: nat)
    reads rt
    requires rt.Valid() && CUR_ENV in rt.roots && rt.area[rt.roots[CUR_ENV]].REnv?
    requires rt.EnvGet(rt.roots[CUR_ENV], key).Some?
    ensures v < |rt.area|
    ensures Env.Closed(Frames(rt.area)) && Env.Get(Frames(rt.area), rt.roots[CUR_ENV], key, |rt.area|) == Some(v)
  {
    rt.EnvGet(rt.CurrentEnv(), key).value
  }

  /** `rt_import`: a package already registered is not loaded again;
      otherwise it is loaded, initialized and registered.  `initialized`
      says whether its initialization ran. */
  method RtImport(rt: Runtime, name: string) returns (initialized: bool)
    modifies rt`packages
    ensures initialized <==> name !in old(rt.packages)
    ensures rt.packages == old(rt.packages) + {name}
  {
    if rt.HasPackage(name) {
      return false;
    }
    rt.AddPackage(name);
    initialized := true;
  }
}
