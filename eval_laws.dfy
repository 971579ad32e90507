/** What evaluating the core forms of the language means, stated on the
    surface syntax: a call is a list whose head is the operator, evaluated by
    `EvalNode` from src/eval.rs. */
module EvalLaws {
  import opened Wrappers
  import opened Symbols
  import opened Errors
  import opened Nodes
  import opened Util
  import Numbers
  import Env
  import opened Eval

  /** The list `(head arg ...)`. */
  function Call(head: Node, args: seq<Node>): (n: Node)
    ensures n.NPair? && n.car == head && Spine(n.cdr) == (args, NIL)
  {
    SpineOfList(args);
    NPair(head, ListOf(args))
  }

  /** A number, a special form or a procedure is its own value, and so is a
      built-in symbol; nothing changes. */
  lemma SelfEvaluating(st: State, env: nat, n: Node, fuel: nat)
    requires Fine(st, env) && ValidIn(st.frames, n)
    requires n.NNumber? || n.NForm? || n.NProcedure? || (n.NSymbol? && !n.sym.User?)
    ensures EvalNode(st, env, n, fuel + 1) == Outcome(st, Ok(n))
  {
  }

  /** A user symbol evaluates to its binding in the innermost frame on the
      chain of the current frame that binds it, and to `SymbolNotFound`
      exactly when no frame on the chain binds it; nothing changes. */
  lemma SymbolLookup(st: State, env: nat, x: string, fuel: nat)
    requires Fine(st, env)
    ensures var c := Env.Chain(st.frames, env, |st.frames|);
      var o := EvalNode(st, env, NSymbol(User(x)), fuel + 1);
      o.st == st &&
      (Env.Unbound(st.frames, c, x) <==> o.res == Err(SymbolNotFound(x))) &&
      (forall i: nat :: Env.FirstBinder(st.frames, c, x, i) ==> o.res == Ok(st.frames[c[i]].value.vars[x]))
  {
    var s := st.frames;
    var c := Env.Chain(s, env, |s|);
    Env.GetIsInnermost(s, env, x, |s|);
    match Env.Get(s, env, x, |s|)
    case None =>
    case Some(v) =>
      var i0: nat :| Env.FirstBinder(s, c, x, i0) && v == s[c[i0]].value.vars[x];
      assert forall i: nat | Env.FirstBinder(s, c, x, i) :: i == i0;
  }

  /** A list headed by a special form applies the form to its operands,
      unevaluated. */
  lemma {:induction false} FormCall(st: State, env: nat, f: SpecialForm, args: seq<Node>, fuel: nat)
    requires Fine(st, env) && AllValid(st.frames, args)
    ensures ValidIn(st.frames, ListOf(args)) && ValidIn(st.frames, Call(NForm(f), args))
    ensures EvalNode(st, env, Call(NForm(f), args), fuel + 2) == ApplyForm(st, env, f, ListOf(args), fuel + 1)
  {
    ListOfValid(st.frames, args);
    var n := Call(NForm(f), args);
    assert EvalNode(st, env, n, fuel + 2) == EvalPair(st, env, NForm(f), ListOf(args), fuel + 1);
    assert EvalNode(st, env, NForm(f), fuel + 1) == Outcome(st, Ok(NForm(f)));
  }

  /** `(if c a b)`: the test is evaluated first and an error in it is the
      outcome; otherwise `a` is evaluated when the test's value is anything
      but nil, `b` when it is nil, in the state the test left. */
  lemma IfChooses(st: State, env: nat, c: Node, a: Node, b: Node, fuel: nat)
    requires Fine(st, env) && ValidIn(st.frames, c) && ValidIn(st.frames, a) && ValidIn(st.frames, b)
    ensures ValidIn(st.frames, Call(NForm(If), [c, a, b]))
    ensures var t := EvalNode(st, env, c, fuel + 1);
      EvalNode(st, env, Call(NForm(If), [c, a, b]), fuel + 2) ==
        if t.res.Err? then t else EvalNode(t.st, env, if t.res.value != NIL then a else b, fuel + 1)
  {
    FormCall(st, env, If, [c, a, b], fuel);
  }

  /** `(if 0 a b)` is `a`: zero is not false. */
  lemma IfZero(st: State, env: nat, a: Node, b: Node, fuel: nat)
    requires Fine(st, env) && ValidIn(st.frames, a) && ValidIn(st.frames, b)
    ensures ValidIn(st.frames, Call(NForm(If), [NNumber(Numbers.Int(0)), a, b]))
    ensures EvalNode(st, env, Call(NForm(If), [NNumber(Numbers.Int(0)), a, b]), fuel + 2) == EvalNode(st, env, a, fuel + 1)
  {
    IfChooses(st, env, NNumber(Numbers.Int(0)), a, b, fuel);
  }

  /** `(if nil a b)` is `b`: nil is the only false value. */
  lemma IfNil(st: State, env: nat, a: Node, b: Node, fuel: nat)
    requires Fine(st, env) && ValidIn(st.frames, a) && ValidIn(st.frames, b)
    ensures ValidIn(st.frames, Call(NForm(If), [NIL, a, b]))
    ensures EvalNode(st, env, Call(NForm(If), [NIL, a, b]), fuel + 2) == EvalNode(st, env, b, fuel + 1)
  {
    IfChooses(st, env, NIL, a, b, fuel);
  }

  /** `(define x e)`: `e` is evaluated; its value is bound to `x` in the
      current frame, the form's value is nil, and looking `x` up afterwards
      from the same frame gives that value. */
  lemma DefineThenLookup(st: State, env: nat, x: string, e: Node, fuel: nat)
    requires Fine(st, env) && ValidIn(st.frames, e)
    ensures ValidIn(st.frames, Call(NForm(Define), [NSymbol(User(x)), e]))
    ensures var v := EvalNode(st, env, e, fuel + 1);
      var o := EvalNode(st, env, Call(NForm(Define), [NSymbol(User(x)), e]), fuel + 2);
      (v.res.Err? ==> o == v) &&
      (v.res.Ok? ==> o == Outcome(State(Env.Define(v.st.frames, env, x, v.res.value), v.st.out), Ok(NIL)))
    ensures var v := EvalNode(st, env, e, fuel + 1);
      var o := EvalNode(st, env, Call(NForm(Define), [NSymbol(User(x)), e]), fuel + 2);
      v.res.Ok? ==> EvalNode(o.st, env, NSymbol(User(x)), fuel + 1) == Outcome(o.st, Ok(v.res.value))
  {
    var args := [NSymbol(User(x)), e];
    FormCall(st, env, Define, args, fuel);
    DefineSteps(st, env, x, e, fuel);
    var v := EvalNode(st, env, e, fuel + 1);
    if v.res.Ok? {
      var s := v.st.frames;
      Env.DefineThenGet(s, env, x, v.res.value, |s|);
    }
  }

  lemma DefineSteps(st: State, env: nat, x: string, e: Node, fuel: nat)
    requires Fine(st, env) && ValidIn(st.frames, e)
    ensures ValidIn(st.frames, ListOf([NSymbol(User(x)), e]))
    ensures var v := EvalNode(st, env, e, fuel + 1);
      var o := ApplyForm(st, env, Define, ListOf([NSymbol(User(x)), e]), fuel + 1);
      (v.res.Err? ==> o == v) &&
      (v.res.Ok? ==> o == Outcome(State(Env.Define(v.st.frames, env, x, v.res.value), v.st.out), Ok(NIL)))
  {
    var args := [NSymbol(User(x)), e];
    ListOfValid(st.frames, args);
    SpineOfList(args);
    assert NParams(ListOf(args), 2) == Ok(args);
    assert ApplyForm(st, env, Define, ListOf(args), fuel + 1) == EvalDefine(st, env, ListOf(args), fuel + 1);
  }

  /** `define` of anything but a user symbol fails with `NotAUserSymbol`
      before the value is evaluated, so nothing changes. */
  lemma DefineNeedsUserSymbol(st: State, env: nat, name: Node, e: Node, fuel: nat)
    requires Fine(st, env) && ValidIn(st.frames, name) && ValidIn(st.frames, e)
    requires !(name.NSymbol? && name.sym.User?)
    ensures ValidIn(st.frames, Call(NForm(Define), [name, e]))
    ensures EvalNode(st, env, Call(NForm(Define), [name, e]), fuel + 2) == Outcome(st, Err(NotAUserSymbol))
  {
    FormCall(st, env, Define, [name, e], fuel);
  }

  /** `(set! x e)`: `e` is evaluated; its value replaces the binding of `x`
      in the innermost frame on the chain that binds it, and when no frame
      binds `x` the frames stay as they are and no error is raised.  The
      form's value is nil. */
  lemma SetRebinds(st: State, env: nat, x: string, e: Node, fuel: nat)
    requires Fine(st, env) && ValidIn(st.frames, e)
    ensures ValidIn(st.frames, Call(NForm(Set), [NSymbol(User(x)), e]))
    ensures var v := EvalNode(st, env, e, fuel + 1);
      var o := EvalNode(st, env, Call(NForm(Set), [NSymbol(User(x)), e]), fuel + 2);
      v.res.Err? ==> o == v
    ensures var v := EvalNode(st, env, e, fuel + 1);
      var o := EvalNode(st, env, Call(NForm(Set), [NSymbol(User(x)), e]), fuel + 2);
      var s := v.st.frames;
      var c := Env.Chain(s, env, |s|);
      v.res.Ok? ==>
        o.res == Ok(NIL) && o.st.out == v.st.out &&
        (Env.Unbound(s, c, x) ==> o.st.frames == s) &&
        (forall i: nat :: Env.FirstBinder(s, c, x, i) ==> o.st.frames == Env.Define(s, c[i], x, v.res.value))
  {
    FormCall(st, env, Set, [NSymbol(User(x)), e], fuel);
    var v := EvalNode(st, env, e, fuel + 1);
    if v.res.Ok? {
      var s := v.st.frames;
      Env.SetUpdatesInnermost(s, env, x, v.res.value, |s|);
    }
  }

  /** `(begin x ...)` evaluates its forms with `EvalBegin`; `(begin)` is the
      `begin` form itself. */
  lemma BeginForm(st: State, env: nat, xs: seq<Node>, fuel: nat)
    requires Fine(st, env) && AllValid(st.frames, xs)
    ensures ValidIn(st.frames, Call(NForm(Begin), xs))
    ensures EvalNode(st, env, Call(NForm(Begin), xs), fuel + 2) == EvalBegin(st, env, xs, fuel + 1)
    ensures xs == [] ==> EvalNode(st, env, Call(NForm(Begin), xs), fuel + 2) == Outcome(st, Ok(NForm(Begin)))
  {
    FormCall(st, env, Begin, xs, fuel);
  }

  /** `begin` works from the front: the first form is evaluated first; an
      error in it ends the sequence, otherwise the rest is evaluated in the
      state it left, and the value of the last form is the value. */
  lemma {:induction false} BeginFromFront(st: State, env: nat, x: Node, ys: seq<Node>, fuel: nat)
    requires Fine(st, env) && ValidIn(st.frames, x) && AllValid(st.frames, ys)
    ensures var o := EvalNode(st, env, x, fuel);
      EvalBegin(st, env, [x] + ys, fuel) == if o.res.Err? || ys == [] then o else EvalBegin(o.st, env, ys, fuel)
    decreases |ys|
  {
    var xs := [x] + ys;
    var o := EvalNode(st, env, x, fuel);
    if ys == [] {
      assert xs[..|xs| - 1] == [];
    } else {
      var init, last := ys[..|ys| - 1], ys[|ys| - 1];
      assert xs[..|xs| - 1] == [x] + init && xs[|xs| - 1] == last;
      var a := EvalBegin(st, env, [x] + init, fuel);
      assert EvalBegin(st, env, xs, fuel) == if a.res.Err? then a else EvalNode(a.st, env, last, fuel);
      BeginFromFront(st, env, x, init, fuel);
      if o.res.Ok? {
        var b := EvalBegin(o.st, env, init, fuel);
        assert EvalBegin(o.st, env, ys, fuel) == if b.res.Err? then b else EvalNode(b.st, env, last, fuel);
        if init == [] {
          assert a == o && b == Outcome(o.st, Ok(NForm(Begin)));
        } else {
          assert a == b;
        }
      }
    }
  }

  /** Operands that are numbers evaluate to themselves, all of them, and
      nothing changes. */
  lemma {:induction false} NumbersEvaluateToThemselves(st: State, env: nat, xs: seq<Node>, fuel: nat)
    requires Fine(st, env) && AllValid(st.frames, xs)
    requires forall i | 0 <= i < |xs| :: xs[i].NNumber?
    ensures EvalArgs(st, env, xs, fuel + 1) == ArgsOutcome(st, Ok(xs))
    decreases |xs|
  {
    if xs != [] {
      var init, last := xs[..|xs| - 1], xs[|xs| - 1];
      assert init + [last] == xs;
      NumbersEvaluateToThemselves(st, env, init, fuel);
      NumberOperand(st, env, init, last, fuel);
    }
  }

  /** One more number operand after operands that evaluated to themselves. */
  lemma NumberOperand(st: State, env: nat, init: seq<Node>, last: Node, fuel: nat)
    requires Fine(st, env) && AllValid(st.frames, init) && last.NNumber?
    requires EvalArgs(st, env, init, fuel + 1) == ArgsOutcome(st, Ok(init))
    ensures AllValid(st.frames, init + [last])
    ensures EvalArgs(st, env, init + [last], fuel + 1) == ArgsOutcome(st, Ok(init + [last]))
  {
    var xs := init + [last];
    assert xs[..|xs| - 1] == init && xs[|xs| - 1] == last;
    SelfEvaluating(st, env, last, fuel);
  }

  /** A list headed by a built-in symbol evaluates its operands left to
      right and applies the built-in to their values. */
  lemma {:induction false} BuiltinCall(st: State, env: nat, sym: Symbol, args: seq<Node>, fuel: nat)
    requires Fine(st, env) && AllValid(st.frames, args) && !sym.User?
    ensures ValidIn(st.frames, Call(NSymbol(sym), args))
    ensures var a := EvalArgs(st, env, args, fuel + 1);
      EvalNode(st, env, Call(NSymbol(sym), args), fuel + 2) ==
        if a.res.Err? then Outcome(a.st, Err(a.res.error)) else Outcome(a.st, Builtin(sym, a.res.value))
  {
    ListOfValid(st.frames, args);
    var n := Call(NSymbol(sym), args);
    assert EvalNode(st, env, n, fuel + 2) == EvalPair(st, env, NSymbol(sym), ListOf(args), fuel + 1);
    assert EvalNode(st, env, NSymbol(sym), fuel + 1) == Outcome(st, Ok(NSymbol(sym)));
    assert EvalPair(st, env, NSymbol(sym), ListOf(args), fuel + 1) == ApplySymbol(st, env, sym, ListOf(args), fuel + 1);
  }

  /** `(+ n1 n2 ...)` over number literals: the numbers folded from the
      left with `+`, and nothing changes. */
  lemma SumOfNumbers(st: State, env: nat, xs: seq<Node>, ns: seq<Numbers.Number>, fuel: nat)
    requires Fine(st, env) && |ns| >= 2
    requires |xs| == |ns| && forall i | 0 <= i < |xs| :: xs[i] == NNumber(ns[i])
    ensures ValidIn(st.frames, Call(NSymbol(Add), xs))
    ensures EvalNode(st, env, Call(NSymbol(Add), xs), fuel + 2) ==
      Outcome(st, Ok(NNumber(FoldLeft(Numbers.Add, ns[0], ns[1..]))))
  {
    NumbersEvaluateToThemselves(st, env, xs, fuel);
    BuiltinCall(st, env, Add, xs, fuel);
    ConvertNumbers(xs, ns);
  }

  lemma {:induction false} ConvertNumbers(xs: seq<Node>, ns: seq<Numbers.Number>)
    requires |xs| == |ns| && forall i | 0 <= i < |xs| :: xs[i] == NNumber(ns[i])
    ensures ConvertAll(xs, AsNum) == Ok(ns)
    decreases |xs|
  {
    if xs != [] {
      var k := |xs| - 1;
      ConvertNumbers(xs[..k], ns[..k]);
      ConvertAllSnoc(xs[..k], AsNum, xs[k]);
      assert xs[..k] + [xs[k]] == xs && ns[..k] + [ns[k]] == ns;
    }
  }

  /** A number or a pair in head position cannot be applied: the outcome is
      `CannotBeHead` in the state the head's evaluation left, and the
      operands are not evaluated. */
  lemma HeadNotApplicable(st: State, env: nat, head: Node, cdr: Node, fuel: nat)
    requires Fine(st, env) && ValidIn(st.frames, head) && ValidIn(st.frames, cdr)
    ensures var h := EvalNode(st, env, head, fuel);
      h.res.Ok? && (h.res.value.NNumber? || h.res.value.NPair?) ==>
        EvalNode(st, env, NPair(head, cdr), fuel + 1) == Outcome(h.st, Err(CannotBeHead))
  {
    assert EvalNode(st, env, NPair(head, cdr), fuel + 1) == EvalPair(st, env, head, cdr, fuel);
    var h := EvalNode(st, env, head, fuel);
    if h.res.Ok? {
      assert EvalPair(st, env, head, cdr, fuel) == ApplyHead(h.st, env, h.res.value, cdr, fuel);
    }
  }

  /** The pattern's names are all different. */
  predicate DistinctNames(p: Pattern) {
    forall i, j | 0 <= i < j < |Names(p)| :: Names(p)[i] != Names(p)[j]
  }

  /** The frame a call creates binds each fixed name to its argument, the
      rest name to the list of the remaining arguments, and nothing else. */
  lemma CallFrame(p: Pattern, vals: seq<Node>)
    requires Fits(p, |vals|) && DistinctNames(p)
    ensures Fixed(p) <= |Names(p)| && Fixed(p) <= |vals|
    ensures var vars := Insert(map[], Bindings(p, vals));
      (forall i | 0 <= i < Fixed(p) :: Names(p)[i] in vars && vars[Names(p)[i]] == vals[i]) &&
      (!IsProperList(p) ==> RestName(p) in vars && vars[RestName(p)] == ListOf(vals[Fixed(p)..])) &&
      (forall k | k !in Names(p) :: k !in vars)
  {
    var b := Bindings(p, vals);
    BindingsAgree(p, vals);
    NamesShape(p);
    FitsIff(p, |vals|);
    forall i | 0 <= i < |b| ensures b[i].0 in Insert(map[], b) && Insert(map[], b)[b[i].0] == b[i].1 {
      InsertDistinct(map[], b, i);
    }
    forall k | k !in Names(p) ensures k !in Insert(map[], b) {
      InsertKeeps(map[], b, k);
    }
  }

  /** Applying a procedure: the operands are evaluated left to right in the
      caller's frame; an error there is the outcome; arguments that do not
      fit the pattern give `PatternMismatch`; otherwise the body is
      evaluated in a new frame, numbered after all existing ones, whose
      outer frame is the one the procedure captured and whose bindings are
      those of `CallFrame`. */
  lemma ProcedureCall(st: State, env: nat, p: Pattern, body: Node, penv: nat, args: seq<Node>, fuel: nat)
    requires Fine(st, env) && Env.IsFrame(st.frames, penv)
    requires ValidIn(st.frames, body) && AllValid(st.frames, args)
    ensures ValidIn(st.frames, ListOf(args))
    ensures var a := EvalArgs(st, env, args, fuel);
      var o := ApplyHead(st, env, NProcedure(p, body, penv), ListOf(args), fuel);
      (a.res.Err? ==> o == Outcome(a.st, Err(a.res.error))) &&
      (a.res.Ok? && !Fits(p, |args|) ==> o == Outcome(a.st, Err(PatternMismatch)))
    ensures var a := EvalArgs(st, env, args, fuel);
      var s := a.st.frames;
      a.res.Ok? && Fits(p, |args|) ==>
        var vars := Insert(map[], Bindings(p, a.res.value));
        var s' := s + [Some(Env.Frame(vars, Some(penv)))];
        Fine(State(s', a.st.out), |s|) && ValidIn(s', body)
    ensures var a := EvalArgs(st, env, args, fuel);
      var s := a.st.frames;
      a.res.Ok? && Fits(p, |args|) ==>
        var vars := Insert(map[], Bindings(p, a.res.value));
        var s' := s + [Some(Env.Frame(vars, Some(penv)))];
        ApplyHead(st, env, NProcedure(p, body, penv), ListOf(args), fuel) ==
          EvalNode(State(s', a.st.out), |s|, body, fuel)
  {
    ListOfValid(st.frames, args);
    SpineOfList(args);
    var a := EvalArgs(st, env, args, fuel);
    if a.res.Ok? && Fits(p, |args|) {
      var s := a.st.frames;
      BindingsValid(s, p, a.res.value);
      InsertValid(s, map[], Bindings(p, a.res.value));
      PushFrameWf(s, Insert(map[], Bindings(p, a.res.value)), penv);
    }
  }
}
