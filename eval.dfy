/** The tree-walking interpreter (src/eval.rs).  Environments live in a
    store of frames (the `NodeEnv` cells the source shares through
    reference-counted pointers); a procedure names the frame it captured by
    its index.  The meaning of evaluation is given by the functions
    `EvalNode` .. `Builtin`, which thread the state (the frames and the text
    `display` has produced) exactly as the source threads its environments
    and its `EvalResult`; the `Interpreter` class below evaluates with the
    source's loops and is proved to compute those functions. */
module Eval {
  import opened Wrappers
  import Numbers
  import opened Symbols
  import opened Errors
  import opened Nodes
  import opened Util
  import Env

  type Frames = Env.Store<Node>

  /** What `display` and `newline` add to the output. */
  datatype Output = Shown(value: Node) | LineBreak

  datatype State = State(frames: Frames, out: seq<Output>)

  /** The state after an evaluation, and its value or error.  On an error
      the state keeps the changes made before the error, as the source's
      shared environments do. */
  datatype Outcome = Outcome(st: State, res: Result<Node, Error>)

  datatype ArgsOutcome = ArgsOutcome(st: State, res: Result<seq<Node>, Error>)

  // ---------------------------------------------------------------------
  // Well-formed states: every procedure refers to a frame of the store.

  /** The frames the procedures inside a node have captured. */
  ghost function EnvsOf(n: Node): set<nat> {
    match n
    case NPair(a, d) => EnvsOf(a) + EnvsOf(d)
    case NProcedure(_, body, e) => {e} + EnvsOf(body)
    case _ => {}
  }

  ghost predicate ValidIn(s: Frames, n: Node) {
    forall e | e in EnvsOf(n) :: Env.IsFrame(s, e)
  }

  ghost predicate AllValid(s: Frames, xs: seq<Node>) {
    forall i | 0 <= i < |xs| :: ValidIn(s, xs[i])
  }

  ghost predicate MapValid(s: Frames, m: map<string, Node>) {
    forall k | k in m :: ValidIn(s, m[k])
  }

  /** Outer links lead to frames and every bound value is valid. */
  ghost predicate Wf(s: Frames) {
    Env.Closed(s) && forall e | 0 <= e < |s| && s[e].Some? :: MapValid(s, s[e].value.vars)
  }

  /** Frames are never taken away. */
  ghost predicate Grows(s: Frames, s': Frames) {
    |s| <= |s'| && forall e | Env.IsFrame(s, e) :: Env.IsFrame(s', e)
  }

  ghost predicate Fine(st: State, env: nat) {
    Wf(st.frames) && Env.IsFrame(st.frames, env)
  }

  /** What every evaluation step guarantees of the state it leaves: no frame
      lost, output only appended, still well formed. */
  ghost predicate Later(st: State, st': State) {
    Grows(st.frames, st'.frames) && st.out <= st'.out && Wf(st'.frames)
  }

  ghost predicate Post(st: State, o: Outcome) {
    Later(st, o.st) && (o.res.Ok? ==> ValidIn(o.st.frames, o.res.value))
  }

  lemma LaterTrans(a: State, b: State, c: State)
    requires Later(a, b) && Later(b, c)
    ensures Later(a, c)
  {
    assert a.out <= c.out by {
      assert c.out[..|a.out|] == c.out[..|b.out|][..|a.out|];
    }
  }

  lemma {:induction false} SpineValid(s: Frames, n: Node)
    requires ValidIn(s, n)
    ensures AllValid(s, Spine(n).0)
  {
    if n.NPair? {
      SpineValid(s, n.cdr);
    }
  }

  lemma {:induction false} ListOfValid(s: Frames, xs: seq<Node>)
    requires AllValid(s, xs)
    ensures ValidIn(s, ListOf(xs))
    decreases |xs|
  {
    if xs != [] {
      ListOfValid(s, xs[1..]);
    }
  }

  /** A value found by `get` is valid. */
  lemma {:induction false} GetValid(s: Frames, e: nat, key: string, fuel: nat)
    requires Wf(s) && Env.IsFrame(s, e)
    ensures Env.Get(s, e, key, fuel).Some? ==> ValidIn(s, Env.Get(s, e, key, fuel).value)
    decreases fuel
  {
    if fuel > 0 && Env.GetCur(s, e, key).None? && s[e].value.outer.Some? {
      GetValid(s, s[e].value.outer.value, key, fuel - 1);
    }
  }

  /** Defining a valid value keeps the store well formed. */
  lemma DefineWf(s: Frames, e: nat, key: string, v: Node)
    requires Wf(s) && Env.IsFrame(s, e) && ValidIn(s, v)
    ensures Wf(Env.Define(s, e, key, v)) && Grows(s, Env.Define(s, e, key, v))
  {
    var r := Env.Define(s, e, key, v);
    Env.DefinePreservesClosed(s, e, key, v);
    assert Grows(s, r);
  }

  /** `set` of a valid value keeps the store well formed. */
  lemma {:induction false} SetWf(s: Frames, e: nat, key: string, v: Node, fuel: nat)
    requires Wf(s) && Env.IsFrame(s, e) && ValidIn(s, v)
    ensures Wf(Env.Set(s, e, key, v, fuel).0) && Grows(s, Env.Set(s, e, key, v, fuel).0)
    decreases fuel
  {
    if fuel == 0 {
    } else if Env.Contains(s, e, key) {
      DefineWf(s, e, key, v);
    } else if s[e].value.outer.Some? {
      SetWf(s, s[e].value.outer.value, key, v, fuel - 1);
    }
  }

  /** Adding a frame whose outer frame exists and whose bindings are valid
      keeps the store well formed. */
  lemma PushFrameWf(s: Frames, vars: map<string, Node>, outer: nat)
    requires Wf(s) && Env.IsFrame(s, outer) && MapValid(s, vars)
    ensures var s' := s + [Some(Env.Frame(vars, Some(outer)))];
      Wf(s') && Grows(s, s') && Env.IsFrame(s', |s|)
  {
    var s' := s + [Some(Env.Frame(vars, Some(outer)))];
    assert Grows(s, s');
  }

  lemma {:induction false} BindingsValid(s: Frames, p: Pattern, vals: seq<Node>)
    requires AllValid(s, vals) && Fits(p, |vals|)
    ensures forall i | 0 <= i < |Bindings(p, vals)| :: ValidIn(s, Bindings(p, vals)[i].1)
    decreases p
  {
    match p
    case PSymbol(_) => ListOfValid(s, vals);
    case PNil =>
    case PPair(_, rest) => BindingsValid(s, rest, vals[1..]);
  }

  lemma {:induction false} InsertValid(s: Frames, m: map<string, Node>, b: seq<(string, Node)>)
    requires MapValid(s, m) && forall i | 0 <= i < |b| :: ValidIn(s, b[i].1)
    ensures MapValid(s, Insert(m, b))
    decreases |b|
  {
    if b != [] {
      InsertValid(s, m[b[0].0 := b[0].1], b[1..]);
    }
  }

  // ---------------------------------------------------------------------
  // The meaning of evaluation

  /** `Eval for Symbol`: a user symbol is looked up along the chain of the
      current frame; every other symbol stands for itself. */
  function EvalSymbol(s: Frames, env: nat, sym: Symbol): (r: Result<Node, Error>)
    requires Wf(s) && Env.IsFrame(s, env)
    ensures r.Ok? ==> ValidIn(s, r.value)
    ensures r.Err? <==> sym.User? && Env.Get(s, env, sym.name, |s|).None?
    ensures r.Err? ==> r.error == SymbolNotFound(sym.name)
  {
    match sym
    case User(name) =>
      GetValid(s, env, name, |s|);
      (match Env.Get(s, env, name, |s|)
       case Some(v) => Ok(v)
       case None => Err(SymbolNotFound(name)))
    case _ => Ok(NSymbol(sym))
  }

  /** `Eval for Node`: symbols are looked up, a pair applies the value of
      its head to its unevaluated tail, and anything else is its own
      value.  Each level of nesting costs one unit of `fuel`. */
  function EvalNode(st: State, env: nat, n: Node, fuel: nat): (o: Outcome)
    requires Fine(st, env) && ValidIn(st.frames, n)
    ensures Post(st, o)
    decreases fuel, 0, 0
  {
    if fuel == 0 then Outcome(st, Err(OutOfFuel))
    else match n
      case NSymbol(sym) => Outcome(st, EvalSymbol(st.frames, env, sym))
      case NPair(car, cdr) => EvalPair(st, env, car, cdr, fuel - 1)
      case _ => Outcome(st, Ok(n))
  }

  /** A list: the value of its head applied to its tail. */
  function EvalPair(st: State, env: nat, car: Node, cdr: Node, fuel: nat): (o: Outcome)
    requires Fine(st, env) && ValidIn(st.frames, car) && ValidIn(st.frames, cdr)
    ensures Post(st, o)
    decreases fuel, 4, 0
  {
    var h := EvalNode(st, env, car, fuel);
    if h.res.Err? then h
    else
      var o := ApplyHead(h.st, env, h.res.value, cdr, fuel);
      LaterTrans(st, h.st, o.st);
      o
  }

  /** `Apply for Node`: what the head of a list evaluated to decides how the
      tail is used. */
  function ApplyHead(st: State, env: nat, head: Node, cdr: Node, fuel: nat): (o: Outcome)
    requires Fine(st, env) && ValidIn(st.frames, head) && ValidIn(st.frames, cdr)
    ensures Post(st, o)
    decreases fuel, 3, 0
  {
    match head
    case NNumber(_) => Outcome(st, Err(CannotBeHead))
    case NPair(_, _) => Outcome(st, Err(CannotBeHead))
    case NForm(f) => ApplyForm(st, env, f, cdr, fuel)
    case NSymbol(sym) => ApplySymbol(st, env, sym, cdr, fuel)
    case NProcedure(p, body, penv) => ApplyProcedure(st, env, p, body, penv, cdr, fuel)
  }

  /** The arguments evaluated left to right: the last one is evaluated in
      the state the others left. */
  function EvalArgs(st: State, env: nat, xs: seq<Node>, fuel: nat): (a: ArgsOutcome)
    requires Fine(st, env) && AllValid(st.frames, xs)
    ensures Later(st, a.st)
    ensures a.res.Ok? ==> |a.res.value| == |xs| && AllValid(a.st.frames, a.res.value)
    decreases fuel, 1, |xs|
  {
    if xs == [] then ArgsOutcome(st, Ok([]))
    else
      var a := EvalArgs(st, env, xs[..|xs| - 1], fuel);
      if a.res.Err? then a
      else
        var o := EvalNode(a.st, env, xs[|xs| - 1], fuel);
        LaterTrans(st, a.st, o.st);
        match o.res
        case Err(e) => ArgsOutcome(o.st, Err(e))
        case Ok(v) =>
          ArgsOutcome(o.st, Ok(a.res.value + [v]))
  }

  /** `begin`: each form in turn, the value of the last; with no forms the
      value is the one the head evaluated to, the `begin` form itself. */
  function EvalBegin(st: State, env: nat, xs: seq<Node>, fuel: nat): (o: Outcome)
    requires Fine(st, env) && AllValid(st.frames, xs)
    ensures Post(st, o)
    decreases fuel, 1, |xs|
  {
    if xs == [] then Outcome(st, Ok(NForm(Begin)))
    else
      var a := EvalBegin(st, env, xs[..|xs| - 1], fuel);
      if a.res.Err? then a
      else
        var o := EvalNode(a.st, env, xs[|xs| - 1], fuel);
        LaterTrans(st, a.st, o.st);
        o
  }

  /** Once an operand fails, the later ones are not evaluated: the outcome
      of the whole list is the outcome of the prefix that failed. */
  lemma {:induction false} ArgsStopAtError(st: State, env: nat, xs: seq<Node>, k: nat, fuel: nat)
    requires Fine(st, env) && AllValid(st.frames, xs) && k <= |xs|
    requires EvalArgs(st, env, xs[..k], fuel).res.Err?
    ensures EvalArgs(st, env, xs, fuel) == EvalArgs(st, env, xs[..k], fuel)
    decreases |xs|
  {
    if k < |xs| {
      var init := xs[..|xs| - 1];
      assert init[..k] == xs[..k];
      ArgsStopAtError(st, env, init, k, fuel);
    } else {
      assert xs[..k] == xs;
    }
  }

  /** Once a form of a `begin` fails, the later ones are not evaluated. */
  lemma {:induction false} BeginStopsAtError(st: State, env: nat, xs: seq<Node>, k: nat, fuel: nat)
    requires Fine(st, env) && AllValid(st.frames, xs) && k <= |xs|
    requires EvalBegin(st, env, xs[..k], fuel).res.Err?
    ensures EvalBegin(st, env, xs, fuel) == EvalBegin(st, env, xs[..k], fuel)
    decreases |xs|
  {
    if k < |xs| {
      var init := xs[..|xs| - 1];
      assert init[..k] == xs[..k];
      BeginStopsAtError(st, env, init, k, fuel);
    } else {
      assert xs[..k] == xs;
    }
  }

  /** `Apply for SpecialForm`.  The forms the preprocessor rewrites away
      (`cond`, `let`, `and`, `or`, `define-syntax-rule`) and those only the
      compiler knows (`import`, `read`, `apply`) reach `unreachable!()`. */
  function ApplyForm(st: State, env: nat, f: SpecialForm, cdr: Node, fuel: nat): (o: Outcome)
    requires Fine(st, env) && ValidIn(st.frames, cdr)
    ensures Post(st, o)
    decreases fuel, 2, 0
  {
    match f
    case Quote => EvalQuote(st, cdr)
    case If => EvalIf(st, env, cdr, fuel)
    case Define => EvalDefine(st, env, cdr, fuel)
    case Set => EvalSet(st, env, cdr, fuel)
    case SetCar => EvalSetField(st, env, cdr, true, fuel)
    case SetCdr => EvalSetField(st, env, cdr, false, fuel)
    case Lambda => Outcome(st, MakeLambda(st.frames, env, cdr))
    case Begin =>
      if Spine(cdr).1 != NIL then Outcome(st, Err(NotAProperList))
      else
        SpineValid(st.frames, cdr);
        EvalBegin(st, env, Spine(cdr).0, fuel)
    case Display => EvalDisplay(st, env, cdr, fuel)
    case NewLine =>
      (match NParams(cdr, 0)
       case Err(e) => Outcome(st, Err(e))
       case Ok(_) => Outcome(State(st.frames, st.out + [LineBreak]), Ok(NIL)))
    case BreakPoint => Outcome(st, Ok(NIL))
    case _ => Outcome(st, Err(Unreachable))
  }

  /** `quote`: its one operand, unevaluated. */
  function EvalQuote(st: State, cdr: Node): (o: Outcome)
    requires Wf(st.frames) && ValidIn(st.frames, cdr)
    ensures Post(st, o)
    ensures o.st == st
    ensures o.res.Ok? <==> NParams(cdr, 1).Ok?
    ensures o.res.Ok? ==> o.res.value == Spine(cdr).0[0]
  {
    match NParams(cdr, 1)
    case Err(e) => Outcome(st, Err(e))
    case Ok(ps) =>
      SpineValid(st.frames, cdr);
      Outcome(st, Ok(ps[0]))
  }

  /** `if`: exactly three operands; the second is evaluated when the first
      is anything but nil, the third otherwise. */
  function EvalIf(st: State, env: nat, cdr: Node, fuel: nat): (o: Outcome)
    requires Fine(st, env) && ValidIn(st.frames, cdr)
    ensures Post(st, o)
    decreases fuel, 1, 0
  {
    match NParams(cdr, 3)
    case Err(e) => Outcome(st, Err(e))
    case Ok(ps) =>
      SpineValid(st.frames, cdr);
      var t := EvalNode(st, env, ps[0], fuel);
      if t.res.Err? then t
      else
        var branch := if t.res.value != NIL then ps[1] else ps[2];
        var o := EvalNode(t.st, env, branch, fuel);
        LaterTrans(st, t.st, o.st);
        o
  }

  /** `define`: the name must be a user symbol; its value is bound in the
      current frame and the form's value is nil. */
  function EvalDefine(st: State, env: nat, cdr: Node, fuel: nat): (o: Outcome)
    requires Fine(st, env) && ValidIn(st.frames, cdr)
    ensures Post(st, o)
    decreases fuel, 1, 0
  {
    match NParams(cdr, 2)
    case Err(e) => Outcome(st, Err(e))
    case Ok(ps) =>
      if ps[0].NSymbol? && ps[0].sym.User? then
        SpineValid(st.frames, cdr);
        var v := EvalNode(st, env, ps[1], fuel);
        match v.res
        case Err(_) => v
        case Ok(x) =>
          DefineWf(v.st.frames, env, ps[0].sym.name, x);
          Outcome(State(Env.Define(v.st.frames, env, ps[0].sym.name, x), v.st.out), Ok(NIL))
      else Outcome(st, Err(NotAUserSymbol))
  }

  /** `set!`: the value replaces the innermost binding of the name; when no
      frame binds it nothing changes and no error is raised. */
  function EvalSet(st: State, env: nat, cdr: Node, fuel: nat): (o: Outcome)
    requires Fine(st, env) && ValidIn(st.frames, cdr)
    ensures Post(st, o)
    decreases fuel, 1, 0
  {
    match NParams(cdr, 2)
    case Err(e) => Outcome(st, Err(e))
    case Ok(ps) =>
      match AsUserSymbol(ps[0])
      case Err(e) => Outcome(st, Err(e))
      case Ok(name) =>
        SpineValid(st.frames, cdr);
        var v := EvalNode(st, env, ps[1], fuel);
        match v.res
        case Err(_) => v
        case Ok(x) =>
          var s := v.st.frames;
          SetWf(s, env, name, x, |s|);
          Outcome(State(Env.Set(s, env, name, x, |s|).0, v.st.out), Ok(NIL))
  }

  /** `set-car!` (`car` true) and `set-cdr!`: the name must be bound to a
      pair, whose field is replaced.  The pair is shared in the source; here
      the binding that `get` found is rewritten. */
  function EvalSetField(st: State, env: nat, cdr: Node, car: bool, fuel: nat): (o: Outcome)
    requires Fine(st, env) && ValidIn(st.frames, cdr)
    ensures Post(st, o)
    decreases fuel, 1, 0
  {
    match NParams(cdr, 2)
    case Err(e) => Outcome(st, Err(e))
    case Ok(ps) =>
      match AsUserSymbol(ps[0])
      case Err(e) => Outcome(st, Err(e))
      case Ok(name) =>
        SpineValid(st.frames, cdr);
        var v := EvalNode(st, env, ps[1], fuel);
        match v.res
        case Err(_) => v
        case Ok(x) =>
          var s := v.st.frames;
          GetValid(s, env, name, |s|);
          match Env.Get(s, env, name, |s|)
          case None => Outcome(v.st, Err(NotDefined(name)))
          case Some(target) =>
            match (if car then Nodes.SetCar(target, x) else Nodes.SetCdr(target, x))
            case Err(e) => Outcome(v.st, Err(e))
            case Ok(pair) =>
              SetWf(s, env, name, pair, |s|);
              Outcome(State(Env.Set(s, env, name, pair, |s|).0, v.st.out), Ok(NIL))
  }

  /** `lambda`: the parameter pattern and the body, wrapped in `begin`,
      closed over the current frame. */
  function MakeLambda(s: Frames, env: nat, cdr: Node): (r: Result<Node, Error>)
    requires Env.IsFrame(s, env) && ValidIn(s, cdr)
    ensures r.Ok? ==> ValidIn(s, r.value)
    ensures r.Ok? <==> cdr.NPair? && NodeToPattern(cdr.car).Ok?
    ensures r.Ok? ==> r.value == NProcedure(NodeToPattern(cdr.car).value, NPair(NForm(Begin), cdr.cdr), env)
  {
    match AsPair(cdr)
    case Err(e) => Err(e)
    case Ok((params, body)) =>
      match NodeToPattern(params)
      case Err(e) => Err(e)
      case Ok(p) =>
        assert EnvsOf(NPair(NForm(Begin), body)) == EnvsOf(body);
        Ok(NProcedure(p, NPair(NForm(Begin), body), env))
  }

  /** `display`: one operand, evaluated, shown; the value is nil. */
  function EvalDisplay(st: State, env: nat, cdr: Node, fuel: nat): (o: Outcome)
    requires Fine(st, env) && ValidIn(st.frames, cdr)
    ensures Post(st, o)
    decreases fuel, 1, 0
  {
    match NParams(cdr, 1)
    case Err(e) => Outcome(st, Err(e))
    case Ok(ps) =>
      SpineValid(st.frames, cdr);
      var v := EvalNode(st, env, ps[0], fuel);
      match v.res
      case Err(_) => v
      case Ok(x) => Outcome(State(v.st.frames, v.st.out + [Shown(x)]), Ok(NIL))
  }

  /** `Apply for Symbol`: the operands are evaluated left to right, then the
      built-in operation is applied to their values. */
  function ApplySymbol(st: State, env: nat, sym: Symbol, cdr: Node, fuel: nat): (o: Outcome)
    requires Fine(st, env) && ValidIn(st.frames, cdr)
    ensures Post(st, o)
    decreases fuel, 2, 0
  {
    if Spine(cdr).1 != NIL then Outcome(st, Err(NotAProperList))
    else
      SpineValid(st.frames, cdr);
      var a := EvalArgs(st, env, Spine(cdr).0, fuel);
      match a.res
      case Err(e) => Outcome(a.st, Err(e))
      case Ok(vals) =>
        BuiltinValid(a.st.frames, sym, vals);
        Outcome(a.st, Builtin(sym, vals))
  }

  /** Procedure application: the operands are evaluated left to right in
      the caller's frame and matched against the pattern; the body runs in
      a new frame whose outer frame is the one the procedure captured. */
  function ApplyProcedure(st: State, env: nat, p: Pattern, body: Node, penv: nat, cdr: Node, fuel: nat): (o: Outcome)
    requires Fine(st, env) && Env.IsFrame(st.frames, penv)
    requires ValidIn(st.frames, body) && ValidIn(st.frames, cdr)
    ensures Post(st, o)
    decreases fuel, 2, 0
  {
    if Spine(cdr).1 != NIL then Outcome(st, Err(NotAProperList))
    else
      SpineValid(st.frames, cdr);
      var a := EvalArgs(st, env, Spine(cdr).0, fuel);
      match a.res
      case Err(e) => Outcome(a.st, Err(e))
      case Ok(vals) =>
        if !Fits(p, |vals|) then Outcome(a.st, Err(PatternMismatch))
        else
          var s := a.st.frames;
          var vars := Insert(map[], Bindings(p, vals));
          BindingsValid(s, p, vals);
          InsertValid(s, map[], Bindings(p, vals));
          PushFrameWf(s, vars, penv);
          var s' := s + [Some(Env.Frame(vars, Some(penv)))];
          var o := EvalNode(State(s', a.st.out), |s|, body, fuel);
          LaterTrans(st, a.st, State(s', a.st.out));
          LaterTrans(st, State(s', a.st.out), o.st);
          o
  }

  /** `eval_arith` over the operands' numeric values. */
  function Arith(ps: seq<Node>, op: (Numbers.Number, Numbers.Number) -> Numbers.Number): (r: Result<Node, Error>)
    ensures r.Ok? <==> |ps| >= 2 && forall i | 0 <= i < |ps| :: ps[i].NNumber?
    ensures r.Ok? ==> r.value.NNumber?
  {
    if |ps| < 2 then Err(FewerParams)
    else match ConvertAll(ps, AsNum)
      case Err(e) => Err(e)
      case Ok(ns) => Ok(NNumber(FoldLeft(op, ns[0], ns[1..])))
  }

  /** `eval_rel` over the operands' numeric values. */
  function Rel(ps: seq<Node>, op: (Numbers.Number, Numbers.Number) -> bool): (r: Result<Node, Error>)
    ensures r.Ok? <==> |ps| == 2 && ps[0].NNumber? && ps[1].NNumber?
    ensures r.Ok? ==> r.value == NSymbol(if op(ps[0].num, ps[1].num) then T else Nil)
  {
    match ExactlyNParams(ps, 2)
    case Err(e) => Err(e)
    case Ok(_) =>
      match ConvertAll(ps, AsNum)
      case Err(e) => Err(e)
      case Ok(ns) => Ok(NSymbol(if op(ns[0], ns[1]) then T else Nil))
  }

  /** The built-in operations on evaluated operands.  `car`, `cdr`,
      `atom?` and `number?` take exactly one operand, `cons` and `eq?`
      exactly two.  A user symbol cannot be the head here (the source
      panics), `t` and `nil` cannot be one at all, and the interpreter has
      no case for the remaining built-ins. */
  function Builtin(sym: Symbol, ps: seq<Node>): (r: Result<Node, Error>)
    ensures (sym.Car? || sym.Cdr? || sym.Atom? || sym.NumberP?) && |ps| != 1 ==> r.Err?
    ensures (sym.Cons? || sym.Eq?) && |ps| != 2 ==> r.Err?
    ensures sym.T? || sym.Nil? ==> r == Err(CannotBeHead)
    ensures sym.Cons? && r.Ok? ==> r.value == NPair(ps[0], ps[1])
    ensures sym.List? ==> r == Ok(ListOf(ps))
    ensures (sym.Car? || sym.Cdr?) && r.Ok? ==> ps[0].NPair? && r.value == (if sym.Car? then ps[0].car else ps[0].cdr)
    ensures sym.Atom? && r.Ok? ==> r.value == NSymbol(if ps[0].NPair? then Nil else T)
    ensures sym.NumberP? && r.Ok? ==> r.value == NSymbol(if ps[0].NNumber? && ps[0].num.Int? then T else Nil)
    ensures sym.Eq? && r.Ok? ==> r.value == NSymbol(if NodeEq(ps[0], ps[1]) then T else Nil)
  {
    match sym
    case User(_) => Err(Unreachable)
    case T => Err(CannotBeHead)
    case Nil => Err(CannotBeHead)
    case Add => Arith(ps, Numbers.Add)
    case Sub => Arith(ps, Numbers.Sub)
    case Mul => Arith(ps, Numbers.Mul)
    case Div => Arith(ps, Numbers.Div)
    case EqNum => Rel(ps, Numbers.Eq)
    case Lt => Rel(ps, Numbers.Lt)
    case Gt => Rel(ps, Numbers.Gt)
    case Le => Rel(ps, Numbers.Le)
    case Ge => Rel(ps, Numbers.Ge)
    case List => Ok(ListOf(ps))
    case Car =>
      (match ExactlyNParams(ps, 1)
       case Err(e) => Err(e)
       case Ok(_) => (match AsPair(ps[0]) case Err(e) => Err(e) case Ok(p) => Ok(p.0)))
    case Cdr =>
      (match ExactlyNParams(ps, 1)
       case Err(e) => Err(e)
       case Ok(_) => (match AsPair(ps[0]) case Err(e) => Err(e) case Ok(p) => Ok(p.1)))
    case Cons =>
      (match ExactlyNParams(ps, 2)
       case Err(e) => Err(e)
       case Ok(_) => Ok(NPair(ps[0], ps[1])))
    case Atom =>
      (match ExactlyNParams(ps, 1)
       case Err(e) => Err(e)
       case Ok(_) => Ok(NSymbol(if AsPair(ps[0]).Err? then T else Nil)))
    case Eq =>
      (match ExactlyNParams(ps, 2)
       case Err(e) => Err(e)
       case Ok(_) => Ok(NSymbol(if NodeEq(ps[0], ps[1]) then T else Nil)))
    case NumberP =>
      (match ExactlyNParams(ps, 1)
       case Err(e) => Err(e)
       case Ok(_) => Ok(NSymbol(if AsInt(ps[0]).Ok? then T else Nil)))
    case _ => Err(Unsupported)
  }

  /** A built-in only returns parts of its operands or new atoms. */
  lemma BuiltinValid(s: Frames, sym: Symbol, ps: seq<Node>)
    requires AllValid(s, ps)
    ensures Builtin(sym, ps).Ok? ==> ValidIn(s, Builtin(sym, ps).value)
  {
    if sym.List? {
      ListOfValid(s, ps);
    }
  }

  // ---------------------------------------------------------------------
  // The interpreter, evaluating with the source's loops

  class Interpreter {
    var frames: Frames
    var out: seq<Output>

    ghost function Now(): State
      reads this
    {
      State(frames, out)
    }

    /** `NodeEnv::top`: one global frame, numbered 0, and no output. */
    constructor()
      ensures frames == [Some(Env.Frame(map[], None))] && out == []
      ensures Fine(Now(), 0)
    {
      frames := [Some(Env.Frame(map[], None))];
      out := [];
    }

    method Eval(env: nat, n: Node, fuel: nat) returns (r: Result<Node, Error>)
      requires Fine(Now(), env) && ValidIn(frames, n)
      modifies this
      ensures Outcome(Now(), r) == EvalNode(old(Now()), env, n, fuel)
      decreases fuel, 0, 0
    {
      if fuel == 0 {
        return Err(OutOfFuel);
      }
      match n {
        case NSymbol(sym) =>
          r := EvalSymbol(frames, env, sym);
        case NPair(car, cdr) =>
          r := EvalCombination(env, car, cdr, fuel - 1);
        case _ =>
          r := Ok(n);
      }
    }

    /** A list: its head is evaluated, then applied to the tail. */
    method EvalCombination(env: nat, car: Node, cdr: Node, fuel: nat) returns (r: Result<Node, Error>)
      requires Fine(Now(), env) && ValidIn(frames, car) && ValidIn(frames, cdr)
      modifies this
      ensures Outcome(Now(), r) == EvalPair(old(Now()), env, car, cdr, fuel)
      decreases fuel, 4, 0
    {
      var h := Eval(env, car, fuel);
      if h.Err? {
        return h;
      }
      r := Apply(env, h.value, cdr, fuel);
    }

    method Apply(env: nat, head: Node, cdr: Node, fuel: nat) returns (r: Result<Node, Error>)
      requires Fine(Now(), env) && ValidIn(frames, head) && ValidIn(frames, cdr)
      modifies this
      ensures Outcome(Now(), r) == ApplyHead(old(Now()), env, head, cdr, fuel)
      decreases fuel, 3, 0
    {
      match head {
        case NNumber(_) => r := Err(CannotBeHead);
        case NPair(_, _) => r := Err(CannotBeHead);
        case NForm(f) => r := ApplySpecialForm(env, f, cdr, fuel);
        case NSymbol(sym) => r := ApplyBuiltin(env, sym, cdr, fuel);
        case NProcedure(p, body, penv) => r := ApplyLambda(env, p, body, penv, cdr, fuel);
      }
    }

    /** The operands evaluated one by one, each result pushed. */
    method EvalOperands(env: nat, xs: seq<Node>, fuel: nat) returns (r: Result<seq<Node>, Error>)
      requires Fine(Now(), env) && AllValid(frames, xs)
      modifies this
      ensures ArgsOutcome(Now(), r) == EvalArgs(old(Now()), env, xs, fuel)
      decreases fuel, 1, |xs|
    {
      var vals: seq<Node> := [];
      var k := 0;
      while k < |xs|
        invariant 0 <= k <= |xs|
        invariant EvalArgs(old(Now()), env, xs[..k], fuel) == ArgsOutcome(Now(), Ok(vals))
        invariant Later(old(Now()), Now()) && Fine(Now(), env)
      {
        assert xs[..k + 1][..k] == xs[..k] && xs[..k + 1][k] == xs[k];
        ghost var before := Now();
        var v := Eval(env, xs[k], fuel);
        LaterTrans(old(Now()), before, Now());
        if v.Err? {
          ArgsStopAtError(old(Now()), env, xs, k + 1, fuel);
          return Err(v.error);
        }
        vals := vals + [v.value];
        k := k + 1;
      }
      assert xs[..k] == xs;
      return Ok(vals);
    }

    /** `begin`: the forms evaluated one by one, keeping the last result. */
    method EvalSequence(env: nat, xs: seq<Node>, fuel: nat) returns (r: Result<Node, Error>)
      requires Fine(Now(), env) && AllValid(frames, xs)
      modifies this
      ensures Outcome(Now(), r) == EvalBegin(old(Now()), env, xs, fuel)
      decreases fuel, 1, |xs|
    {
      var last := NForm(Begin);
      var k := 0;
      while k < |xs|
        invariant 0 <= k <= |xs|
        invariant EvalBegin(old(Now()), env, xs[..k], fuel) == Outcome(Now(), Ok(last))
        invariant Later(old(Now()), Now()) && Fine(Now(), env)
      {
        assert xs[..k + 1][..k] == xs[..k] && xs[..k + 1][k] == xs[k];
        ghost var before := Now();
        var v := Eval(env, xs[k], fuel);
        LaterTrans(old(Now()), before, Now());
        if v.Err? {
          BeginStopsAtError(old(Now()), env, xs, k + 1, fuel);
          return v;
        }
        last := v.value;
        k := k + 1;
      }
      assert xs[..k] == xs;
      return Ok(last);
    }

    method ApplySpecialForm(env: nat, f: SpecialForm, cdr: Node, fuel: nat) returns (r: Result<Node, Error>)
      requires Fine(Now(), env) && ValidIn(frames, cdr)
      modifies this
      ensures Outcome(Now(), r) == ApplyForm(old(Now()), env, f, cdr, fuel)
      decreases fuel, 2, 0
    {
      match f {
        case Quote =>
          var ps := GetNParams(cdr, 1);
          r := if ps.Ok? then Ok(ps.value[0]) else Err(ps.error);
        case If => r := EvalIfForm(env, cdr, fuel);
        case Define => r := EvalDefineForm(env, cdr, fuel);
        case Set => r := EvalSetForm(env, cdr, fuel);
        case SetCar => r := EvalSetFieldForm(env, cdr, true, fuel);
        case SetCdr => r := EvalSetFieldForm(env, cdr, false, fuel);
        case Lambda => r := MakeLambda(frames, env, cdr);
        case Begin =>
          var forms := Vectorize(cdr);
          if forms.Err? {
            return Err(forms.error);
          }
          SpineValid(frames, cdr);
          r := EvalSequence(env, forms.value, fuel);
        case Display => r := EvalDisplayForm(env, cdr, fuel);
        case NewLine =>
          var ps := GetNParams(cdr, 0);
          if ps.Err? {
            return Err(ps.error);
          }
          out := out + [LineBreak];
          r := Ok(NIL);
        case BreakPoint => r := Ok(NIL);
        case _ => r := Err(Unreachable);
      }
    }

    method EvalIfForm(env: nat, cdr: Node, fuel: nat) returns (r: Result<Node, Error>)
      requires Fine(Now(), env) && ValidIn(frames, cdr)
      modifies this
      ensures Outcome(Now(), r) == EvalIf(old(Now()), env, cdr, fuel)
      decreases fuel, 1, 0
    {
      var ps := GetNParams(cdr, 3);
      if ps.Err? {
        return Err(ps.error);
      }
      var params := ps.value;
      SpineValid(frames, cdr);
      var test := Eval(env, params[0], fuel);
      if test.Err? {
        return test;
      }
      var body := if test.value != NIL then params[1] else params[2];
      r := Eval(env, body, fuel);
    }

    method EvalDefineForm(env: nat, cdr: Node, fuel: nat) returns (r: Result<Node, Error>)
      requires Fine(Now(), env) && ValidIn(frames, cdr)
      modifies this
      ensures Outcome(Now(), r) == EvalDefine(old(Now()), env, cdr, fuel)
      decreases fuel, 1, 0
    {
      var ps := GetNParams(cdr, 2);
      if ps.Err? {
        return Err(ps.error);
      }
      var params := ps.value;
      if !(params[0].NSymbol? && params[0].sym.User?) {
        return Err(NotAUserSymbol);
      }
      SpineValid(frames, cdr);
      var v := Eval(env, params[1], fuel);
      if v.Err? {
        return v;
      }
      frames := Env.Define(frames, env, params[0].sym.name, v.value);
      r := Ok(NIL);
    }

    method EvalSetForm(env: nat, cdr: Node, fuel: nat) returns (r: Result<Node, Error>)
      requires Fine(Now(), env) && ValidIn(frames, cdr)
      modifies this
      ensures Outcome(Now(), r) == EvalSet(old(Now()), env, cdr, fuel)
      decreases fuel, 1, 0
    {
      var ps := GetNParams(cdr, 2);
      if ps.Err? {
        return Err(ps.error);
      }
      var params := ps.value;
      var name := AsUserSymbol(params[0]);
      if name.Err? {
        return Err(name.error);
      }
      SpineValid(frames, cdr);
      var v := Eval(env, params[1], fuel);
      if v.Err? {
        return v;
      }
      frames := Env.Set(frames, env, name.value, v.value, |frames|).0;
      r := Ok(NIL);
    }

    method EvalSetFieldForm(env: nat, cdr: Node, car: bool, fuel: nat) returns (r: Result<Node, Error>)
      requires Fine(Now(), env) && ValidIn(frames, cdr)
      modifies this
      ensures Outcome(Now(), r) == EvalSetField(old(Now()), env, cdr, car, fuel)
      decreases fuel, 1, 0
    {
      var ps := GetNParams(cdr, 2);
      if ps.Err? {
        return Err(ps.error);
      }
      var params := ps.value;
      var name := AsUserSymbol(params[0]);
      if name.Err? {
        return Err(name.error);
      }
      SpineValid(frames, cdr);
      var v := Eval(env, params[1], fuel);
      if v.Err? {
        return v;
      }
      var target := Env.Get(frames, env, name.value, |frames|);
      if target.None? {
        return Err(NotDefined(name.value));
      }
      var pair := if car then Nodes.SetCar(target.value, v.value) else Nodes.SetCdr(target.value, v.value);
      if pair.Err? {
        return Err(pair.error);
      }
      frames := Env.Set(frames, env, name.value, pair.value, |frames|).0;
      r := Ok(NIL);
    }

    method EvalDisplayForm(env: nat, cdr: Node, fuel: nat) returns (r: Result<Node, Error>)
      requires Fine(Now(), env) && ValidIn(frames, cdr)
      modifies this
      ensures Outcome(Now(), r) == EvalDisplay(old(Now()), env, cdr, fuel)
      decreases fuel, 1, 0
    {
      var ps := GetNParams(cdr, 1);
      if ps.Err? {
        return Err(ps.error);
      }
      SpineValid(frames, cdr);
      var v := Eval(env, ps.value[0], fuel);
      if v.Err? {
        return v;
      }
      out := out + [Shown(v.value)];
      r := Ok(NIL);
    }

    method ApplyBuiltin(env: nat, sym: Symbol, cdr: Node, fuel: nat) returns (r: Result<Node, Error>)
      requires Fine(Now(), env) && ValidIn(frames, cdr)
      modifies this
      ensures Outcome(Now(), r) == ApplySymbol(old(Now()), env, sym, cdr, fuel)
      decreases fuel, 2, 0
    {
      var nodes := Vectorize(cdr);
      if nodes.Err? {
        return Err(nodes.error);
      }
      SpineValid(frames, cdr);
      var params := EvalOperands(env, nodes.value, fuel);
      if params.Err? {
        return Err(params.error);
      }
      r := CallBuiltin(sym, params.value);
    }

    method ApplyLambda(env: nat, p: Pattern, body: Node, penv: nat, cdr: Node, fuel: nat) returns (r: Result<Node, Error>)
      requires Fine(Now(), env) && Env.IsFrame(frames, penv)
      requires ValidIn(frames, body) && ValidIn(frames, cdr)
      modifies this
      ensures Outcome(Now(), r) == ApplyProcedure(old(Now()), env, p, body, penv, cdr, fuel)
      decreases fuel, 2, 0
    {
      var nodes := Vectorize(cdr);
      if nodes.Err? {
        return Err(nodes.error);
      }
      SpineValid(frames, cdr);
      var params := EvalOperands(env, nodes.value, fuel);
      if params.Err? {
        return Err(params.error);
      }
      var bindings := PatternMatching(p, params.value, map[]);
      if bindings.Err? {
        return Err(bindings.error);
      }
      var s := frames;
      BindingsValid(s, p, params.value);
      InsertValid(s, map[], Bindings(p, params.value));
      PushFrameWf(s, bindings.value, penv);
      frames := frames + [Some(Env.Frame(bindings.value, Some(penv)))];
      r := Eval(|s|, body, fuel);
    }
  }

  /** The built-in operations, computed with the helpers of src/util.rs. */
  method CallBuiltin(sym: Symbol, ps: seq<Node>) returns (r: Result<Node, Error>)
    ensures r == Builtin(sym, ps)
  {
    match sym {
      case Add => r := CallArith(ps, Numbers.Add);
      case Sub => r := CallArith(ps, Numbers.Sub);
      case Mul => r := CallArith(ps, Numbers.Mul);
      case Div => r := CallArith(ps, Numbers.Div);
      case EqNum => r := CallRel(ps, Numbers.Eq);
      case Lt => r := CallRel(ps, Numbers.Lt);
      case Gt => r := CallRel(ps, Numbers.Gt);
      case Le => r := CallRel(ps, Numbers.Le);
      case Ge => r := CallRel(ps, Numbers.Ge);
      case List =>
        var l := FromIter(ps);
        r := Ok(l);
      case _ => r := Builtin(sym, ps);
    }
  }

  method CallArith(ps: seq<Node>, op: (Numbers.Number, Numbers.Number) -> Numbers.Number) returns (r: Result<Node, Error>)
    ensures r == Arith(ps, op)
  {
    var n := EvalArith(ps, AsNum, op);
    r := if n.Ok? then Ok(NNumber(n.value)) else Err(n.error);
  }

  method CallRel(ps: seq<Node>, op: (Numbers.Number, Numbers.Number) -> bool) returns (r: Result<Node, Error>)
    ensures r == Rel(ps, op)
  {
    var b := EvalRel(ps, AsNum, op);
    r := if b.Ok? then Ok(NSymbol(b.value)) else Err(b.error);
  }
}
