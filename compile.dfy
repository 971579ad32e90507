/** The compiler to C (src/compile.rs).  A code generator writes the body
    of one C function as a sequence of runtime calls; a closure's body is
    written by a generator of its own and merged into the generator that
    creates it, under a fresh id.  The C text of each call is kept as a
    `Code` value naming the call and its arguments. */
module Compile {
  import opened Wrappers
  import opened Numbers
  import opened Symbols
  import opened Errors
  import opened Nodes
  import opened Util
  import opened Text
  import opened Preprocess

  /** Which target of `set!`, `set-car!` and `set-cdr!`. */
  datatype SetKind = SetValue | SetPairCar | SetPairCdr

  /** One statement of the generated code. */
  datatype Code =
    | PushVar(name: string)                            // rt_push(rt_get("name"));
    | NewSymbol(sym: Symbol)                           // rt_new_symbol("sym");
    | NewInteger(i: i64)                               // rt_new_integer(i);
    | NewFloat(f: F64)                                 // rt_new_float(f);
    | NewClosure(id: nat, nargs: nat, variadic: bool)  // rt_new_closure(id, func_id, nargs, variadic);
    | Print                                            // printf("%s",rt_display_node_idx(rt_pop())); fflush(NULL);
    | PrintNewline                                     // printf("\n");
    | DefineVar(name: string)                          // rt_define("name", rt_pop());
    | SetVar(kind: SetKind, name: string)              // rt_set("name", rt_pop()); / rt_set_car(rt_get("name"), rt_pop()); / ...
    | IfTrue                                           // if (rt_get_bool(rt_pop()) > 0) {
    | Else                                             // } else {
    | EndIf                                            // }
    | Constant(datum: Node)                            // rt_new_constant("datum");
    | ImportLib(lib: Node)                             // rt_import("name");
    | Pop                                              // rt_pop();
    | Call(nargs: nat)                                 // rt_apply(nargs) or rt_call_closure(nargs), by the top
    | Start                                            // rt_start();

  /** `CodeGenType`. */
  datatype GenType = Internal(id: nat) | MainGen | Library(name: string)

  // ---------------------------------------------------------------------
  // The lambda counter

  /** `COUNTER` and `inc`. */
  class LambdaIds {
    var count: nat

    constructor()
      ensures count == 0
    {
      count := 0;
    }

    /** `inc`: the counter after the increment, so ids start at 1. */
    method Inc() returns (id: nat)
      modifies this
      ensures id == old(count) + 1 && count == id
    {
      count := count + 1;
      id := count;
    }
  }

  // ---------------------------------------------------------------------
  // The generator

  /** A generated C file: forward declarations of the closures, the entry
      function's name and body, and the closures' bodies. */
  datatype Unit = Unit(declared: set<nat>, entry: string, body: seq<Code>, functions: map<nat, seq<Code>>)

  /** `CodeGen`. */
  class CodeGen {
    const ty: GenType
    var closures: map<nat, seq<Code>>
    var body: seq<Code>

    constructor NewMain()
      ensures ty == MainGen && closures == map[] && body == []
    {
      ty := MainGen;
      closures := map[];
      body := [];
    }

    constructor NewInternal(id: nat)
      ensures ty == Internal(id) && closures == map[] && body == []
    {
      ty := Internal(id);
      closures := map[];
      body := [];
    }

    constructor NewLibrary(name: string)
      ensures ty == Library(name) && closures == map[] && body == []
    {
      ty := Library(name);
      closures := map[];
      body := [];
    }

    /** `append_code`. */
    method AppendCode(code: seq<Code>)
      modifies this`body
      ensures body == old(body) + code
    {
      body := body + code;
    }

    /** `merge`: takes over the closures of an internal generator and its
        own body under its id, which must be new (the source asserts it). */
    method Merge(func: CodeGen)
      requires func.ty.Internal? && func.ty.id !in closures + func.closures
      modifies this`closures
      ensures closures == (old(closures) + func.closures)[func.ty.id := func.body]
      ensures func.ty.id !in old(closures) && func.ty.id in closures
    {
      closures := closures + func.closures;
      closures := closures[func.ty.id := func.body];
    }

    /** `Display for CodeGen`: only a main or library generator can be
        written out (an internal one panics); main starts the runtime. */
    function Render(): (u: Unit)
      reads this
      requires !ty.Internal?
      ensures u.declared == closures.Keys && u.functions == closures
      ensures ty.MainGen? ==> u.entry == "main" && u.body == [Start] + body
      ensures ty.Library? ==> u.entry == ty.name && u.body == body
    {
      if ty.MainGen? then Unit(closures.Keys, "main", [Start] + body, closures)
      else Unit(closures.Keys, ty.name, body, closures)
    }
  }

  // ---------------------------------------------------------------------
  // What compiling a node produces

  /** The outcome of compiling: the error it stopped at (if any), the code
      appended to the generator, the closures merged into it, and the
      counter afterwards. */
  datatype Out = Out(res: Result<(), Error>, code: seq<Code>, closures: map<nat, seq<Code>>, next: nat)

  function Done(code: seq<Code>, c: nat): Out { Out(Ok(()), code, map[], c) }

  function Fail(e: Error, c: nat): Out { Out(Err(e), [], map[], c) }

  /** The first part succeeded and the second followed it. */
  function Then(o1: Out, o2: Out): Out {
    Out(o2.res, o1.code + o2.code, o1.closures + o2.closures, o2.next)
  }

  /** Code appended after a part that succeeded. */
  function Emit(o: Out, code: seq<Code>): Out {
    if o.res.Ok? then Out(o.res, o.code + code, o.closures, o.next) else o
  }

  /** The counter never goes back, and every closure merged got an id
      handed out in between. */
  predicate Fresh(o: Out, c: nat) {
    c <= o.next && forall k | k in o.closures :: c < k <= o.next
  }

  predicate AllClean(xs: seq<Node>) {
    forall i | 0 <= i < |xs| :: NoProcedure(xs[i])
  }

  /** The number of nodes of a tree, which renaming variables keeps. */
  function Size(n: Node): (s: nat)
    ensures s >= 1
  {
    if n.NPair? then 1 + Size(n.car) + Size(n.cdr) else 1
  }

  function SizeAll(xs: seq<Node>): nat
    decreases |xs|
  {
    if xs == [] then 0 else Size(xs[0]) + SizeAll(xs[1..])
  }

  lemma {:induction false} ItemSize(xs: seq<Node>, i: nat)
    requires i < |xs|
    ensures Size(xs[i]) <= SizeAll(xs)
    decreases i
  {
    if i > 0 {
      assert xs[1..][i - 1] == xs[i];
      ItemSize(xs[1..], i - 1);
    }
  }

  lemma {:induction false} SizeAllLast(xs: seq<Node>)
    requires xs != []
    ensures SizeAll(xs) == SizeAll(xs[..|xs| - 1]) + Size(xs[|xs| - 1])
    decreases |xs|
  {
    if |xs| > 1 {
      SizeAllLast(xs[1..]);
      assert xs[1..][..|xs| - 2] == xs[..|xs| - 1][1..];
    }
  }

  /** The items of a list are smaller than the list, and clean if it is. */
  lemma {:induction false} SpineItems(l: Node)
    ensures SizeAll(Spine(l).0) < Size(l)
    ensures NoProcedure(l) ==> AllClean(Spine(l).0)
  {
    if l.NPair? {
      SpineItems(l.cdr);
      var xs := Spine(l).0;
      assert xs == [l.car] + Spine(l.cdr).0;
      assert xs[1..] == Spine(l.cdr).0;
    }
  }

  /** Renaming one variable to another keeps the size. */
  lemma {:induction false} ReplaceVarSize(n: Node, x: string, y: string)
    requires NoProcedure(n)
    ensures Size(Replace(n, Var(x), Var(y))) == Size(n)
  {
    if !NodeEq(n, Var(x)) && n.NPair? {
      ReplaceVarSize(n.car, x, y);
      ReplaceVarSize(n.cdr, x, y);
    }
  }

  /** Each binding renames a variable. */
  predicate Renaming(r: seq<(string, Node)>) {
    forall i | 0 <= i < |r| :: r[i].1.NSymbol? && r[i].1.sym.User?
  }

  lemma {:induction false} RenameSize(n: Node, r: seq<(string, Node)>)
    requires NoProcedure(n) && CleanValues(r) && Renaming(r)
    ensures Size(InOrder(n, r)) == Size(n)
    decreases |r|
  {
    if r != [] {
      var p := r[..|r| - 1];
      assert CleanValues(p) && Renaming(p) by {
        assert forall i | 0 <= i < |p| :: p[i] == r[i];
      }
      RenameSize(n, p);
      ReplaceVarSize(InOrder(n, p), r[|r| - 1].0, r[|r| - 1].1.sym.name);
    }
  }

  /** The `i`-th parameter of closure `id` is renamed `#i_func_{id}`. */
  function Renames(names: seq<string>, id: nat): (r: seq<(string, Node)>)
    ensures |r| == |names| && CleanValues(r) && Renaming(r)
  {
    seq(|names|, i requires 0 <= i < |names| => (names[i], Var(ParamName(i, NatToString(id)))))
  }

  /** The body of a closure, `(begin body...)` with its parameters
      renamed one after the other. */
  function LambdaBody(body: Node, names: seq<string>, id: nat): (b: Node)
    requires NoProcedure(body)
    ensures NoProcedure(b) && Size(b) == 2 + Size(body)
  {
    var r := Renames(names, id);
    RenameSize(NPair(NForm(Begin), body), r);
    InOrder(NPair(NForm(Begin), body), r)
  }

  /** `Compile for Symbol`. */
  function SymbolCode(s: Symbol): Code {
    if s.User? then PushVar(s.name) else NewSymbol(s)
  }

  /** `Compile for Node`; panics on nodes the preprocessed program cannot
      hold are reported as `Unreachable`. */
  function Gen(n: Node, c: nat): (o: Out)
    requires NoProcedure(n)
    ensures Fresh(o, c)
    decreases Size(n), 2
  {
    if n.NNumber? then
      Done([if n.num.Int? then NewInteger(n.num.i) else NewFloat(n.num.f)], c)
    else if n.NSymbol? then Done([SymbolCode(n.sym)], c)
    else if !n.NPair? then Fail(Unreachable, c)
    else if n.car.NNumber? then Fail(CannotBeHead, c)
    else if n.car.NForm? then GenForm(n, c)
    else GenApply(n, c)
  }

  /** A form taking a fixed number of operands; `k` compiles them. */
  function GenForm(n: Node, c: nat): (o: Out)
    requires n.NPair? && n.car.NForm? && NoProcedure(n)
    ensures Fresh(o, c)
    decreases Size(n), 1
  {
    var cdr := n.cdr;
    SpineItems(cdr);
    match n.car.form
    case Lambda => GenLambda(n, c)
    case Display => GenDisplay(n, c)
    case NewLine =>
      (match NParams(cdr, 0)
       case Err(e) => Fail(e, c)
       case Ok(_) => Done([PrintNewline, NewSymbol(Nil)], c))
    case BreakPoint =>
      (match NParams(cdr, 0)
       case Err(e) => Fail(e, c)
       case Ok(_) => Done([NewSymbol(Nil)], c))
    case Define => GenDefine(n, c)
    case Set => GenSet(n, SetValue, c)
    case SetCar => GenSet(n, SetPairCar, c)
    case SetCdr => GenSet(n, SetPairCdr, c)
    case If => GenIf(n, c)
    case Quote =>
      (match NParams(cdr, 1)
       case Err(e) => Fail(e, c)
       case Ok(ps) => Done([Constant(ps[0])], c))
    case Begin =>
      if Spine(cdr).1 != NIL then Fail(NotAProperList, c) else GenBegin(Spine(cdr).0, c, false)
    case Import =>
      (match NParams(cdr, 1)
       case Err(e) => Fail(e, c)
       case Ok(ps) => Done([ImportLib(ps[0]), NewSymbol(Nil)], c))
    case _ => Fail(Unreachable, c)
  }

  /** `display`: the value is printed and nil is left in its place. */
  function GenDisplay(n: Node, c: nat): (o: Out)
    requires n.NPair? && NoProcedure(n)
    ensures Fresh(o, c)
    decreases Size(n), 0
  {
    SpineItems(n.cdr);
    match NParams(n.cdr, 1)
    case Err(e) => Fail(e, c)
    case Ok(ps) => ItemSize(ps, 0); Emit(Gen(ps[0], c), [Print, NewSymbol(Nil)])
  }

  /** `define`: the name must be a user symbol, checked before the value
      is compiled. */
  function GenDefine(n: Node, c: nat): (o: Out)
    requires n.NPair? && NoProcedure(n)
    ensures Fresh(o, c)
    decreases Size(n), 0
  {
    SpineItems(n.cdr);
    match NParams(n.cdr, 2)
    case Err(e) => Fail(e, c)
    case Ok(ps) =>
      if ps[0].NSymbol? && ps[0].sym.User? then
        ItemSize(ps, 1); Emit(Gen(ps[1], c), [DefineVar(ps[0].sym.name), NewSymbol(Nil)])
      else Fail(NotAUserSymbol, c)
  }

  /** `if`: the test, then both branches, in a C conditional. */
  function GenIf(n: Node, c: nat): (o: Out)
    requires n.NPair? && NoProcedure(n)
    ensures Fresh(o, c)
    decreases Size(n), 0
  {
    SpineItems(n.cdr);
    match NParams(n.cdr, 3)
    case Err(e) => Fail(e, c)
    case Ok(ps) => GenBranches(ps, c)
  }

  /** The test and the two branches of an `if`. */
  function GenBranches(ps: seq<Node>, c: nat): (o: Out)
    requires |ps| == 3 && AllClean(ps)
    ensures Fresh(o, c)
    decreases SizeAll(ps), 3
  {
    ItemSize(ps, 0); ItemSize(ps, 1); ItemSize(ps, 2);
    var o0 := Gen(ps[0], c);
    if o0.res.Err? then o0
    else
      var o1 := Then(Emit(o0, [IfTrue]), Gen(ps[1], o0.next));
      if o1.res.Err? then o1
      else Emit(Then(Emit(o1, [Else]), Gen(ps[2], o1.next)), [EndIf])
  }

  /** `set!`, `set-car!` and `set-cdr!`: the target must be a user symbol,
      checked before the value is compiled. */
  function GenSet(n: Node, kind: SetKind, c: nat): (o: Out)
    requires n.NPair? && NoProcedure(n)
    ensures Fresh(o, c)
    decreases Size(n), 0
  {
    SpineItems(n.cdr);
    match NParams(n.cdr, 2)
    case Err(e) => Fail(e, c)
    case Ok(ps) =>
      match AsUserSymbol(ps[0])
      case Err(e) => Fail(e, c)
      case Ok(name) => ItemSize(ps, 1); Emit(Gen(ps[1], c), [SetVar(kind, name), NewSymbol(Nil)])
  }

  /** `lambda`: the id is taken before the pattern is checked; the body
      is compiled by a generator of its own, merged only if it succeeds. */
  function GenLambda(n: Node, c: nat): (o: Out)
    requires n.NPair? && NoProcedure(n)
    ensures Fresh(o, c)
    decreases Size(n), 0
  {
    var cdr := n.cdr;
    if !cdr.NPair? then Fail(NotAPair, c)
    else
      var id := c + 1;
      match NodeToPattern(cdr.car)
      case Err(e) => Fail(e, id)
      case Ok(p) =>
        assert NoProcedure(cdr) && NoProcedure(cdr.cdr);
        assert Size(n) >= Size(cdr.cdr) + 4;
        GenClosure(id, p, cdr.cdr)
  }

  /** The closure `id` with parameters `p`: its renamed body compiled by
      a generator of its own, merged only if it succeeds. */
  function GenClosure(id: nat, p: Pattern, body: Node): (o: Out)
    requires NoProcedure(body) && id > 0
    ensures Fresh(o, id - 1)
    decreases Size(body) + 3, 0
  {
    var inner := Gen(LambdaBody(body, Names(p), id), id);
    if inner.res.Err? then Fail(inner.res.error, inner.next)
    else Out(Ok(()), [NewClosure(id, |Names(p)|, !IsProperList(p))], inner.closures[id := inner.code], inner.next)
  }

  /** The forms of `begin`, with a `rt_pop()` before each but the first. */
  function GenBegin(xs: seq<Node>, c: nat, pop: bool): (o: Out)
    requires AllClean(xs)
    ensures Fresh(o, c)
    decreases SizeAll(xs), 3
  {
    if xs == [] then Done([], c)
    else
      ItemSize(xs, 0);
      var o1 := Then(Done(if pop then [Pop] else [], c), Gen(xs[0], c));
      if o1.res.Err? then o1 else Then(o1, GenBegin(xs[1..], o1.next, true))
  }

  /** The operands, last one first. */
  function GenRev(xs: seq<Node>, c: nat): (o: Out)
    requires AllClean(xs)
    ensures Fresh(o, c)
    decreases SizeAll(xs), 3
  {
    if xs == [] then Done([], c)
    else
      SizeAllLast(xs);
      var o1 := Gen(xs[|xs| - 1], c);
      if o1.res.Err? then o1 else Then(o1, GenRev(xs[..|xs| - 1], o1.next))
  }

  /** An application: the operands in reverse, then the operator, then
      the call, which the runtime dispatches on the operator's kind. */
  function GenApply(n: Node, c: nat): (o: Out)
    requires n.NPair? && NoProcedure(n)
    ensures Fresh(o, c)
    decreases Size(n), 0
  {
    SpineItems(n.cdr);
    var (xs, end) := Spine(n.cdr);
    if end != NIL then Fail(NotAProperList, c)
    else
      var args := GenRev(xs, c);
      if args.res.Err? then args
      else Emit(Then(args, Gen(n.car, args.next)), [Call(|xs|)])
  }

  // ---------------------------------------------------------------------
  // The compiler over a generator

  /** Every closure of the generator has an id already handed out. */
  predicate Issued(g: CodeGen, ids: LambdaIds)
    reads g, ids
  {
    forall k | k in g.closures :: k <= ids.count
  }

  /** The generator and the counter after appending `o` to them. */
  ghost predicate Appended(o: Out, body0: seq<Code>, closures0: map<nat, seq<Code>>, g: CodeGen, ids: LambdaIds)
    reads g, ids
  {
    g.body == body0 + o.code && g.closures == closures0 + o.closures && ids.count == o.next
  }

  lemma MapAssoc(a: map<nat, seq<Code>>, b: map<nat, seq<Code>>, c: map<nat, seq<Code>>)
    ensures (a + b) + c == a + (b + c)
  {
  }

  /** `Compile for Symbol`. */
  method CompileSymbol(s: Symbol, g: CodeGen)
    modifies g`body
    ensures g.body == old(g.body) + [SymbolCode(s)]
  {
    if s.User? {
      g.AppendCode([PushVar(s.name)]);
    } else {
      g.AppendCode([NewSymbol(s)]);
    }
  }

  /** `Compile for Node`. */
  method CompileNode(n: Node, g: CodeGen, ids: LambdaIds) returns (r: Result<(), Error>)
    requires NoProcedure(n) && Issued(g, ids)
    modifies g`body, g`closures, ids
    ensures Issued(g, ids)
    ensures r == Gen(n, old(ids.count)).res
    ensures Appended(Gen(n, old(ids.count)), old(g.body), old(g.closures), g, ids)
    decreases Size(n), 2
  {
    if n.NNumber? {
      if n.num.Int? {
        g.AppendCode([NewInteger(n.num.i)]);
      } else {
        g.AppendCode([NewFloat(n.num.f)]);
      }
      return Ok(());
    }
    if n.NSymbol? {
      CompileSymbol(n.sym, g);
      return Ok(());
    }
    if !n.NPair? {
      return Err(Unreachable);
    }
    if n.car.NNumber? {
      return Err(CannotBeHead);
    }
    if n.car.NForm? {
      r := CompileForm(n, g, ids);
    } else {
      r := CompileApply(n, g, ids);
    }
  }

  /** The special forms, applied at compile time. */
  method CompileForm(n: Node, g: CodeGen, ids: LambdaIds) returns (r: Result<(), Error>)
    requires n.NPair? && n.car.NForm? && NoProcedure(n) && Issued(g, ids)
    modifies g`body, g`closures, ids
    ensures Issued(g, ids)
    ensures r == GenForm(n, old(ids.count)).res
    ensures Appended(GenForm(n, old(ids.count)), old(g.body), old(g.closures), g, ids)
    decreases Size(n), 1
  {
    SpineItems(n.cdr);
    match n.car.form
    case Lambda => r := CompileLambda(n, g, ids);
    case Display => r := CompileDisplay(n, g, ids);
    case NewLine =>
      var ps := GetNParams(n.cdr, 0);
      if ps.Err? {
        return Err(ps.error);
      }
      g.AppendCode([PrintNewline, NewSymbol(Nil)]);
      r := Ok(());
    case BreakPoint =>
      var ps := GetNParams(n.cdr, 0);
      if ps.Err? {
        return Err(ps.error);
      }
      g.AppendCode([NewSymbol(Nil)]);
      r := Ok(());
    case Define => r := CompileDefine(n, g, ids);
    case Set => r := CompileSet(n, SetValue, g, ids);
    case SetCar => r := CompileSet(n, SetPairCar, g, ids);
    case SetCdr => r := CompileSet(n, SetPairCdr, g, ids);
    case If => r := CompileIf(n, g, ids);
    case Quote =>
      var ps := GetNParams(n.cdr, 1);
      if ps.Err? {
        return Err(ps.error);
      }
      g.AppendCode([Constant(ps.value[0])]);
      r := Ok(());
    case Begin =>
      var xs := Vectorize(n.cdr);
      if xs.Err? {
        return Err(xs.error);
      }
      r := CompileBegin(xs.value, g, ids);
    case Import =>
      var ps := GetNParams(n.cdr, 1);
      if ps.Err? {
        return Err(ps.error);
      }
      g.AppendCode([ImportLib(ps.value[0]), NewSymbol(Nil)]);
      r := Ok(());
    case _ => r := Err(Unreachable);
  }

  method CompileDisplay(n: Node, g: CodeGen, ids: LambdaIds) returns (r: Result<(), Error>)
    requires n.NPair? && NoProcedure(n) && Issued(g, ids)
    modifies g`body, g`closures, ids
    ensures Issued(g, ids)
    ensures r == GenDisplay(n, old(ids.count)).res
    ensures Appended(GenDisplay(n, old(ids.count)), old(g.body), old(g.closures), g, ids)
    decreases Size(n), 0
  {
    SpineItems(n.cdr);
    var ps := GetNParams(n.cdr, 1);
    if ps.Err? {
      return Err(ps.error);
    }
    ItemSize(ps.value, 0);
    r := CompileNode(ps.value[0], g, ids);
    if r.Err? {
      return;
    }
    g.AppendCode([Print, NewSymbol(Nil)]);
  }

  method CompileDefine(n: Node, g: CodeGen, ids: LambdaIds) returns (r: Result<(), Error>)
    requires n.NPair? && NoProcedure(n) && Issued(g, ids)
    modifies g`body, g`closures, ids
    ensures Issued(g, ids)
    ensures r == GenDefine(n, old(ids.count)).res
    ensures Appended(GenDefine(n, old(ids.count)), old(g.body), old(g.closures), g, ids)
    decreases Size(n), 0
  {
    SpineItems(n.cdr);
    var ps := GetNParams(n.cdr, 2);
    if ps.Err? {
      return Err(ps.error);
    }
    var name := ps.value[0];
    if !(name.NSymbol? && name.sym.User?) {
      return Err(NotAUserSymbol);
    }
    ItemSize(ps.value, 1);
    r := CompileNode(ps.value[1], g, ids);
    if r.Err? {
      return;
    }
    g.AppendCode([DefineVar(name.sym.name), NewSymbol(Nil)]);
  }

  /** The `set_family!` macro. */
  method CompileSet(n: Node, kind: SetKind, g: CodeGen, ids: LambdaIds) returns (r: Result<(), Error>)
    requires n.NPair? && NoProcedure(n) && Issued(g, ids)
    modifies g`body, g`closures, ids
    ensures Issued(g, ids)
    ensures r == GenSet(n, kind, old(ids.count)).res
    ensures Appended(GenSet(n, kind, old(ids.count)), old(g.body), old(g.closures), g, ids)
    decreases Size(n), 0
  {
    SpineItems(n.cdr);
    var ps := GetNParams(n.cdr, 2);
    if ps.Err? {
      return Err(ps.error);
    }
    var name := AsUserSymbol(ps.value[0]);
    if name.Err? {
      return Err(name.error);
    }
    ItemSize(ps.value, 1);
    r := CompileNode(ps.value[1], g, ids);
    if r.Err? {
      return;
    }
    g.AppendCode([SetVar(kind, name.value), NewSymbol(Nil)]);
  }

  /** Appending a part and then another is appending both at once. */
  lemma ThenAppends(b0: seq<Code>, m0: map<nat, seq<Code>>, o1: Out, o2: Out)
    ensures b0 + Then(o1, o2).code == (b0 + o1.code) + o2.code
    ensures m0 + Then(o1, o2).closures == (m0 + o1.closures) + o2.closures
  {
    MapAssoc(m0, o1.closures, o2.closures);
  }

  lemma UpdateAfterUnion(a: map<nat, seq<Code>>, b: map<nat, seq<Code>>, k: nat, v: seq<Code>)
    ensures (a + b)[k := v] == a + b[k := v]
  {
  }

  /** Code put before a part. */
  lemma DoneAppends(b0: seq<Code>, m0: map<nat, seq<Code>>, pre: seq<Code>, c: nat, o: Out)
    ensures b0 + Then(Done(pre, c), o).code == (b0 + pre) + o.code
    ensures m0 + Then(Done(pre, c), o).closures == m0 + o.closures
  {
    assert map[] + o.closures == o.closures;
  }

  lemma EmitAppends(b0: seq<Code>, m0: map<nat, seq<Code>>, o: Out, code: seq<Code>)
    requires o.res.Ok?
    ensures b0 + Emit(o, code).code == (b0 + o.code) + code
    ensures m0 + Emit(o, code).closures == m0 + o.closures
  {
  }

  method CompileIf(n: Node, g: CodeGen, ids: LambdaIds) returns (r: Result<(), Error>)
    requires n.NPair? && NoProcedure(n) && Issued(g, ids)
    modifies g`body, g`closures, ids
    ensures Issued(g, ids)
    ensures r == GenIf(n, old(ids.count)).res
    ensures Appended(GenIf(n, old(ids.count)), old(g.body), old(g.closures), g, ids)
    decreases Size(n), 0
  {
    SpineItems(n.cdr);
    var ps := GetNParams(n.cdr, 3);
    if ps.Err? {
      return Err(ps.error);
    }
    r := CompileBranches(ps.value, g, ids);
  }

  method CompileBranches(xs: seq<Node>, g: CodeGen, ids: LambdaIds) returns (r: Result<(), Error>)
    requires |xs| == 3 && AllClean(xs) && Issued(g, ids)
    modifies g`body, g`closures, ids
    ensures Issued(g, ids)
    ensures r == GenBranches(xs, old(ids.count)).res
    ensures Appended(GenBranches(xs, old(ids.count)), old(g.body), old(g.closures), g, ids)
    decreases SizeAll(xs), 3
  {
    ItemSize(xs, 0);
    ItemSize(xs, 1);
    ItemSize(xs, 2);
    ghost var c, b0, m0 := ids.count, g.body, g.closures;
    r := CompileNode(xs[0], g, ids);
    ghost var o0 := Gen(xs[0], c);
    if r.Err? {
      return;
    }
    g.AppendCode([IfTrue]);
    EmitAppends(b0, m0, o0, [IfTrue]);
    r := CompileNode(xs[1], g, ids);
    ghost var o1 := Then(Emit(o0, [IfTrue]), Gen(xs[1], o0.next));
    ThenAppends(b0, m0, Emit(o0, [IfTrue]), Gen(xs[1], o0.next));
    if r.Err? {
      return;
    }
    g.AppendCode([Else]);
    EmitAppends(b0, m0, o1, [Else]);
    r := CompileNode(xs[2], g, ids);
    ghost var o2 := Then(Emit(o1, [Else]), Gen(xs[2], o1.next));
    ThenAppends(b0, m0, Emit(o1, [Else]), Gen(xs[2], o1.next));
    if r.Err? {
      return;
    }
    g.AppendCode([EndIf]);
    EmitAppends(b0, m0, o2, [EndIf]);
  }

  /** The renaming loop of `lambda`: the `i`-th parameter becomes
      `#i_func_{id}`, one parameter after the other. */
  method RenameParams(body: Node, names: seq<string>, id: nat) returns (b: Node)
    requires NoProcedure(body)
    ensures b == InOrder(body, Renames(names, id))
  {
    ghost var renames := Renames(names, id);
    b := body;
    var i := 0;
    while i < |names|
      invariant i <= |names| && b == InOrder(body, renames[..i])
    {
      ghost var p := renames[..i + 1];
      assert p[..|p| - 1] == renames[..i] && p[|p| - 1] == renames[i];
      b := Replace(b, Var(names[i]), Var(ParamName(i, NatToString(id))));
      i := i + 1;
    }
    assert renames[..|names|] == renames;
  }

  /** `lambda`: the parameters are renamed in the order `vectorize` lists
      them, the body is compiled by a fresh internal generator, which is
      merged, and the closure is created. */
  method CompileLambda(n: Node, g: CodeGen, ids: LambdaIds) returns (r: Result<(), Error>)
    requires n.NPair? && NoProcedure(n) && Issued(g, ids)
    modifies g`body, g`closures, ids
    ensures Issued(g, ids)
    ensures r == GenLambda(n, old(ids.count)).res
    ensures Appended(GenLambda(n, old(ids.count)), old(g.body), old(g.closures), g, ids)
    decreases Size(n), 0
  {
    var cdr := n.cdr;
    if !cdr.NPair? {
      assert GenLambda(n, ids.count) == Fail(NotAPair, ids.count);
      return Err(NotAPair);
    }
    assert NoProcedure(cdr) && NoProcedure(cdr.cdr);
    var id := ids.Inc();
    var pattern := NodeToPattern(cdr.car);
    if pattern.Err? {
      assert GenLambda(n, id - 1) == Fail(pattern.error, id);
      return Err(pattern.error);
    }
    assert Size(n) >= Size(cdr.cdr) + 4;
    r := CompileClosure(id, pattern.value, cdr.cdr, g, ids);
  }

  method CompileClosure(id: nat, p: Pattern, body: Node, g: CodeGen, ids: LambdaIds) returns (r: Result<(), Error>)
    requires NoProcedure(body) && ids.count == id > 0 && forall k | k in g.closures :: k < id
    modifies g`body, g`closures, ids
    ensures Issued(g, ids)
    ensures r == GenClosure(id, p, body).res
    ensures Appended(GenClosure(id, p, body), old(g.body), old(g.closures), g, ids)
    decreases Size(body) + 3, 0
  {
    var pvec := AppendNames(p, []);
    assert pvec == Names(p);
    var renamed := RenameParams(NPair(NForm(Begin), body), pvec, id);
    assert renamed == LambdaBody(body, Names(p), id);
    var lambdaGen := new CodeGen.NewInternal(id);
    r := CompileNode(renamed, lambdaGen, ids);
    ghost var inner := Gen(renamed, id);
    if r.Err? {
      return;
    }
    assert lambdaGen.body == inner.code && lambdaGen.closures == inner.closures;
    g.Merge(lambdaGen);
    g.AppendCode([NewClosure(id, |pvec|, !IsProperList(p))]);
    UpdateAfterUnion(old(g.closures), inner.closures, id, inner.code);
    r := Ok(());
  }

  /** One step of `begin`: what is left after the first form. */
  lemma BeginStep(xs: seq<Node>, c: nat, pop: bool)
    requires AllClean(xs) && xs != []
    ensures NoProcedure(xs[0]) && AllClean(xs[1..])
    ensures var o1 := Then(Done(if pop then [Pop] else [], c), Gen(xs[0], c));
      GenBegin(xs, c, pop) == if o1.res.Err? then o1 else Then(o1, GenBegin(xs[1..], o1.next, true))
  {
    assert NoProcedure(xs[0]);
  }

  /** The loop of `begin`. */
  method CompileBegin(xs: seq<Node>, g: CodeGen, ids: LambdaIds) returns (r: Result<(), Error>)
    requires AllClean(xs) && Issued(g, ids)
    modifies g`body, g`closures, ids
    ensures Issued(g, ids)
    ensures r == GenBegin(xs, old(ids.count), false).res
    ensures Appended(GenBegin(xs, old(ids.count), false), old(g.body), old(g.closures), g, ids)
    decreases SizeAll(xs), 3
  {
    ghost var whole := GenBegin(xs, ids.count, false);
    var pop := false;
    var i := 0;
    while i < |xs|
      invariant i <= |xs| && pop == (i > 0) && Issued(g, ids)
      invariant AllClean(xs[i..])
      invariant var rest := GenBegin(xs[i..], ids.count, pop);
        whole.res == rest.res && whole.next == rest.next && old(g.body) + whole.code == g.body + rest.code &&
        old(g.closures) + whole.closures == g.closures + rest.closures
    {
      ghost var b0, m0, c0 := g.body, g.closures, ids.count;
      ghost var rest := GenBegin(xs[i..], c0, pop);
      ghost var pre: seq<Code> := if pop then [Pop] else [];
      BeginStep(xs[i..], c0, pop);
      assert xs[i..][0] == xs[i] && xs[i..][1..] == xs[i + 1..];
      ghost var o1 := Then(Done(pre, c0), Gen(xs[i], c0));
      if pop {
        g.AppendCode([Pop]);
      } else {
        pop := true;
      }
      assert g.body == b0 + pre;
      ItemSize(xs, i);
      r := CompileNode(xs[i], g, ids);
      DoneAppends(b0, m0, pre, c0, Gen(xs[i], c0));
      if r.Err? {
        assert rest == o1;
        return;
      }
      ghost var tail := GenBegin(xs[i + 1..], ids.count, true);
      assert rest == Then(o1, tail);
      ThenAppends(b0, m0, o1, tail);
      i := i + 1;
    }
    assert g.closures + map[] == g.closures;
    r := Ok(());
  }

  /** One step of the operands: the last one, then the others. */
  lemma RevStep(xs: seq<Node>, c: nat)
    requires AllClean(xs) && xs != []
    ensures NoProcedure(xs[|xs| - 1]) && AllClean(xs[..|xs| - 1])
    ensures var o1 := Gen(xs[|xs| - 1], c);
      GenRev(xs, c) == if o1.res.Err? then o1 else Then(o1, GenRev(xs[..|xs| - 1], o1.next))
  {
    assert NoProcedure(xs[|xs| - 1]);
  }

  /** The loop over the operands, last one first. */
  method CompileOperands(xs: seq<Node>, g: CodeGen, ids: LambdaIds) returns (r: Result<(), Error>)
    requires AllClean(xs) && Issued(g, ids)
    modifies g`body, g`closures, ids
    ensures Issued(g, ids)
    ensures r == GenRev(xs, old(ids.count)).res
    ensures Appended(GenRev(xs, old(ids.count)), old(g.body), old(g.closures), g, ids)
    decreases SizeAll(xs), 3
  {
    ghost var whole := GenRev(xs, ids.count);
    var k := |xs|;
    assert xs[..k] == xs;
    while k > 0
      invariant 0 <= k <= |xs| && Issued(g, ids)
      invariant AllClean(xs[..k])
      invariant var rest := GenRev(xs[..k], ids.count);
        whole.res == rest.res && whole.next == rest.next && old(g.body) + whole.code == g.body + rest.code &&
        old(g.closures) + whole.closures == g.closures + rest.closures
    {
      ghost var b0, m0, c0 := g.body, g.closures, ids.count;
      RevStep(xs[..k], c0);
      assert xs[..k][k - 1] == xs[k - 1] && xs[..k][..k - 1] == xs[..k - 1];
      SizeAllLast(xs[..k]);
      ItemSize(xs, k - 1);
      r := CompileNode(xs[k - 1], g, ids);
      ghost var o1 := Gen(xs[k - 1], c0);
      if r.Err? {
        return;
      }
      ghost var tail := GenRev(xs[..k - 1], ids.count);
      ThenAppends(b0, m0, o1, tail);
      k := k - 1;
    }
    r := Ok(());
  }

  /** An application. */
  method CompileApply(n: Node, g: CodeGen, ids: LambdaIds) returns (r: Result<(), Error>)
    requires n.NPair? && NoProcedure(n) && Issued(g, ids)
    modifies g`body, g`closures, ids
    ensures Issued(g, ids)
    ensures r == GenApply(n, old(ids.count)).res
    ensures Appended(GenApply(n, old(ids.count)), old(g.body), old(g.closures), g, ids)
    decreases Size(n), 0
  {
    SpineItems(n.cdr);
    var xs := Vectorize(n.cdr);
    if xs.Err? {
      return Err(xs.error);
    }
    ghost var c, b0, m0 := ids.count, g.body, g.closures;
    r := CompileOperands(xs.value, g, ids);
    ghost var args := GenRev(xs.value, c);
    if r.Err? {
      return;
    }
    r := CompileNode(n.car, g, ids);
    ghost var o := Then(args, Gen(n.car, args.next));
    ThenAppends(b0, m0, args, Gen(n.car, args.next));
    if r.Err? {
      return;
    }
    g.AppendCode([Call(|xs.value|)]);
    EmitAppends(b0, m0, o, [Call(|xs.value|)]);
    assert GenApply(n, c) == Emit(o, [Call(|xs.value|)]);
  }

  // ---------------------------------------------------------------------
  // Stack balance

  /** How one statement changes the depth of the runtime stack: pushes
      leave one more value, pops and the statements consuming a value one
      less, a call of `k` operands replaces the operator and the operands
      by the result.  The two branches of a conditional run one at a
      time, so `} else {` takes back the value the `then` branch left. */
  function Effect(s: Code): int {
    match s
    case PushVar(_) => 1
    case NewSymbol(_) => 1
    case NewInteger(_) => 1
    case NewFloat(_) => 1
    case NewClosure(_, _, _) => 1
    case Constant(_) => 1
    case Print => -1
    case DefineVar(_) => -1
    case SetVar(_, _) => -1
    case IfTrue => -1
    case Else => -1
    case Pop => -1
    case Call(k) => -(k as int)
    case PrintNewline => 0
    case EndIf => 0
    case ImportLib(_) => 0
    case Start => 0
  }

  /** What a sequence of statements does to the depth of the stack. */
  function Net(code: seq<Code>): int
    decreases |code|
  {
    if code == [] then 0 else Effect(code[0]) + Net(code[1..])
  }

  lemma {:induction false} NetAppend(a: seq<Code>, b: seq<Code>)
    ensures Net(a + b) == Net(a) + Net(b)
    decreases |a|
  {
    if a == [] {
      assert a + b == b;
    } else {
      assert (a + b)[0] == a[0] && (a + b)[1..] == a[1..] + b;
      NetAppend(a[1..], b);
    }
  }

  lemma NetTwo(x: Code, y: Code)
    ensures Net([x, y]) == Effect(x) + Effect(y)
  {
    assert [x, y][1..] == [y] && [y][1..] == [];
    assert Net([y]) == Effect(y);
  }

  /** Every closure body leaves exactly one value, its result. */
  predicate Balanced(m: map<nat, seq<Code>>) {
    forall k | k in m :: Net(m[k]) == 1
  }

  /** Every `begin` and every `lambda` of the tree has a body.  Quoted
      data is held to this as well. */
  predicate Blocks(n: Node) {
    if n.NPair? then
      (n.car.NForm? && n.car.form.Begin? ==> n.cdr.NPair?) &&
      (n.car.NForm? && n.car.form.Lambda? && n.cdr.NPair? ==> n.cdr.cdr.NPair?) &&
      Blocks(n.car) && Blocks(n.cdr)
    else true
  }

  predicate AllBlocks(xs: seq<Node>) {
    forall i | 0 <= i < |xs| :: Blocks(xs[i])
  }

  lemma {:induction false} SpineBlocks(l: Node)
    requires Blocks(l)
    ensures AllBlocks(Spine(l).0)
  {
    if l.NPair? {
      SpineBlocks(l.cdr);
      assert Spine(l).0 == [l.car] + Spine(l.cdr).0;
    }
  }

  /** Renaming one variable keeps every body in place. */
  lemma {:induction false} ReplaceVarBlocks(n: Node, x: string, y: string)
    requires NoProcedure(n) && Blocks(n)
    ensures Blocks(Replace(n, Var(x), Var(y)))
  {
    if n.NPair? {
      assert !NodeEq(n, Var(x));
      var r := Replace(n, Var(x), Var(y));
      assert r == NPair(Replace(n.car, Var(x), Var(y)), Replace(n.cdr, Var(x), Var(y)));
      ReplaceVarBlocks(n.car, x, y);
      ReplaceVarBlocks(n.cdr, x, y);
      if n.car.NForm? {
        assert !NodeEq(n.car, Var(x));
        assert r.car == n.car;
      }
      if n.cdr.NPair? {
        assert !NodeEq(n.cdr, Var(x));
        assert r.cdr == NPair(Replace(n.cdr.car, Var(x), Var(y)), Replace(n.cdr.cdr, Var(x), Var(y)));
        if n.cdr.cdr.NPair? {
          assert !NodeEq(n.cdr.cdr, Var(x));
          assert r.cdr.cdr.NPair?;
        }
      }
    }
  }

  lemma {:induction false} RenameBlocks(n: Node, r: seq<(string, Node)>)
    requires NoProcedure(n) && Blocks(n) && CleanValues(r) && Renaming(r)
    ensures Blocks(InOrder(n, r))
    decreases |r|
  {
    if r != [] {
      var p := r[..|r| - 1];
      assert CleanValues(p) && Renaming(p) by {
        assert forall i | 0 <= i < |p| :: p[i] == r[i];
      }
      RenameBlocks(n, p);
      ReplaceVarBlocks(InOrder(n, p), r[|r| - 1].0, r[|r| - 1].1.sym.name);
    }
  }

  lemma UnionBalanced(a: map<nat, seq<Code>>, b: map<nat, seq<Code>>)
    requires Balanced(a) && Balanced(b)
    ensures Balanced(a + b)
  {
  }

  /** Stack balance: a node compiled without error leaves exactly one
      value on the stack, and so does every closure body it creates. */
  /** Without `Blocks` the balance fails: `(begin)` compiles to no code at
      all, and `(lambda ())` to a closure whose body pushes nothing, so
      neither leaves a value on the stack. */
  lemma EmptyBodiesLeaveNothing(c: nat)
    ensures var o := Gen(NPair(NForm(Begin), NIL), c);
      o.res.Ok? && o.code == [] && Net(o.code) == 0
    ensures var o := Gen(NPair(NForm(Lambda), NPair(NIL, NIL)), c);
      o.res.Ok? && c + 1 in o.closures && o.closures[c + 1] == [] && Net(o.closures[c + 1]) == 0
  {
    assert Spine(NIL) == ([], NIL);
    assert NodeToPattern(NIL) == Ok(PNil);
    assert LambdaBody(NIL, Names(PNil), c + 1) == NPair(NForm(Begin), NIL);
  }

  lemma {:induction false} GenBalanced(n: Node, c: nat)
    requires NoProcedure(n) && Blocks(n)
    ensures Gen(n, c).res.Ok? ==> Net(Gen(n, c).code) == 1 && Balanced(Gen(n, c).closures)
    decreases Size(n), 2
  {
    if n.NPair? && !n.car.NNumber? {
      if n.car.NForm? {
        FormBalanced(n, c);
      } else {
        ApplyBalanced(n, c);
      }
    }
  }

  lemma {:induction false} FormBalanced(n: Node, c: nat)
    requires n.NPair? && n.car.NForm? && NoProcedure(n) && Blocks(n)
    ensures GenForm(n, c).res.Ok? ==> Net(GenForm(n, c).code) == 1 && Balanced(GenForm(n, c).closures)
    decreases Size(n), 1
  {
    SpineItems(n.cdr);
    SpineBlocks(n.cdr);
    match n.car.form
    case Lambda => LambdaBalanced(n, c);
    case Display => DisplayBalanced(n, c);
    case Define => DefineBalanced(n, c);
    case Set => SetBalanced(n, SetValue, c);
    case SetCar => SetBalanced(n, SetPairCar, c);
    case SetCdr => SetBalanced(n, SetPairCdr, c);
    case If => IfBalanced(n, c);
    case Begin =>
      if Spine(n.cdr).1 == NIL {
        BeginBalanced(Spine(n.cdr).0, c, false);
      }
    case _ =>
  }

  lemma {:induction false} DisplayBalanced(n: Node, c: nat)
    requires n.NPair? && NoProcedure(n) && Blocks(n)
    ensures GenDisplay(n, c).res.Ok? ==> Net(GenDisplay(n, c).code) == 1 && Balanced(GenDisplay(n, c).closures)
    decreases Size(n), 0
  {
    SpineItems(n.cdr);
    SpineBlocks(n.cdr);
    match NParams(n.cdr, 1)
    case Err(_) =>
    case Ok(ps) =>
      ItemSize(ps, 0);
      GenBalanced(ps[0], c);
      NetAppend(Gen(ps[0], c).code, [Print, NewSymbol(Nil)]);
      NetTwo(Print, NewSymbol(Nil));
  }

  lemma {:induction false} DefineBalanced(n: Node, c: nat)
    requires n.NPair? && NoProcedure(n) && Blocks(n)
    ensures GenDefine(n, c).res.Ok? ==> Net(GenDefine(n, c).code) == 1 && Balanced(GenDefine(n, c).closures)
    decreases Size(n), 0
  {
    SpineItems(n.cdr);
    SpineBlocks(n.cdr);
    match NParams(n.cdr, 2)
    case Err(_) =>
    case Ok(ps) =>
      if ps[0].NSymbol? && ps[0].sym.User? {
        ItemSize(ps, 1);
        GenBalanced(ps[1], c);
        NetAppend(Gen(ps[1], c).code, [DefineVar(ps[0].sym.name), NewSymbol(Nil)]);
        NetTwo(DefineVar(ps[0].sym.name), NewSymbol(Nil));
      }
  }

  lemma {:induction false} SetBalanced(n: Node, kind: SetKind, c: nat)
    requires n.NPair? && NoProcedure(n) && Blocks(n)
    ensures GenSet(n, kind, c).res.Ok? ==> Net(GenSet(n, kind, c).code) == 1 && Balanced(GenSet(n, kind, c).closures)
    decreases Size(n), 0
  {
    SpineItems(n.cdr);
    SpineBlocks(n.cdr);
    match NParams(n.cdr, 2)
    case Err(_) =>
    case Ok(ps) =>
      match AsUserSymbol(ps[0])
      case Err(_) =>
      case Ok(name) =>
        ItemSize(ps, 1);
        GenBalanced(ps[1], c);
        NetAppend(Gen(ps[1], c).code, [SetVar(kind, name), NewSymbol(Nil)]);
        NetTwo(SetVar(kind, name), NewSymbol(Nil));
  }

  lemma {:induction false} IfBalanced(n: Node, c: nat)
    requires n.NPair? && NoProcedure(n) && Blocks(n)
    ensures GenIf(n, c).res.Ok? ==> Net(GenIf(n, c).code) == 1 && Balanced(GenIf(n, c).closures)
    decreases Size(n), 0
  {
    SpineItems(n.cdr);
    SpineBlocks(n.cdr);
    match NParams(n.cdr, 3)
    case Err(_) =>
    case Ok(ps) => BranchesBalanced(ps, c);
  }

  /** The stack effect of `test if { then } else { else }`. */
  lemma BranchesNet(c0: seq<Code>, c1: seq<Code>, c2: seq<Code>)
    requires Net(c0) == 1 && Net(c1) == 1 && Net(c2) == 1
    ensures Net(((((c0 + [IfTrue]) + c1) + [Else]) + c2) + [EndIf]) == 1
  {
    NetAppend(c0, [IfTrue]);
    NetAppend(c0 + [IfTrue], c1);
    NetAppend((c0 + [IfTrue]) + c1, [Else]);
    NetAppend(((c0 + [IfTrue]) + c1) + [Else], c2);
    NetAppend((((c0 + [IfTrue]) + c1) + [Else]) + c2, [EndIf]);
  }

  lemma {:induction false} BranchesBalanced(ps: seq<Node>, c: nat)
    requires |ps| == 3 && AllClean(ps) && AllBlocks(ps)
    ensures GenBranches(ps, c).res.Ok? ==> Net(GenBranches(ps, c).code) == 1 && Balanced(GenBranches(ps, c).closures)
    decreases SizeAll(ps), 3
  {
    ItemSize(ps, 0);
    ItemSize(ps, 1);
    ItemSize(ps, 2);
    var o0 := Gen(ps[0], c);
    GenBalanced(ps[0], c);
    if o0.res.Ok? {
      var e1 := Gen(ps[1], o0.next);
      var o1 := Then(Emit(o0, [IfTrue]), e1);
      GenBalanced(ps[1], o0.next);
      if o1.res.Ok? {
        var e2 := Gen(ps[2], o1.next);
        GenBalanced(ps[2], o1.next);
        if e2.res.Ok? {
          var r := GenBranches(ps, c);
          assert r == Emit(Then(Emit(o1, [Else]), e2), [EndIf]);
          assert r.code == ((o1.code + [Else]) + e2.code) + [EndIf] && r.closures == o1.closures + e2.closures;
          assert o1.code == (o0.code + [IfTrue]) + e1.code && o1.closures == o0.closures + e1.closures;
          BranchesNet(o0.code, e1.code, e2.code);
          UnionBalanced(o0.closures, e1.closures);
          UnionBalanced(o1.closures, e2.closures);
        }
      }
    }
  }

  lemma {:induction false} LambdaBalanced(n: Node, c: nat)
    requires n.NPair? && n.car.NForm? && n.car.form.Lambda? && NoProcedure(n) && Blocks(n)
    ensures GenLambda(n, c).res.Ok? ==> Net(GenLambda(n, c).code) == 1 && Balanced(GenLambda(n, c).closures)
    decreases Size(n), 0
  {
    var cdr := n.cdr;
    if cdr.NPair? {
      match NodeToPattern(cdr.car)
      case Err(_) =>
      case Ok(p) =>
        assert NoProcedure(cdr) && NoProcedure(cdr.cdr);
        assert Size(n) >= Size(cdr.cdr) + 4;
        assert Blocks(cdr) && Blocks(cdr.cdr);
        ClosureBalanced(c + 1, p, cdr.cdr);
    }
  }

  lemma {:induction false} ClosureBalanced(id: nat, p: Pattern, body: Node)
    requires NoProcedure(body) && Blocks(body) && body.NPair? && id > 0
    ensures GenClosure(id, p, body).res.Ok? ==> Net(GenClosure(id, p, body).code) == 1 && Balanced(GenClosure(id, p, body).closures)
    decreases Size(body) + 3, 0
  {
    var block := NPair(NForm(Begin), body);
    assert Blocks(block);
    RenameBlocks(block, Renames(Names(p), id));
    GenBalanced(LambdaBody(body, Names(p), id), id);
  }

  /** A `begin` of forms leaves one value, the last form's; with `pop`
      set the value left before it is popped first. */
  lemma {:induction false} BeginBalanced(xs: seq<Node>, c: nat, pop: bool)
    requires AllClean(xs) && AllBlocks(xs)
    ensures var o := GenBegin(xs, c, pop);
      o.res.Ok? ==> Net(o.code) == (if xs != [] && !pop then 1 else 0) && Balanced(o.closures)
    decreases SizeAll(xs), 3
  {
    if xs != [] {
      ItemSize(xs, 0);
      var pre: seq<Code> := if pop then [Pop] else [];
      var o1 := Then(Done(pre, c), Gen(xs[0], c));
      GenBalanced(xs[0], c);
      NetAppend(pre, Gen(xs[0], c).code);
      assert map[] + Gen(xs[0], c).closures == Gen(xs[0], c).closures;
      if o1.res.Ok? {
        assert AllClean(xs[1..]) && AllBlocks(xs[1..]) by {
          assert forall i | 0 <= i < |xs| - 1 :: xs[1..][i] == xs[i + 1];
        }
        var rest := GenBegin(xs[1..], o1.next, true);
        BeginBalanced(xs[1..], o1.next, true);
        NetAppend(o1.code, rest.code);
        if rest.res.Ok? {
          UnionBalanced(o1.closures, rest.closures);
        }
      }
    }
  }

  /** The operands leave one value each. */
  lemma {:induction false} RevBalanced(xs: seq<Node>, c: nat)
    requires AllClean(xs) && AllBlocks(xs)
    ensures GenRev(xs, c).res.Ok? ==> Net(GenRev(xs, c).code) == |xs| && Balanced(GenRev(xs, c).closures)
    decreases SizeAll(xs), 3
  {
    if xs != [] {
      SizeAllLast(xs);
      var o1 := Gen(xs[|xs| - 1], c);
      GenBalanced(xs[|xs| - 1], c);
      if o1.res.Ok? {
        var init := xs[..|xs| - 1];
        assert AllClean(init) && AllBlocks(init) by {
          assert forall i | 0 <= i < |init| :: init[i] == xs[i];
        }
        RevBalanced(init, o1.next);
        NetAppend(o1.code, GenRev(init, o1.next).code);
        if GenRev(init, o1.next).res.Ok? {
          UnionBalanced(o1.closures, GenRev(init, o1.next).closures);
        }
      }
    }
  }

  lemma {:induction false} ApplyBalanced(n: Node, c: nat)
    requires n.NPair? && NoProcedure(n) && Blocks(n)
    ensures GenApply(n, c).res.Ok? ==> Net(GenApply(n, c).code) == 1 && Balanced(GenApply(n, c).closures)
    decreases Size(n), 0
  {
    SpineItems(n.cdr);
    SpineBlocks(n.cdr);
    var (xs, end) := Spine(n.cdr);
    if end == NIL {
      var args := GenRev(xs, c);
      RevBalanced(xs, c);
      if args.res.Ok? {
        var f := Gen(n.car, args.next);
        GenBalanced(n.car, args.next);
        NetAppend(args.code, f.code);
        NetAppend(args.code + f.code, [Call(|xs|)]);
        if f.res.Ok? {
          UnionBalanced(args.closures, f.closures);
        }
      }
    }
  }

  // ---------------------------------------------------------------------
  // The order of the generated code

  /** The code of forms compiled one after the other. */
  function Parts(xs: seq<Node>, c: nat): seq<seq<Code>>
    requires AllClean(xs)
    decreases |xs|
  {
    if xs == [] then []
    else
      assert AllClean(xs[1..]) by {
        assert forall i | 0 <= i < |xs| - 1 :: xs[1..][i] == xs[i + 1];
      }
      [Gen(xs[0], c).code] + Parts(xs[1..], Gen(xs[0], c).next)
  }

  /** Parts with a `rt_pop();` between each two consecutive ones, and one
      before the first when `pop` is set. */
  function Separated(parts: seq<seq<Code>>, pop: bool): seq<Code>
    decreases |parts|
  {
    if parts == [] then [] else (if pop then [Pop] else []) + parts[0] + Separated(parts[1..], true)
  }

  /** `begin` puts the forms' code one after the other, separated by pops. */
  lemma {:induction false} BeginSeparated(xs: seq<Node>, c: nat, pop: bool)
    requires AllClean(xs)
    ensures GenBegin(xs, c, pop).res.Ok? ==> GenBegin(xs, c, pop).code == Separated(Parts(xs, c), pop)
    decreases |xs|
  {
    if xs != [] {
      assert AllClean(xs[1..]) by {
        assert forall i | 0 <= i < |xs| - 1 :: xs[1..][i] == xs[i + 1];
      }
      var o := Gen(xs[0], c);
      BeginSeparated(xs[1..], o.next, true);
      var ps := Parts(xs, c);
      assert ps[0] == o.code && ps[1..] == Parts(xs[1..], o.next);
    }
  }

  /** How many pops a piece of code holds. */
  function Pops(code: seq<Code>): nat {
    multiset(code)[Pop]
  }

  function SumPops(parts: seq<seq<Code>>): nat
    decreases |parts|
  {
    if parts == [] then 0 else Pops(parts[0]) + SumPops(parts[1..])
  }

  /** `n` parts, separated, hold `n - 1` pops besides their own. */
  lemma {:induction false} SeparatedPops(parts: seq<seq<Code>>, pop: bool)
    requires parts != []
    ensures Pops(Separated(parts, pop)) == SumPops(parts) + |parts| - (if pop then 0 else 1)
    decreases |parts|
  {
    var pre: seq<Code> := if pop then [Pop] else [];
    assert multiset(Separated(parts, pop)) == multiset(pre) + multiset(parts[0]) + multiset(Separated(parts[1..], true));
    if |parts| > 1 {
      SeparatedPops(parts[1..], true);
    } else {
      assert parts[1..] == [];
    }
  }

  /** Numbers and symbols compile to a single push. */
  predicate IsAtom(x: Node) {
    x.NNumber? || x.NSymbol?
  }

  function AtomCode(x: Node): Code
    requires IsAtom(x)
  {
    if x.NNumber? then (if x.num.Int? then NewInteger(x.num.i) else NewFloat(x.num.f)) else SymbolCode(x.sym)
  }

  /** Operands that are atoms are pushed last one first. */
  lemma {:induction false} RevAtoms(xs: seq<Node>, c: nat)
    requires forall i | 0 <= i < |xs| :: IsAtom(xs[i])
    ensures AllClean(xs)
    ensures var o := GenRev(xs, c);
      o.res.Ok? && o.closures == map[] && o.next == c && |o.code| == |xs| &&
      forall i | 0 <= i < |xs| :: o.code[i] == AtomCode(xs[|xs| - 1 - i])
    decreases |xs|
  {
    assert AllClean(xs);
    if xs != [] {
      var init := xs[..|xs| - 1];
      assert forall i | 0 <= i < |init| :: init[i] == xs[i];
      RevAtoms(init, c);
      var o1 := Gen(xs[|xs| - 1], c);
      assert o1 == Done([AtomCode(xs[|xs| - 1])], c);
      var rest := GenRev(init, c);
      assert GenRev(xs, c) == Then(o1, rest);
      ghost var none: map<nat, seq<Code>> := map[];
      assert none + none == none;
      forall i | 0 <= i < |xs| ensures GenRev(xs, c).code[i] == AtomCode(xs[|xs| - 1 - i]) {
        if i > 0 {
          assert GenRev(xs, c).code[i] == rest.code[i - 1];
        }
      }
    }
  }

  /** Application order: `(f x0 ... xn-1)` with atoms as operands pushes
      `xn-1` first and `x0` last, then the operator, then calls; so the
      operator is on top with the first operand below it, the order in
      which the runtime pops the parameters `#0_func_...`, `#1_func_...`. */
  lemma ApplyAtoms(f: Node, xs: seq<Node>, c: nat)
    requires f.NSymbol? && f.sym.User? && forall i | 0 <= i < |xs| :: IsAtom(xs[i])
    ensures NoProcedure(NPair(f, ListOf(xs)))
    ensures var o := Gen(NPair(f, ListOf(xs)), c);
      o.res.Ok? && o.closures == map[] && o.next == c && |o.code| == |xs| + 2 &&
      (forall i | 0 <= i < |xs| :: o.code[i] == AtomCode(xs[|xs| - 1 - i])) &&
      o.code[|xs|] == PushVar(f.sym.name) && o.code[|xs| + 1] == Call(|xs|)
  {
    SpineOfList(xs);
    RevAtoms(xs, c);
    ListOfClean(xs);
    var n := NPair(f, ListOf(xs));
    assert GenApply(n, c) == Emit(Then(GenRev(xs, c), Gen(f, c)), [Call(|xs|)]);
    ghost var none: map<nat, seq<Code>> := map[];
    assert none + none == none;
  }

  lemma {:induction false} ListOfClean(xs: seq<Node>)
    requires AllClean(xs)
    ensures NoProcedure(ListOf(xs))
    decreases |xs|
  {
    if xs != [] {
      assert AllClean(xs[1..]) by {
        assert forall i | 0 <= i < |xs| - 1 :: xs[1..][i] == xs[i + 1];
      }
      ListOfClean(xs[1..]);
    }
  }

  /** Distinct names give renamings with distinct keys. */
  lemma RenamesDistinct(names: seq<string>, id: nat)
    requires forall i, j | 0 <= i < j < |names| :: names[i] != names[j]
    ensures DistinctKeys(Renames(names, id))
  {
    var r := Renames(names, id);
    assert forall i | 0 <= i < |r| :: r[i].0 == names[i];
    PairwiseDistinct(r);
  }

  /** No new name is an old one. */
  lemma RenamesApart(names: seq<string>, id: nat)
    requires forall i, j | 0 <= i < |names| && 0 <= j < |names| :: names[i] != ParamName(j, NatToString(id))
    ensures var r := Renames(names, id);
      forall i, j | 0 <= i < |r| && 0 <= j < |r| :: !Occurs(Var(r[j].0), r[i].1)
  {
    var r := Renames(names, id);
    forall i, j | 0 <= i < |r| && 0 <= j < |r| ensures !Occurs(Var(r[j].0), r[i].1) {
      assert r[i].1 == Var(ParamName(i, NatToString(id))) && r[j].0 == names[j];
      VarEq(r[i].1, r[j].0);
    }
  }

  /** The renaming of a closure's parameters: names that are distinct,
      none of them spelled like a renamed parameter, are renamed all at
      once, each to the name of its position. */
  lemma LambdaRenaming(body: Node, names: seq<string>, id: nat)
    requires NoProcedure(body)
    requires forall i, j | 0 <= i < j < |names| :: names[i] != names[j]
    requires forall i, j | 0 <= i < |names| && 0 <= j < |names| :: names[i] != ParamName(j, NatToString(id))
    ensures LambdaBody(body, names, id) == Subst(NPair(NForm(Begin), body), ToMap(Renames(names, id)))
    ensures forall i | 0 <= i < |names| ::
      names[i] in ToMap(Renames(names, id)) && ToMap(Renames(names, id))[names[i]] == Var(ParamName(i, NatToString(id)))
  {
    var r := Renames(names, id);
    RenamesDistinct(names, id);
    RenamesApart(names, id);
    InOrderIsSubst(NPair(NForm(Begin), body), r);
    forall i | 0 <= i < |names| ensures names[i] in ToMap(r) && ToMap(r)[names[i]] == Var(ParamName(i, NatToString(id))) {
      ToMapAt(r, i);
    }
  }
}
