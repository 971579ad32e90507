/** The preprocessor (src/preprocess.rs): macro expansion and the
    desugaring of `define`, `cond`, `and`, `or` and `let`, done bottom-up
    before a program is evaluated or compiled.  Trees are values: copying
    is the identity and an update in place is a new tree. */
module Preprocess {
  import opened Wrappers
  import opened Symbols
  import opened Errors
  import opened Nodes
  import opened Util

  /** A macro: its parameter pattern and its template, `(begin ...)`. */
  datatype Macro = Macro(pattern: Pattern, template: Node)

  /** The tree holds no procedure; procedures only arise during
      evaluation, and the preprocessor treats one as unreachable. */
  predicate NoProcedure(n: Node) {
    match n
    case NProcedure(_, _, _) => false
    case NPair(a, d) => NoProcedure(a) && NoProcedure(d)
    case _ => true
  }

  function Var(x: string): Node { NSymbol(User(x)) }

  /** `deep_copy`: a tree equal to the original. */
  function DeepCopy(n: Node): (r: Node)
    requires NoProcedure(n)
    ensures r == n
  {
    match n
    case NPair(a, d) => NPair(DeepCopy(a), DeepCopy(d))
    case _ => n
  }

  // ---------------------------------------------------------------------
  // Replacing subtrees

  /** Some subtree of `n` equals `src`. */
  predicate Occurs(src: Node, n: Node) {
    NodeEq(n, src) || (n.NPair? && (Occurs(src, n.car) || Occurs(src, n.cdr)))
  }

  /** `replace`: every outermost subtree equal to `src` becomes `dst`; the
      rest of the tree is kept. */
  function Replace(n: Node, src: Node, dst: Node): (r: Node)
    requires NoProcedure(n)
    ensures NoProcedure(dst) ==> NoProcedure(r)
  {
    if NodeEq(n, src) then dst
    else match n
      case NPair(a, d) => NPair(Replace(a, src, dst), Replace(d, src, dst))
      case _ => n
  }

  /** A tree in which `src` does not occur is left as it is. */
  lemma {:induction false} ReplaceAbsent(n: Node, src: Node, dst: Node)
    requires NoProcedure(n) && !Occurs(src, n)
    ensures Replace(n, src, dst) == n
  {
    match n
    case NPair(a, d) => ReplaceAbsent(a, src, dst); ReplaceAbsent(d, src, dst);
    case _ =>
  }

  /** When `dst` does not contain `src`, no occurrence of `src` is left. */
  lemma {:induction false} ReplaceRemoves(n: Node, src: Node, dst: Node)
    requires NoProcedure(n) && !src.NPair? && !Occurs(src, dst)
    ensures !Occurs(src, Replace(n, src, dst))
  {
    if !NodeEq(n, src) {
      match n
      case NPair(a, d) => ReplaceRemoves(a, src, dst); ReplaceRemoves(d, src, dst);
      case _ =>
    }
  }

  /** A variable equals exactly itself. */
  lemma VarEq(n: Node, x: string)
    ensures NodeEq(n, Var(x)) <==> n == Var(x)
  {
  }

  // ---------------------------------------------------------------------
  // Substituting macro arguments

  /** The substitution applied in the order `r` lists the bindings: the
      expansion loop of src/preprocess.rs:98-101, one `replace` per binding. */
  function InOrder(n: Node, r: seq<(string, Node)>): (t: Node)
    requires NoProcedure(n) && CleanValues(r)
    ensures NoProcedure(t)
    decreases |r|
  {
    if r == [] then n else Replace(InOrder(n, r[..|r| - 1]), Var(r[|r| - 1].0), r[|r| - 1].1)
  }

  /** The bindings an association list holds. */
  function ToMap(r: seq<(string, Node)>): (m: map<string, Node>)
    ensures m.Keys == KeysOf(r)
    decreases |r|
  {
    if r == [] then map[] else ToMap(r[..|r| - 1])[r[|r| - 1].0 := r[|r| - 1].1]
  }

  /** Every binding of `ToMap(r)` comes from an entry of `r`. */
  lemma {:induction false} ToMapEntry(r: seq<(string, Node)>, k: string) returns (i: nat)
    requires k in ToMap(r)
    ensures i < |r| && r[i] == (k, ToMap(r)[k])
    decreases |r|
  {
    if r[|r| - 1].0 == k {
      i := |r| - 1;
    } else {
      i := ToMapEntry(r[..|r| - 1], k);
    }
  }

  /** A list of distinct entries of `m` covering all its keys holds `m`. */
  lemma ToMapOfListing(r: seq<(string, Node)>, m: map<string, Node>)
    requires forall i | 0 <= i < |r| :: r[i].0 in m && m[r[i].0] == r[i].1
    requires KeysOf(r) == m.Keys
    ensures ToMap(r) == m
  {
    forall k | k in m ensures ToMap(r)[k] == m[k] {
      var i := ToMapEntry(r, k);
    }
  }

  /** The simultaneous substitution of the bound variables. */
  function Subst(n: Node, b: map<string, Node>): Node {
    match n
    case NSymbol(User(x)) => if x in b then b[x] else n
    case NPair(a, d) => NPair(Subst(a, b), Subst(d, b))
    case _ => n
  }

  /** A tree whose variables are all unbound is left as it is. */
  lemma {:induction false} SubstUnbound(n: Node, b: map<string, Node>)
    requires forall k | k in b :: !Occurs(Var(k), n)
    ensures Subst(n, b) == n
  {
    match n
    case NPair(a, d) => SubstUnbound(a, b); SubstUnbound(d, b);
    case _ =>
  }

  /** Replacing a variable after substituting variables that are different
      from it and whose values do not mention it is substituting it too. */
  lemma {:induction false} ReplaceAfterSubst(n: Node, b: map<string, Node>, x: string, v: Node)
    requires NoProcedure(n) && x !in b
    requires forall k | k in b :: NoProcedure(b[k]) && !Occurs(Var(x), b[k])
    ensures NoProcedure(Subst(n, b)) && Replace(Subst(n, b), Var(x), v) == Subst(n, b[x := v])
  {
    if n.NPair? {
      ReplaceAfterSubst(n.car, b, x, v);
      ReplaceAfterSubst(n.cdr, b, x, v);
    } else if n.NSymbol? && n.sym.User? && n.sym.name in b {
      ReplaceAbsent(b[n.sym.name], Var(x), v);
    }
  }

  /** When no bound value mentions a bound variable, substituting one
      binding at a time, in any order, is the simultaneous substitution. */
  lemma {:induction false} InOrderIsSubst(n: Node, r: seq<(string, Node)>)
    requires NoProcedure(n) && DistinctKeys(r) && CleanValues(r)
    requires forall i, j | 0 <= i < |r| && 0 <= j < |r| :: !Occurs(Var(r[j].0), r[i].1)
    ensures InOrder(n, r) == Subst(n, ToMap(r))
    decreases |r|
  {
    if r != [] {
      var p := r[..|r| - 1];
      var x, v := r[|r| - 1].0, r[|r| - 1].1;
      assert forall i | 0 <= i < |p| :: p[i] == r[i];
      InOrderIsSubst(n, p);
      var b := ToMap(p);
      forall k | k in b ensures NoProcedure(b[k]) && !Occurs(Var(x), b[k]) {
        var i := ToMapEntry(p, k);
        assert b[k] == r[i].1 && x == r[|r| - 1].0;
      }
      assert x !in b;
      ReplaceAfterSubst(n, b, x, v);
      assert InOrder(n, r) == Replace(InOrder(n, p), Var(x), v);
      assert ToMap(r) == b[x := v];
    } else {
      SubstUnbound(n, map[]);
    }
  }

  /** The bound values hold no procedure. */
  predicate CleanValues(r: seq<(string, Node)>) {
    forall i | 0 <= i < |r| :: NoProcedure(r[i].1)
  }

  /** The loop of src/preprocess.rs:98-101 over an association list. */
  method ReplaceAll(template: Node, order: seq<(string, Node)>) returns (body: Node)
    requires NoProcedure(template) && CleanValues(order)
    ensures body == InOrder(template, order)
  {
    body := template;
    var i := 0;
    while i < |order|
      invariant i <= |order| && body == InOrder(template, order[..i])
    {
      ghost var p := order[..i + 1];
      assert p[..|p| - 1] == order[..i] && p[|p| - 1] == order[i];
      body := Replace(body, Var(order[i].0), order[i].1);
      i := i + 1;
    }
    assert order[..|order|] == order;
  }

  /** The expansion loop as written: the bindings in the map's iteration
      order, which the language leaves unspecified. */
  method SubstituteInOrder(template: Node, bindings: map<string, Node>) returns (body: Node, order: seq<(string, Node)>)
    requires NoProcedure(template) && forall k | k in bindings :: NoProcedure(bindings[k])
    ensures DistinctKeys(order) && ToMap(order) == bindings && CleanValues(order)
    ensures body == InOrder(template, order)
  {
    order := MapToAssocList(bindings);
    ToMapOfListing(order, bindings);
    body := ReplaceAll(template, order);
  }

  /** Replacing one variable is substituting it. */
  lemma ReplaceVar(n: Node, x: string, v: Node)
    requires NoProcedure(n)
    ensures Replace(n, Var(x), v) == Subst(n, map[x := v])
  {
    SubstUnbound(n, map[]);
    ReplaceAfterSubst(n, map[], x, v);
  }

  /** `(begin (cons x y))`. */
  function ConsBody(x: Node, y: Node): (r: Node)
    ensures NoProcedure(x) && NoProcedure(y) ==> NoProcedure(r)
  {
    var r := NPair(NForm(Begin), NPair(NPair(NSymbol(Cons), NPair(x, NPair(y, NIL))), NIL));
    assert NoProcedure(NPair(y, NIL)) == NoProcedure(y);
    assert NoProcedure(NPair(x, NPair(y, NIL))) == (NoProcedure(x) && NoProcedure(y));
    assert NoProcedure(r.cdr.car) == (NoProcedure(x) && NoProcedure(y));
    assert NoProcedure(r.cdr) == NoProcedure(r.cdr.car);
    r
  }

  lemma SubstConsBody(x: Node, y: Node, b: map<string, Node>)
    ensures Subst(ConsBody(x, y), b) == ConsBody(Subst(x, b), Subst(y, b))
  {
    assert Subst(NPair(y, NIL), b) == NPair(Subst(y, b), NIL);
    assert Subst(NPair(x, NPair(y, NIL)), b) == NPair(Subst(x, b), NPair(Subst(y, b), NIL));
    var c := NPair(NSymbol(Cons), NPair(x, NPair(y, NIL)));
    assert Subst(c, b) == NPair(NSymbol(Cons), NPair(Subst(x, b), NPair(Subst(y, b), NIL)));
    assert Subst(NPair(c, NIL), b) == NPair(Subst(c, b), NIL);
  }

  /** Both orders of two bindings list the same bindings. */
  lemma SwappedListing(x: string, u: Node, y: string, v: Node)
    requires x != y
    ensures var r1 := [(x, u), (y, v)]; var r2 := [(y, v), (x, u)];
      ToMap(r1) == ToMap(r2) && DistinctKeys(r1) && DistinctKeys(r2)
  {
    var r1 := [(x, u), (y, v)];
    var r2 := [(y, v), (x, u)];
    assert r1[..1] == [(x, u)] && r1[..1][..0] == [];
    assert r2[..1] == [(y, v)] && r2[..1][..0] == [];
  }

  /** Two bindings substituted one after the other. */
  lemma TwoSteps(t: Node, x: string, u: Node, y: string, v: Node)
    requires NoProcedure(t) && NoProcedure(u) && NoProcedure(v)
    ensures InOrder(t, [(x, u), (y, v)]) == Subst(Subst(t, map[x := u]), map[y := v])
  {
    var r := [(x, u), (y, v)];
    assert r[..1] == [(x, u)] && r[..1][..0] == [];
    assert InOrder(t, r[..1]) == Replace(InOrder(t, []), Var(x), u);
    assert InOrder(t, r) == Replace(InOrder(t, r[..1]), Var(y), v);
    ReplaceVar(t, x, u);
    ReplaceVar(Replace(t, Var(x), u), y, v);
  }

  /** A template `(begin (cons x y))` with bindings x := y and y := w:
      the two orders of the same bindings expand differently. */
  lemma OrderMatters(x: string, y: string, w: Node)
    requires x != y && w.NNumber?
    ensures var r1 := [(x, Var(y)), (y, w)]; var r2 := [(y, w), (x, Var(y))];
      ToMap(r1) == ToMap(r2) && DistinctKeys(r1) && DistinctKeys(r2) &&
      InOrder(ConsBody(Var(x), Var(y)), r1) == ConsBody(w, w) &&
      InOrder(ConsBody(Var(x), Var(y)), r2) == ConsBody(Var(y), w)
  {
    SwappedListing(x, Var(y), y, w);
    TwoSteps(ConsBody(Var(x), Var(y)), x, Var(y), y, w);
    TwoSteps(ConsBody(Var(x), Var(y)), y, w, x, Var(y));
    SubstConsBody(Var(x), Var(y), map[x := Var(y)]);
    SubstConsBody(Var(y), Var(y), map[y := w]);
    SubstConsBody(Var(x), Var(y), map[y := w]);
    SubstConsBody(Var(x), w, map[x := Var(y)]);
  }

  /** `(define-syntax-rule (m a b) (cons a b))` applied to `(m b 1)`: the
      bindings are a := b and b := 1.  Substituting a first gives
      `(begin (cons 1 1))`, substituting b first gives `(begin (cons b 1))`. */
  lemma MacroOrderMatters()
    ensures var one := NNumber(Numbers.Int(1));
      var r1 := [("a", Var("b")), ("b", one)];
      var r2 := [("b", one), ("a", Var("b"))];
      ToMap(r1) == ToMap(r2) && DistinctKeys(r1) && DistinctKeys(r2) &&
      InOrder(ConsBody(Var("a"), Var("b")), r1) != InOrder(ConsBody(Var("a"), Var("b")), r2)
  {
    assert "a"[0] != "b"[0];
    OrderMatters("a", "b", NNumber(Numbers.Int(1)));
  }

  // ---------------------------------------------------------------------
  // Desugaring

  /** `(if c t e)`. */
  function IfNode(c: Node, t: Node, e: Node): Node {
    NPair(NForm(If), NPair(c, NPair(t, NPair(e, NIL))))
  }

  /** `(eq? x nil)`. */
  function IsNil(x: Node): Node {
    NPair(NSymbol(Eq), NPair(x, NPair(NIL, NIL)))
  }

  predicate IsIfNode(n: Node) {
    n.NPair? && n.car == NForm(If) && n.cdr.NPair? && n.cdr.cdr.NPair? && n.cdr.cdr.cdr.NPair? && n.cdr.cdr.cdr.cdr == NIL
  }

  /** The else branch, `k` levels down a chain of `if`s. */
  function Nested(n: Node, k: nat): Node {
    if k == 0 || !IsIfNode(n) then n else Nested(n.cdr.cdr.cdr.car, k - 1)
  }

  /** `(cond (c1 v1 ...) ...)`: each clause must be a pair. */
  function CondChain(cs: seq<Node>): (r: Result<Node, Error>)
    ensures r.Err? <==> exists i | 0 <= i < |cs| :: !cs[i].NPair?
    ensures r.Err? ==> r.error == NotAPair
    decreases |cs|
  {
    if cs == [] then Ok(NIL)
    else if !cs[0].NPair? then Err(NotAPair)
    else match CondChain(cs[1..])
      case Ok(rest) => Ok(IfNode(cs[0].car, NPair(NForm(Begin), cs[0].cdr), rest))
      case Err(e) => Err(e)
  }

  /** The `i`-th `if` of a desugared `cond` tests the `i`-th condition and
      runs `(begin v...)` of that clause; below the last one is nil. */
  lemma {:induction false} CondShape(cs: seq<Node>, i: nat)
    requires CondChain(cs).Ok? && i <= |cs|
    ensures var n := Nested(CondChain(cs).value, i);
      if i == |cs| then n == NIL
      else IsIfNode(n) && n.cdr.car == cs[i].car && n.cdr.cdr.car == NPair(NForm(Begin), cs[i].cdr)
    decreases i
  {
    if i > 0 {
      CondShape(cs[1..], i - 1);
      if i < |cs| {
        assert cs[1..][i - 1] == cs[i];
      }
    }
  }

  /** `(or x1 ... xn)`. */
  function OrChain(xs: seq<Node>): (r: Node)
    decreases |xs|
  {
    if xs == [] then NIL else IfNode(xs[0], xs[0], OrChain(xs[1..]))
  }

  /** The `i`-th `if` of a desugared `or` tests the `i`-th operand and
      returns it; below the last one is nil. */
  lemma {:induction false} OrShape(xs: seq<Node>, i: nat)
    requires i <= |xs|
    ensures var n := Nested(OrChain(xs), i);
      if i == |xs| then n == NIL else IsIfNode(n) && n.cdr.car == xs[i] && n.cdr.cdr.car == xs[i]
    decreases i
  {
    if i > 0 {
      OrShape(xs[1..], i - 1);
      if i < |xs| {
        assert xs[1..][i - 1] == xs[i];
      }
    }
  }

  /** `(and x1 ... xn)` for n > 0. */
  function AndChain(xs: seq<Node>): (r: Node)
    requires |xs| > 0
    decreases |xs|
  {
    if |xs| == 1 then IfNode(IsNil(xs[0]), xs[0], xs[0])
    else IfNode(IsNil(xs[0]), xs[0], AndChain(xs[1..]))
  }

  /** The `i`-th `if` of a desugared `and` tests whether the `i`-th operand
      is nil and then returns it; the last one returns it either way. */
  lemma {:induction false} AndShape(xs: seq<Node>, i: nat)
    requires i < |xs|
    ensures var n := Nested(AndChain(xs), i);
      IsIfNode(n) && n.cdr.car == IsNil(xs[i]) && n.cdr.cdr.car == xs[i] &&
      (i == |xs| - 1 ==> n.cdr.cdr.cdr.car == xs[i])
    decreases i
  {
    if i > 0 {
      assert xs[1..][i - 1] == xs[i];
      AndShape(xs[1..], i - 1);
    }
  }

  /** The keys and first values of `let` bindings, in order; each binding
      and each value part must be a pair. */
  function LetParts(bs: seq<Node>): (r: Result<(seq<Node>, seq<Node>), Error>)
    ensures r.Ok? <==> forall i | 0 <= i < |bs| :: bs[i].NPair? && bs[i].cdr.NPair?
    ensures r.Ok? ==> |r.value.0| == |bs| == |r.value.1|
    ensures r.Ok? ==> forall i | 0 <= i < |bs| :: r.value.0[i] == bs[i].car && r.value.1[i] == bs[i].cdr.car
    ensures r.Err? ==> r.error == NotAPair
    decreases |bs|
  {
    if bs == [] then Ok(([], []))
    else
      var b := bs[|bs| - 1];
      match LetParts(bs[..|bs| - 1])
      case Err(e) => Err(e)
      case Ok((ks, vs)) => if b.NPair? && b.cdr.NPair? then Ok((ks + [b.car], vs + [b.cdr.car])) else Err(NotAPair)
  }

  /** The desugaring loop for `cond`: builds the chain from the last
      clause backwards. */
  method DesugarCond(params: seq<Node>) returns (r: Result<Node, Error>)
    ensures r == CondChain(params)
  {
    var body := NIL;
    var k := |params|;
    while k > 0
      invariant 0 <= k <= |params| && CondChain(params[k..]) == Ok(body)
    {
      k := k - 1;
      var node := params[k];
      if !node.NPair? {
        return Err(NotAPair);
      }
      assert params[k..][1..] == params[k + 1..];
      body := IfNode(node.car, NPair(NForm(Begin), node.cdr), body);
    }
    assert params[0..] == params;
    return Ok(body);
  }

  /** The desugaring loop for a non-empty `and`. */
  method DesugarAnd(params: seq<Node>) returns (r: Node)
    requires |params| > 0
    ensures r == AndChain(params)
  {
    var value := params[|params| - 1];
    var body := IfNode(IsNil(value), value, value);
    var k := |params| - 1;
    while k > 0
      invariant 0 <= k < |params| && body == AndChain(params[k..])
    {
      k := k - 1;
      assert params[k..][1..] == params[k + 1..];
      body := IfNode(IsNil(params[k]), params[k], body);
    }
    assert params[0..] == params;
    return body;
  }

  /** The desugaring loop for `or`. */
  method DesugarOr(params: seq<Node>) returns (r: Node)
    ensures r == OrChain(params)
  {
    var body := NIL;
    var k := |params|;
    while k > 0
      invariant 0 <= k <= |params| && body == OrChain(params[k..])
    {
      k := k - 1;
      assert params[k..][1..] == params[k + 1..];
      body := IfNode(params[k], params[k], body);
    }
    assert params[0..] == params;
    return body;
  }

  /** The loop of `let` collecting keys and values. */
  method SplitBindings(bs: seq<Node>) returns (r: Result<(seq<Node>, seq<Node>), Error>)
    ensures r == LetParts(bs)
  {
    var keys := [];
    var values := [];
    var i := 0;
    while i < |bs|
      invariant i <= |bs| && LetParts(bs[..i]) == Ok((keys, values))
    {
      assert bs[..i + 1][..i] == bs[..i];
      var binding := bs[i];
      if !binding.NPair? {
        return Err(NotAPair);
      }
      keys := keys + [binding.car];
      var v := binding.cdr;
      if !v.NPair? {
        return Err(NotAPair);
      }
      values := values + [v.car];
      i := i + 1;
    }
    assert bs[..|bs|] == bs;
    return Ok((keys, values));
  }

  // ---------------------------------------------------------------------
  // The forms

  /** A macro call: the arguments must form a proper list that fits the
      pattern; the template's variables are replaced by them. */
  function MacroCall(mac: Macro, cdr: Node): Result<Node, Error> {
    var (args, end) := Spine(cdr);
    if end != NIL then Err(NotAProperList)
    else if !Fits(mac.pattern, |args|) then Err(PatternMismatch)
    else Ok(Subst(mac.template, Insert(map[], Bindings(mac.pattern, args))))
  }

  /** Where the order cannot matter, because no argument mentions a
      parameter, the expansion loop gives the macro call's result whatever
      order the map lists its bindings in. */
  lemma MacroCallAgrees(mac: Macro, cdr: Node, order: seq<(string, Node)>)
    requires NoProcedure(mac.template) && Spine(cdr).1 == NIL && Fits(mac.pattern, |Spine(cdr).0|)
    requires DistinctKeys(order) && CleanValues(order)
    requires ToMap(order) == Insert(map[], Bindings(mac.pattern, Spine(cdr).0))
    requires forall i, j | 0 <= i < |order| && 0 <= j < |order| :: !Occurs(Var(order[j].0), order[i].1)
    ensures MacroCall(mac, cdr) == Ok(InOrder(mac.template, order))
  {
    InOrderIsSubst(mac.template, order);
  }

  /** An entry of a list with distinct keys is the binding its map holds. */
  lemma {:induction false} ToMapAt(r: seq<(string, Node)>, i: nat)
    requires DistinctKeys(r) && i < |r|
    ensures r[i].0 in ToMap(r) && ToMap(r)[r[i].0] == r[i].1
    decreases |r|
  {
    if i < |r| - 1 {
      DistinctAt(r, i, |r| - 1);
      var p := r[..|r| - 1];
      assert p[i] == r[i];
      ToMapAt(p, i);
    }
  }

  /** A map with two keys is listed in one of exactly two orders. */
  lemma TwoKeyListings(r: seq<(string, Node)>, x: string, u: Node, y: string, v: Node)
    requires x != y && DistinctKeys(r) && ToMap(r) == map[x := u, y := v]
    ensures r == [(x, u), (y, v)] || r == [(y, v), (x, u)]
  {
    var m := map[x := u, y := v];
    forall i | 0 <= i < |r| ensures r[i] == (x, u) || r[i] == (y, v) {
      ToMapAt(r, i);
    }
    var i := ToMapEntry(r, x);
    var j := ToMapEntry(r, y);
    if |r| > 2 {
      assert false;
    }
    assert i != j;
    if 0 < |r| && 1 < |r| {
      DistinctAt(r, 0, 1);
    }
  }

  /** `(define-syntax-rule (m a b) (cons a b))` applied to `(m b a)`: the
      macro call swaps the arguments, giving `(begin (cons b a))`. */
  lemma MacroSwapIntended()
    ensures var mac := Macro(PPair("a", PPair("b", PNil)), ConsBody(Var("a"), Var("b")));
      Spine(ListOf([Var("b"), Var("a")])) == ([Var("b"), Var("a")], NIL) &&
      Fits(mac.pattern, 2) &&
      Insert(map[], Bindings(mac.pattern, [Var("b"), Var("a")])) == map["a" := Var("b"), "b" := Var("a")] &&
      MacroCall(mac, ListOf([Var("b"), Var("a")])) == Ok(ConsBody(Var("b"), Var("a")))
  {
    var args := [Var("b"), Var("a")];
    assert args[1..] == [Var("a")] && args[1..][1..] == [];
    assert ListOf(args) == NPair(Var("b"), NPair(Var("a"), NIL));
    assert Spine(NIL) == ([], NIL);
    assert [Var("a")] + [] == [Var("a")] && [Var("b")] + [Var("a")] == args;
    assert Spine(NPair(Var("a"), NIL)) == ([Var("a")], NIL);
    assert Spine(ListOf(args)) == (args, NIL);
    var p := PPair("a", PPair("b", PNil));
    var b := [("a", Var("b")), ("b", Var("a"))];
    assert Bindings(p, args) == b;
    assert b[1..] == [("b", Var("a"))] && b[1..][1..] == [];
    assert Insert(map[], b) == Insert(map["a" := Var("b")], b[1..]);
    assert Insert(map["a" := Var("b")], b[1..]) == Insert(map["a" := Var("b"), "b" := Var("a")], []);
    SubstConsBody(Var("a"), Var("b"), map["a" := Var("b"), "b" := Var("a")]);
  }

  /** The same call through the expansion loop as written: whichever order
      the map lists the two bindings in, the second replacement also
      rewrites the first one's result, so the expansion is
      `(begin (cons a a))` or `(begin (cons b b))` and never the swap. */
  lemma MacroSwapAsWritten(order: seq<(string, Node)>)
    requires DistinctKeys(order) && ToMap(order) == map["a" := Var("b"), "b" := Var("a")]
    ensures CleanValues(order)
    ensures var t := ConsBody(Var("a"), Var("b"));
      InOrder(t, order) == ConsBody(Var("a"), Var("a")) || InOrder(t, order) == ConsBody(Var("b"), Var("b"))
    ensures InOrder(ConsBody(Var("a"), Var("b")), order) != ConsBody(Var("b"), Var("a"))
  {
    assert "a"[0] != "b"[0];
    TwoKeyListings(order, "a", Var("b"), "b", Var("a"));
    var t := ConsBody(Var("a"), Var("b"));
    if order == [("a", Var("b")), ("b", Var("a"))] {
      TwoSteps(t, "a", Var("b"), "b", Var("a"));
      SubstConsBody(Var("a"), Var("b"), map["a" := Var("b")]);
      SubstConsBody(Var("b"), Var("b"), map["b" := Var("a")]);
    } else {
      TwoSteps(t, "b", Var("a"), "a", Var("b"));
      SubstConsBody(Var("a"), Var("b"), map["b" := Var("a")]);
      SubstConsBody(Var("a"), Var("a"), map["a" := Var("b")]);
    }
  }

  /** `(define-syntax-rule (name . pattern) body...)`: stores the macro. */
  function DefineMacro(cdr: Node, m: map<string, Macro>): (Result<Node, Error>, map<string, Macro>) {
    if !cdr.NPair? || !cdr.car.NPair? then (Err(NotAPair), m)
    else
      var head := cdr.car;
      if !(head.car.NSymbol? && head.car.sym.User?) then (Err(NotAUserSymbol), m)
      else match NodeToPattern(head.cdr)
        case Err(e) => (Err(e), m)
        case Ok(p) => (Ok(NIL), m[head.car.sym.name := Macro(p, NPair(NForm(Begin), cdr.cdr))])
  }

  /** `(define (f . ps) body...)` becomes `(define f (lambda ps body...))`. */
  function DefineSugar(car: Node, cdr: Node): Result<Node, Error> {
    if !cdr.NPair? then Err(NotAPair)
    else if cdr.car.NPair? then
      Ok(NPair(car, NPair(cdr.car.car, NPair(NPair(NForm(Lambda), NPair(cdr.car.cdr, cdr.cdr)), NIL))))
    else Ok(NPair(car, cdr))
  }

  /** `(let ((x e) ...) body...)` becomes `((lambda (x ...) body...) e ...)`. */
  function LetForm(cdr: Node): Result<Node, Error> {
    if !cdr.NPair? then Err(NotAPair)
    else
      var (bs, end) := Spine(cdr.car);
      if end != NIL then Err(NotAProperList)
      else match LetParts(bs)
        case Err(e) => Err(e)
        case Ok((ks, vs)) => Ok(NPair(NPair(NForm(Lambda), NPair(ListOf(ks), cdr.cdr)), ListOf(vs)))
  }

  /** The items of a proper list, or the error `vectorize` reports. */
  function Items(cdr: Node): Result<seq<Node>, Error> {
    if Spine(cdr).1 == NIL then Ok(Spine(cdr).0) else Err(NotAProperList)
  }

  /** A pair once its car and cdr are preprocessed, chosen by its car. */
  function Dispatch(car: Node, cdr: Node, m: map<string, Macro>): (r: (Result<Node, Error>, map<string, Macro>)) {
    if car.NSymbol? && car.sym.User? && car.sym.name in m then (MacroCall(m[car.sym.name], cdr), m)
    else if !car.NForm? then (Ok(NPair(car, cdr)), m)
    else match car.form
      case DefineSyntaxRule => DefineMacro(cdr, m)
      case Define => (DefineSugar(car, cdr), m)
      case Cond => (match Items(cdr) case Ok(cs) => CondChain(cs) case Err(e) => Err(e), m)
      case And => (match Items(cdr) case Ok(xs) => Ok(if xs == [] then NSymbol(T) else AndChain(xs)) case Err(e) => Err(e), m)
      case Or => (match Items(cdr) case Ok(xs) => Ok(OrChain(xs)) case Err(e) => Err(e), m)
      case Let => (LetForm(cdr), m)
      case _ => (Ok(NPair(car, cdr)), m)
  }

  /** `preprocess`: the car first, then the cdr (each may define macros
      the next part sees), then the pair itself. */
  function Expand(n: Node, m: map<string, Macro>): (r: (Result<Node, Error>, map<string, Macro>))
    requires NoProcedure(n)
  {
    match n
    case NPair(a, d) =>
      var (ca, m1) := Expand(a, m);
      if ca.Err? then (ca, m1)
      else
        var (cd, m2) := Expand(d, m1);
        if cd.Err? then (cd, m2) else Dispatch(ca.value, cd.value, m2)
    case _ => (Ok(DeepCopy(n)), m)
  }

  /** `vectorize` on a preprocessed cdr. */
  method ItemsOf(cdr: Node) returns (r: Result<seq<Node>, Error>)
    ensures r == Items(cdr)
  {
    r := Vectorize(cdr);
  }

  /** A macro call, with `pattern_matching` filling the bindings. */
  method ExpandMacro(mac: Macro, cdr: Node) returns (r: Result<Node, Error>)
    ensures r == MacroCall(mac, cdr)
  {
    var params :- ItemsOf(cdr);
    var bindings :- PatternMatching(mac.pattern, params, map[]);
    r := Ok(Subst(mac.template, bindings));
  }

  /** The pair case of `preprocess` once both halves are preprocessed. */
  method PreprocessPair(car: Node, cdr: Node, macros: map<string, Macro>) returns (r: Result<Node, Error>, m: map<string, Macro>)
    ensures (r, m) == Dispatch(car, cdr, macros)
  {
    m := macros;
    if car.NSymbol? && car.sym.User? && car.sym.name in macros {
      r := ExpandMacro(macros[car.sym.name], cdr);
      return;
    }
    if !car.NForm? {
      return Ok(NPair(car, cdr)), m;
    }
    match car.form
    case DefineSyntaxRule => r, m := DefineMacro(cdr, macros).0, DefineMacro(cdr, macros).1;
    case Define => r := DefineSugar(car, cdr);
    case Cond =>
      var params := ItemsOf(cdr);
      if params.Err? {
        return Err(params.error), m;
      }
      r := DesugarCond(params.value);
    case And =>
      var params := ItemsOf(cdr);
      if params.Err? {
        return Err(params.error), m;
      }
      if params.value == [] {
        return Ok(NSymbol(T)), m;
      }
      var body := DesugarAnd(params.value);
      r := Ok(body);
    case Or =>
      var params := ItemsOf(cdr);
      if params.Err? {
        return Err(params.error), m;
      }
      var body := DesugarOr(params.value);
      r := Ok(body);
    case Let =>
      if !cdr.NPair? {
        return Err(NotAPair), m;
      }
      var bs := ItemsOf(cdr.car);
      if bs.Err? {
        return Err(bs.error), m;
      }
      var parts := SplitBindings(bs.value);
      if parts.Err? {
        return Err(parts.error), m;
      }
      var keys := FromIter(parts.value.0);
      var values := FromIter(parts.value.1);
      r := Ok(NPair(NPair(NForm(Lambda), NPair(keys, cdr.cdr)), values));
    case _ => r := Ok(NPair(car, cdr));
  }

  /** `preprocess`. */
  method Preprocess(n: Node, macros: map<string, Macro>) returns (r: Result<Node, Error>, m: map<string, Macro>)
    requires NoProcedure(n)
    ensures (r, m) == Expand(n, macros)
    decreases n
  {
    if !n.NPair? {
      return Ok(DeepCopy(n)), macros;
    }
    var car, m1 := Preprocess(n.car, macros);
    if car.Err? {
      return car, m1;
    }
    var cdr, m2 := Preprocess(n.cdr, m1);
    if cdr.Err? {
      return cdr, m2;
    }
    r, m := PreprocessPair(car.value, cdr.value, m2);
  }

  // ---------------------------------------------------------------------
  // What preprocessing leaves

  /** A form the preprocessor rewrites away. */
  predicate Derived(f: SpecialForm) {
    f.Cond? || f.And? || f.Or? || f.Let? || f.DefineSyntaxRule?
  }

  /** No derived form occurs. */
  predicate NoDerived(n: Node) {
    match n
    case NForm(f) => !Derived(f)
    case NPair(a, d) => NoDerived(a) && NoDerived(d)
    case _ => true
  }

  predicate AllNoDerived(xs: seq<Node>) {
    forall i | 0 <= i < |xs| :: NoDerived(xs[i])
  }

  /** Every stored macro expands to a template free of derived forms. */
  predicate CleanMacros(m: map<string, Macro>) {
    forall k | k in m :: NoDerived(m[k].template)
  }

  lemma {:induction false} HeadFormsNoProcedure(n: Node)
    requires HeadForms(n)
    ensures NoProcedure(n)
  {
    if n.NPair? {
      if !n.car.NForm? {
        HeadFormsNoProcedure(n.car);
      }
      HeadFormsNoProcedure(n.cdr);
    }
  }

  lemma {:induction false} SpineNoDerived(l: Node)
    requires NoDerived(l)
    ensures AllNoDerived(Spine(l).0) && NoDerived(Spine(l).1)
  {
    if l.NPair? {
      SpineNoDerived(l.cdr);
      assert Spine(l).0 == [l.car] + Spine(l.cdr).0;
    }
  }

  lemma {:induction false} ListOfNoDerived(xs: seq<Node>)
    requires AllNoDerived(xs)
    ensures NoDerived(ListOf(xs))
    decreases |xs|
  {
    if xs != [] {
      assert AllNoDerived(xs[1..]) by {
        forall i | 0 <= i < |xs| - 1 ensures NoDerived(xs[1..][i]) {
          assert xs[1..][i] == xs[i + 1];
        }
      }
      ListOfNoDerived(xs[1..]);
    }
  }

  lemma {:induction false} SubstNoDerived(t: Node, b: map<string, Node>)
    requires NoDerived(t) && forall k | k in b :: NoDerived(b[k])
    ensures NoDerived(Subst(t, b))
  {
    if t.NPair? {
      SubstNoDerived(t.car, b);
      SubstNoDerived(t.cdr, b);
    }
  }

  lemma {:induction false} BindingsNoDerived(p: Pattern, args: seq<Node>, i: nat)
    requires Fits(p, |args|) && AllNoDerived(args) && i < |Bindings(p, args)|
    ensures NoDerived(Bindings(p, args)[i].1)
    decreases p
  {
    match p
    case PSymbol(_) => ListOfNoDerived(args);
    case PPair(_, rest) =>
      if i > 0 {
        assert AllNoDerived(args[1..]) by {
          forall j | 0 <= j < |args| - 1 ensures NoDerived(args[1..][j]) {
            assert args[1..][j] == args[j + 1];
          }
        }
        BindingsNoDerived(rest, args[1..], i - 1);
      }
    case PNil =>
  }

  lemma {:induction false} InsertNoDerived(m: map<string, Node>, b: seq<(string, Node)>)
    requires forall k | k in m :: NoDerived(m[k])
    requires forall i | 0 <= i < |b| :: NoDerived(b[i].1)
    ensures forall k | k in Insert(m, b) :: NoDerived(Insert(m, b)[k])
    decreases |b|
  {
    if b != [] {
      assert forall i | 0 <= i < |b| - 1 :: b[1..][i] == b[i + 1];
      InsertNoDerived(m[b[0].0 := b[0].1], b[1..]);
    }
  }

  lemma IfNodeNoDerived(c: Node, t: Node, e: Node)
    requires NoDerived(c) && NoDerived(t) && NoDerived(e)
    ensures NoDerived(IfNode(c, t, e)) && NoDerived(IsNil(c))
  {
    assert NoDerived(NPair(e, NIL));
    assert NoDerived(NPair(t, NPair(e, NIL)));
    assert NoDerived(NPair(c, NPair(t, NPair(e, NIL))));
    assert NoDerived(NPair(NIL, NIL));
  }

  lemma DefineSugarNoDerived(car: Node, cdr: Node)
    requires car.NForm? && car.form.Define? && NoDerived(cdr) && DefineSugar(car, cdr).Ok?
    ensures NoDerived(DefineSugar(car, cdr).value)
  {
    if cdr.car.NPair? {
      var lam := NPair(NForm(Lambda), NPair(cdr.car.cdr, cdr.cdr));
      assert NoDerived(cdr.car) && NoDerived(lam);
      assert NoDerived(NPair(lam, NIL));
    }
  }

  lemma {:induction false} CondChainNoDerived(cs: seq<Node>)
    requires AllNoDerived(cs) && CondChain(cs).Ok?
    ensures NoDerived(CondChain(cs).value)
    decreases |cs|
  {
    if cs != [] {
      assert AllNoDerived(cs[1..]) by {
        forall i | 0 <= i < |cs| - 1 ensures NoDerived(cs[1..][i]) {
          assert cs[1..][i] == cs[i + 1];
        }
      }
      CondChainNoDerived(cs[1..]);
      assert NoDerived(cs[0]);
      IfNodeNoDerived(cs[0].car, NPair(NForm(Begin), cs[0].cdr), CondChain(cs[1..]).value);
    }
  }

  lemma {:induction false} AndChainNoDerived(xs: seq<Node>)
    requires AllNoDerived(xs) && |xs| > 0
    ensures NoDerived(AndChain(xs))
    decreases |xs|
  {
    if |xs| > 1 {
      assert AllNoDerived(xs[1..]) by {
        forall i | 0 <= i < |xs| - 1 ensures NoDerived(xs[1..][i]) {
          assert xs[1..][i] == xs[i + 1];
        }
      }
      AndChainNoDerived(xs[1..]);
      IfNodeNoDerived(IsNil(xs[0]), xs[0], AndChain(xs[1..]));
    }
    assert NoDerived(xs[0]);
    IfNodeNoDerived(xs[0], xs[0], xs[0]);
    IfNodeNoDerived(IsNil(xs[0]), xs[0], xs[0]);
  }

  lemma {:induction false} OrChainNoDerived(xs: seq<Node>)
    requires AllNoDerived(xs)
    ensures NoDerived(OrChain(xs))
    decreases |xs|
  {
    if xs != [] {
      assert AllNoDerived(xs[1..]) by {
        forall i | 0 <= i < |xs| - 1 ensures NoDerived(xs[1..][i]) {
          assert xs[1..][i] == xs[i + 1];
        }
      }
      OrChainNoDerived(xs[1..]);
      assert NoDerived(xs[0]);
      IfNodeNoDerived(xs[0], xs[0], OrChain(xs[1..]));
    }
  }

  lemma LetNoDerived(cdr: Node)
    requires NoDerived(cdr) && LetForm(cdr).Ok?
    ensures NoDerived(LetForm(cdr).value)
  {
    SpineNoDerived(cdr.car);
    var bs := Spine(cdr.car).0;
    var (ks, vs) := LetParts(bs).value;
    assert AllNoDerived(ks) && AllNoDerived(vs) by {
      forall i | 0 <= i < |bs| ensures NoDerived(ks[i]) && NoDerived(vs[i]) {
        assert NoDerived(bs[i]) && NoDerived(bs[i].cdr);
      }
    }
    ListOfNoDerived(ks);
    ListOfNoDerived(vs);
  }

  lemma MacroNoDerived(mac: Macro, cdr: Node)
    requires NoDerived(mac.template) && NoDerived(cdr) && MacroCall(mac, cdr).Ok?
    ensures NoDerived(MacroCall(mac, cdr).value)
  {
    SpineNoDerived(cdr);
    var args := Spine(cdr).0;
    var b := Bindings(mac.pattern, args);
    forall i | 0 <= i < |b| ensures NoDerived(b[i].1) {
      BindingsNoDerived(mac.pattern, args, i);
    }
    InsertNoDerived(map[], b);
    SubstNoDerived(mac.template, Insert(map[], b));
  }

  /** A pair whose halves are free of derived forms (the head may be any
      form) is rewritten to a tree free of them, and every macro it
      defines has such a template. */
  lemma DispatchNoDerived(car: Node, cdr: Node, m: map<string, Macro>)
    requires (car.NForm? || NoDerived(car)) && NoDerived(cdr) && CleanMacros(m)
    ensures CleanMacros(Dispatch(car, cdr, m).1)
    ensures Dispatch(car, cdr, m).0.Ok? ==> NoDerived(Dispatch(car, cdr, m).0.value)
  {
    if car.NSymbol? && car.sym.User? && car.sym.name in m {
      if MacroCall(m[car.sym.name], cdr).Ok? {
        MacroNoDerived(m[car.sym.name], cdr);
      }
    } else if car.NForm? {
      SpineNoDerived(cdr);
      match car.form
      case Cond =>
        if CondChain(Spine(cdr).0).Ok? {
          CondChainNoDerived(Spine(cdr).0);
        }
      case And =>
        if Spine(cdr).0 != [] {
          AndChainNoDerived(Spine(cdr).0);
        }
      case Or => OrChainNoDerived(Spine(cdr).0);
      case Let =>
        if LetForm(cdr).Ok? {
          LetNoDerived(cdr);
        }
      case Define =>
        if DefineSugar(car, cdr).Ok? {
          DefineSugarNoDerived(car, cdr);
        }
      case _ =>
    }
  }

  /** Preprocessing a parsed tree leaves no `cond`, `and`, `or`, `let` or
      `define-syntax-rule` in it, provided the macros it starts with have
      none in their templates; the macros it ends with have none either. */
  lemma {:induction false} ExpandNoDerived(n: Node, m: map<string, Macro>)
    requires HeadForms(n) && CleanMacros(m)
    ensures NoProcedure(n)
    ensures CleanMacros(Expand(n, m).1)
    ensures Expand(n, m).0.Ok? ==> NoDerived(Expand(n, m).0.value)
  {
    HeadFormsNoProcedure(n);
    if n.NPair? {
      var (ca, m1) := Expand(n.car, m);
      if n.car.NForm? {
        assert ca == Ok(n.car) && m1 == m;
      } else {
        ExpandNoDerived(n.car, m);
      }
      if ca.Ok? {
        ExpandNoDerived(n.cdr, m1);
        var (cd, m2) := Expand(n.cdr, m1);
        if cd.Ok? {
          DispatchNoDerived(ca.value, cd.value, m2);
        }
      }
    }
  }
}
