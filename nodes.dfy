/** The compile-time tree of the interpreter and the compiler (src/node.rs):
    nodes, lambda parameter patterns, and matching arguments against a
    pattern.  Nodes are values here: the source shares subtrees through
    reference-counted cells, which this model does not distinguish from
    copies. */
module Nodes {
  import opened Wrappers
  import opened Numbers
  import opened Symbols
  import opened Errors

  /** A parameter pattern: an improper list of names. */
  datatype Pattern =
    | PSymbol(name: string)              // the rest of the arguments
    | PPair(head: string, rest: Pattern)  // one named argument, then more
    | PNil                               // no more arguments

  datatype Node =
    | NSymbol(sym: Symbol)
    | NNumber(num: Number)
    | NPair(car: Node, cdr: Node)
    | NForm(form: SpecialForm)
    | NProcedure(pattern: Pattern, body: Node, env: nat)  // `env` names a frame of the interpreter

  const NIL: Node := NSymbol(Nil)

  /** The nil-terminated list of the given items. */
  function ListOf(xs: seq<Node>): Node
    decreases |xs|
  {
    if xs == [] then NIL else NPair(xs[0], ListOf(xs[1..]))
  }

  /** Special forms stand only at the head of a list and no procedure
      occurs: the trees the parser builds. */
  predicate HeadForms(n: Node) {
    match n
    case NForm(_) => false
    case NProcedure(_, _, _) => false
    case NPair(a, d) => (a.NForm? || HeadForms(a)) && HeadForms(d)
    case _ => true
  }

  /** `Node::from_iter`: builds the list from its last item backwards. */
  method FromIter(items: seq<Node>) returns (r: Node)
    ensures r == ListOf(items)
  {
    r := NIL;
    var k := |items|;
    while k > 0
      invariant 0 <= k <= |items|
      invariant r == ListOf(items[k..])
    {
      k := k - 1;
      assert items[k..][1..] == items[k + 1..];
      r := NPair(items[k], r);
    }
  }

  /** Structural equality as the source derives it, except that numbers
      compare by value (so `2` equals `2.0`) and a procedure's environment
      compares by identity. */
  predicate NodeEq(a: Node, b: Node) {
    match (a, b)
    case (NSymbol(x), NSymbol(y)) => x == y
    case (NNumber(x), NNumber(y)) => Numbers.Eq(x, y)
    case (NPair(a1, d1), NPair(a2, d2)) => NodeEq(a1, a2) && NodeEq(d1, d2)
    case (NForm(x), NForm(y)) => x == y
    case (NProcedure(p1, b1, e1), NProcedure(p2, b2, e2)) => p1 == p2 && NodeEq(b1, b2) && e1 == e2
    case _ => false
  }

  /** Nodes without NaN equal themselves. */
  ghost predicate NoNaN(n: Node) {
    match n
    case NNumber(x) => !(x.Float? && x.f.NaN?)
    case NPair(a, d) => NoNaN(a) && NoNaN(d)
    case NProcedure(_, b, _) => NoNaN(b)
    case _ => true
  }

  lemma {:induction false} NodeEqRefl(n: Node)
    requires NoNaN(n)
    ensures NodeEq(n, n)
  {
    match n
    case NNumber(x) =>
    case NPair(a, d) => NodeEqRefl(a); NodeEqRefl(d);
    case NProcedure(_, b, _) => NodeEqRefl(b);
    case _ =>
  }

  /** `as_int`. */
  function AsInt(n: Node): (r: Result<i64, Error>)
    ensures r.Ok? <==> n.NNumber? && n.num.Int?
    ensures r.Ok? ==> r.value == n.num.i
    ensures r.Err? ==> r.error == NotANumber
  {
    if n.NNumber? && n.num.Int? then Ok(n.num.i) else Err(NotANumber)
  }

  /** `as_num`. */
  function AsNum(n: Node): (r: Result<Number, Error>)
    ensures r.Ok? <==> n.NNumber?
    ensures r.Ok? ==> r.value == n.num
    ensures r.Err? ==> r.error == NotANumber
  {
    if n.NNumber? then Ok(n.num) else Err(NotANumber)
  }

  /** `as_user_symbol`. */
  function AsUserSymbol(n: Node): (r: Result<string, Error>)
    ensures r.Ok? <==> n.NSymbol? && n.sym.User?
    ensures r.Ok? ==> r.value == n.sym.name
    ensures r.Err? ==> r.error == NotAUserSymbol
  {
    if n.NSymbol? && n.sym.User? then Ok(n.sym.name) else Err(NotAUserSymbol)
  }

  /** `as_pair`. */
  function AsPair(n: Node): (r: Result<(Node, Node), Error>)
    ensures r.Ok? <==> n.NPair?
    ensures r.Ok? ==> r.value == (n.car, n.cdr)
    ensures r.Err? ==> r.error == NotAPair
  {
    if n.NPair? then Ok((n.car, n.cdr)) else Err(NotAPair)
  }

  /** `Node::set_car`: only the car of a pair changes. */
  function SetCar(n: Node, value: Node): (r: Result<Node, Error>)
    ensures r.Ok? <==> n.NPair?
    ensures r.Ok? ==> r.value.NPair? && r.value.car == value && r.value.cdr == n.cdr
    ensures r.Err? ==> r.error == NotAPair
  {
    if n.NPair? then Ok(NPair(value, n.cdr)) else Err(NotAPair)
  }

  /** `Node::set_cdr`: only the cdr of a pair changes. */
  function SetCdr(n: Node, value: Node): (r: Result<Node, Error>)
    ensures r.Ok? <==> n.NPair?
    ensures r.Ok? ==> r.value.NPair? && r.value.car == n.car && r.value.cdr == value
    ensures r.Err? ==> r.error == NotAPair
  {
    if n.NPair? then Ok(NPair(n.car, value)) else Err(NotAPair)
  }

  // ---------------------------------------------------------------------
  // Patterns

  /** `is_proper_list`. */
  predicate IsProperList(p: Pattern) {
    match p
    case PNil => true
    case PSymbol(_) => false
    case PPair(_, rest) => IsProperList(rest)
  }

  /** The names a pattern binds, in order, the rest symbol included. */
  function Names(p: Pattern): seq<string> {
    match p
    case PNil => []
    case PSymbol(s) => [s]
    case PPair(h, rest) => [h] + Names(rest)
  }

  /** The number of named (non-rest) positions. */
  function Fixed(p: Pattern): nat {
    match p
    case PPair(_, rest) => 1 + Fixed(rest)
    case _ => 0
  }

  /** A pattern names its fixed positions first and, when it is not a proper
      list, one rest symbol last. */
  lemma {:induction false} NamesShape(p: Pattern)
    ensures |Names(p)| == Fixed(p) + (if IsProperList(p) then 0 else 1)
    ensures !IsProperList(p) ==> Names(p)[|Names(p)| - 1] == RestName(p)
  {
    match p
    case PNil =>
    case PSymbol(_) =>
    case PPair(_, rest) => NamesShape(rest);
  }

  /** The rest symbol of an improper pattern. */
  function RestName(p: Pattern): string
    requires !IsProperList(p)
  {
    match p
    case PSymbol(s) => s
    case PPair(_, rest) => RestName(rest)
  }

  /** `Pattern::vectorize`: appends the names to `lst`. */
  method AppendNames(p: Pattern, lst: seq<string>) returns (r: seq<string>)
    ensures r == lst + Names(p)
    decreases p
  {
    match p
    case PNil => r := lst;
    case PSymbol(s) => r := lst + [s];
    case PPair(h, rest) =>
      r := AppendNames(rest, lst + [h]);
      assert lst + [h] + Names(rest) == lst + ([h] + Names(rest));
  }

  /** Whether `n` arguments fit the pattern. */
  predicate Fits(p: Pattern, n: nat) {
    match p
    case PSymbol(_) => true
    case PPair(_, rest) => n > 0 && Fits(rest, n - 1)
    case PNil => n == 0
  }

  lemma {:induction false} FitsIff(p: Pattern, n: nat)
    ensures Fits(p, n) <==> (if IsProperList(p) then n == Fixed(p) else n >= Fixed(p))
  {
    match p
    case PSymbol(_) =>
    case PNil =>
    case PPair(_, rest) => if n > 0 { FitsIff(rest, n - 1); }
  }

  /** The bindings in the order `pattern_matching` inserts them. */
  function Bindings(p: Pattern, actual: seq<Node>): (b: seq<(string, Node)>)
    requires Fits(p, |actual|)
    decreases p
  {
    match p
    case PSymbol(s) => [(s, ListOf(actual))]
    case PPair(h, rest) => [(h, actual[0])] + Bindings(rest, actual[1..])
    case PNil => []
  }

  function Insert(m: map<string, Node>, b: seq<(string, Node)>): map<string, Node>
    decreases |b|
  {
    if b == [] then m else Insert(m[b[0].0 := b[0].1], b[1..])
  }

  /** `pattern_matching`: binds each named position to the next argument and
      the rest symbol to the list of the remaining ones; fails when the
      arguments do not fit.  On failure the source leaves the insertions made
      so far in the map; every caller discards that map. */
  method PatternMatching(p: Pattern, actual: seq<Node>, bindings: map<string, Node>)
    returns (r: Result<map<string, Node>, Error>)
    ensures r.Ok? <==> Fits(p, |actual|)
    ensures r.Ok? ==> r.value == Insert(bindings, Bindings(p, actual))
    ensures r.Err? ==> r.error == PatternMismatch
    decreases p
  {
    match p
    case PSymbol(s) =>
      var node := FromIter(actual);
      return Ok(bindings[s := node]);
    case PPair(h, rest) =>
      if |actual| == 0 {
        return Err(PatternMismatch);
      }
      r := PatternMatching(rest, actual[1..], bindings[h := actual[0]]);
    case PNil =>
      if |actual| != 0 {
        return Err(PatternMismatch);
      }
      return Ok(bindings);
  }

  /** The binding sequence pairs each name with its own argument: the i-th
      name with the i-th argument, and a rest name with the list of the
      arguments after the fixed ones. */
  lemma {:induction false} BindingsAgree(p: Pattern, actual: seq<Node>)
    requires Fits(p, |actual|)
    ensures |Bindings(p, actual)| == |Names(p)| == Fixed(p) + (if IsProperList(p) then 0 else 1)
    ensures forall i | 0 <= i < |Names(p)| :: Bindings(p, actual)[i].0 == Names(p)[i]
    ensures forall i | 0 <= i < Fixed(p) :: i < |actual| && Bindings(p, actual)[i].1 == actual[i]
    ensures !IsProperList(p) ==>
      (Fixed(p) <= |actual| && Bindings(p, actual)[Fixed(p)].1 == ListOf(actual[Fixed(p)..]))
    decreases p
  {
    NamesShape(p);
    match p
    case PSymbol(_) =>
    case PNil =>
    case PPair(h, rest) =>
      BindingsAgree(rest, actual[1..]);
      var b := Bindings(p, actual);
      forall i | 1 <= i < Fixed(p) ensures b[i].1 == actual[i] {
        assert b[i] == Bindings(rest, actual[1..])[i - 1];
      }
      if !IsProperList(p) {
        assert actual[1..][Fixed(rest)..] == actual[Fixed(p)..];
      }
  }

  /** Inserting pairs whose names are distinct leaves each name bound to its
      own value. */
  lemma {:induction false} InsertDistinct(m: map<string, Node>, b: seq<(string, Node)>, i: nat)
    requires i < |b|
    requires forall j, k | 0 <= j < k < |b| :: b[j].0 != b[k].0
    ensures b[i].0 in Insert(m, b) && Insert(m, b)[b[i].0] == b[i].1
    decreases |b|
  {
    if i > 0 {
      InsertDistinct(m[b[0].0 := b[0].1], b[1..], i - 1);
    } else {
      InsertKeeps(m[b[0].0 := b[0].1], b[1..], b[0].0);
    }
  }

  lemma {:induction false} InsertKeeps(m: map<string, Node>, b: seq<(string, Node)>, k: string)
    requires forall j | 0 <= j < |b| :: b[j].0 != k
    ensures k in m ==> k in Insert(m, b) && Insert(m, b)[k] == m[k]
    ensures k !in m ==> k !in Insert(m, b)
    decreases |b|
  {
    if b != [] {
      InsertKeeps(m[b[0].0 := b[0].1], b[1..], k);
    }
  }

  /** `From<Pattern> for Node`. */
  function PatternToNode(p: Pattern): Node {
    match p
    case PSymbol(s) => NSymbol(User(s))
    case PPair(h, rest) => NPair(NSymbol(User(h)), PatternToNode(rest))
    case PNil => NIL
  }

  /** `TryFrom<Node> for Pattern`: a user symbol, nil, or a pair whose car is
      a user symbol and whose cdr converts. */
  function NodeToPattern(n: Node): (r: Result<Pattern, Error>)
    ensures r.Ok? ==> PatternToNode(r.value) == n
  {
    match n
    case NSymbol(User(s)) => Ok(PSymbol(s))
    case NPair(car, cdr) =>
      if car.NSymbol? && car.sym.User? then
        match NodeToPattern(cdr)
        case Ok(rest) => Ok(PPair(car.sym.name, rest))
        case Err(e) => Err(e)
      else Err(NotAPattern)
    case NSymbol(Nil) => Ok(PNil)
    case _ => Err(NotAPattern)
  }

  /** Converting a pattern to a node and back gives the pattern. */
  lemma {:induction false} PatternRoundTrip(p: Pattern)
    ensures NodeToPattern(PatternToNode(p)) == Ok(p)
  {
    match p
    case PSymbol(_) =>
    case PNil =>
    case PPair(_, rest) => PatternRoundTrip(rest);
  }
}
