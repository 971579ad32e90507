/** Arity and list helpers shared by the interpreter and the runtime
    (src/util.rs). */
module Util {
  import opened Wrappers
  import opened Numbers
  import opened Symbols
  import opened Errors
  import opened Nodes

  /** `no_less_than_n_params`. */
  function NoLessThanNParams<T>(lst: seq<T>, n: nat): (r: Result<(), Error>)
    ensures r.Err? <==> |lst| < n
    ensures r.Err? ==> r.error == FewerParams
  {
    if |lst| < n then Err(FewerParams) else Ok(())
  }

  /** `exactly_n_params`: too many is reported before too few. */
  function ExactlyNParams<T>(lst: seq<T>, n: nat): (r: Result<(), Error>)
    ensures r.Ok? <==> |lst| == n
    ensures |lst| > n ==> r == Err(MoreParams)
    ensures |lst| < n ==> r == Err(FewerParams)
  {
    if |lst| > n then Err(MoreParams) else NoLessThanNParams(lst, n)
  }

  /** The items of a chain of pairs, and the node the chain ends in. */
  function Spine(l: Node): (r: (seq<Node>, Node))
    ensures !r.1.NPair?
  {
    if l.NPair? then var (xs, end) := Spine(l.cdr); ([l.car] + xs, end) else ([], l)
  }

  /** `vectorize`: walks the cdr chain collecting the cars, and fails
      unless the chain ends in nil. */
  method Vectorize(lst: Node) returns (r: Result<seq<Node>, Error>)
    ensures r.Ok? <==> Spine(lst).1 == NIL
    ensures r.Ok? ==> r.value == Spine(lst).0
    ensures r.Err? ==> r.error == NotAProperList
  {
    var cur := lst;
    var result: seq<Node> := [];
    while cur.NPair?
      invariant result + Spine(cur).0 == Spine(lst).0
      invariant Spine(cur).1 == Spine(lst).1
      decreases cur
    {
      result := result + [cur.car];
      cur := cur.cdr;
    }
    if cur != NIL {
      return Err(NotAProperList);
    }
    return Ok(result);
  }

  /** `vectorize` turns the list built from a sequence back into it. */
  lemma {:induction false} SpineOfList(xs: seq<Node>)
    ensures Spine(ListOf(xs)) == (xs, NIL)
    decreases |xs|
  {
    if xs != [] {
      SpineOfList(xs[1..]);
      assert [xs[0]] + xs[1..] == xs;
    }
  }

  /** What `get_n_params` returns: the items of a proper list of exactly
      `n` items, or why the list is not one. */
  function NParams(lst: Node, n: nat): (r: Result<seq<Node>, Error>)
    ensures r.Ok? <==> Spine(lst).1 == NIL && |Spine(lst).0| == n
    ensures r.Ok? ==> r.value == Spine(lst).0
    ensures Spine(lst).1 != NIL ==> r == Err(NotAProperList)
  {
    if Spine(lst).1 != NIL then Err(NotAProperList)
    else match ExactlyNParams(Spine(lst).0, n)
      case Ok(_) => Ok(Spine(lst).0)
      case Err(e) => Err(e)
  }

  /** `get_n_params`: a proper list of exactly `n` items. */
  method GetNParams(lst: Node, n: nat) returns (r: Result<seq<Node>, Error>)
    ensures r.Ok? <==> Spine(lst).1 == NIL && |Spine(lst).0| == n
    ensures r.Ok? ==> r.value == Spine(lst).0
    ensures r == NParams(lst, n)
  {
    var result :- Vectorize(lst);
    var ok := ExactlyNParams(result, n);
    if ok.Err? {
      return Err(ok.error);
    }
    return Ok(result);
  }

  /** The keys of an association list. */
  function KeysOf<K, V>(r: seq<(K, V)>): set<K>
    decreases |r|
  {
    if r == [] then {} else KeysOf(r[..|r| - 1]) + {r[|r| - 1].0}
  }

  /** Every key of an association list sits at some index. */
  lemma {:induction false} KeyIndex<K, V>(r: seq<(K, V)>, k: K) returns (i: nat)
    requires k in KeysOf(r)
    ensures i < |r| && r[i].0 == k
    decreases |r|
  {
    if r[|r| - 1].0 == k {
      i := |r| - 1;
    } else {
      i := KeyIndex(r[..|r| - 1], k);
    }
  }

  /** No key occurs twice in an association list. */
  predicate DistinctKeys<K(==), V>(r: seq<(K, V)>)
    decreases |r|
  {
    r == [] || (r[|r| - 1].0 !in KeysOf(r[..|r| - 1]) && DistinctKeys(r[..|r| - 1]))
  }

  lemma {:induction false} KeyInPrefix<K, V>(r: seq<(K, V)>, i: nat, n: nat)
    requires i < n <= |r|
    ensures r[i].0 in KeysOf(r[..n])
    decreases n
  {
    assert r[..n][..n - 1] == r[..n - 1];
    if i < n - 1 {
      KeyInPrefix(r, i, n - 1);
    }
  }

  /** Two different positions of a list with distinct keys hold different keys. */
  lemma {:induction false} DistinctAt<K, V>(r: seq<(K, V)>, i: nat, j: nat)
    requires DistinctKeys(r) && i < j < |r|
    ensures r[i].0 != r[j].0
    decreases |r|
  {
    var p := r[..|r| - 1];
    if j < |r| - 1 {
      assert p[i] == r[i] && p[j] == r[j];
      DistinctAt(p, i, j);
    } else {
      KeyInPrefix(r, i, |r| - 1);
    }
  }

  /** Conversely, keys that differ position by position are distinct. */
  lemma {:induction false} PairwiseDistinct<K, V>(r: seq<(K, V)>)
    requires forall i, j | 0 <= i < j < |r| :: r[i].0 != r[j].0
    ensures DistinctKeys(r)
    decreases |r|
  {
    if r != [] {
      var p := r[..|r| - 1];
      assert forall i | 0 <= i < |p| :: p[i] == r[i];
      PairwiseDistinct(p);
      if r[|r| - 1].0 in KeysOf(p) {
        var i := KeyIndex(p, r[|r| - 1].0);
        assert false;
      }
    }
  }

  lemma AppendKey<K, V>(r: seq<(K, V)>, k: K, v: V)
    requires DistinctKeys(r) && k !in KeysOf(r)
    ensures DistinctKeys(r + [(k, v)]) && KeysOf(r + [(k, v)]) == KeysOf(r) + {k}
  {
    assert (r + [(k, v)])[..|r|] == r;
  }

  lemma MoveKey<K>(done: set<K>, rest: set<K>, all: set<K>, k: K)
    requires done + rest == all && done !! rest && k in rest
    ensures (done + {k}) + (rest - {k}) == all && (done + {k}) !! (rest - {k})
    ensures |rest - {k}| == |rest| - 1
  {
  }

  /** The state of `map_to_assoc_lst` part-way: `r` lists distinct entries of
      `m`, and `rest` holds exactly the keys not listed yet. */
  ghost predicate Listing<K, V>(m: map<K, V>, r: seq<(K, V)>, rest: set<K>)
  {
    |r| + |rest| == |m| &&
    (forall i | 0 <= i < |r| :: r[i].0 in m && m[r[i].0] == r[i].1) &&
    DistinctKeys(r) &&
    KeysOf(r) + rest == m.Keys && KeysOf(r) !! rest
  }

  lemma ListingStep<K, V>(m: map<K, V>, r: seq<(K, V)>, rest: set<K>, k: K)
    requires Listing(m, r, rest) && k in rest
    ensures Listing(m, r + [(k, m[k])], rest - {k}) && |rest - {k}| < |rest|
  {
    AppendKey(r, k, m[k]);
    MoveKey(KeysOf(r), rest, m.Keys, k);
    var r' := r + [(k, m[k])];
    forall i | 0 <= i < |r'| ensures r'[i].0 in m && m[r'[i].0] == r'[i].1 {
      if i < |r| {
        assert r'[i] == r[i];
      }
    }
  }

  /** `map_to_assoc_lst`: every entry of the map exactly once, in the map's
      own (unspecified) iteration order. */
  method MapToAssocList<K, V>(m: map<K, V>) returns (r: seq<(K, V)>)
    ensures |r| == |m|
    ensures forall i | 0 <= i < |r| :: r[i].0 in m && m[r[i].0] == r[i].1
    ensures DistinctKeys(r)
    ensures KeysOf(r) == m.Keys
  {
    var rest := m.Keys;
    r := [];
    while rest != {}
      invariant Listing(m, r, rest)
      decreases |rest|
    {
      var k :| k in rest;
      ListingStep(m, r, rest, k);
      r := r + [(k, m[k])];
      rest := rest - {k};
    }
  }

  /** Every value converted in order, or the first conversion error. */
  function ConvertAll<N>(values: seq<N>, conv: N -> Result<Number, Error>): (r: Result<seq<Number>, Error>)
    ensures r.Ok? <==> forall i | 0 <= i < |values| :: conv(values[i]).Ok?
    ensures r.Ok? ==> |r.value| == |values| && forall i | 0 <= i < |values| :: r.value[i] == conv(values[i]).value
    decreases |values|
  {
    if values == [] then Ok([])
    else match conv(values[0])
      case Err(e) => Err(e)
      case Ok(x) =>
        match ConvertAll(values[1..], conv)
        case Err(e) => Err(e)
        case Ok(xs) =>
          assert forall i | 1 <= i < |values| :: values[i] == values[1..][i - 1];
          Ok([x] + xs)
  }

  /** The left fold of `op` over `xs` starting from `acc`. */
  function FoldLeft(op: (Number, Number) -> Number, acc: Number, xs: seq<Number>): Number
    decreases |xs|
  {
    if xs == [] then acc else FoldLeft(op, op(acc, xs[0]), xs[1..])
  }

  lemma {:induction false} FoldLeftSnoc(op: (Number, Number) -> Number, acc: Number, xs: seq<Number>, x: Number)
    ensures FoldLeft(op, acc, xs + [x]) == op(FoldLeft(op, acc, xs), x)
    decreases |xs|
  {
    if xs != [] {
      assert (xs + [x])[1..] == xs[1..] + [x];
      FoldLeftSnoc(op, op(acc, xs[0]), xs[1..], x);
    }
  }

  /** `eval_arith`: at least two operands, each converted to a number (the
      first failure is returned), then folded from the first. */
  method EvalArith<N>(values: seq<N>, conv: N -> Result<Number, Error>, op: (Number, Number) -> Number)
    returns (r: Result<Number, Error>)
    ensures |values| < 2 ==> r == Err(FewerParams)
    ensures |values| >= 2 ==> (r.Ok? <==> ConvertAll(values, conv).Ok?)
    ensures r.Err? && |values| >= 2 ==> r == Err(ConvertAll(values, conv).error)
    ensures r.Ok? ==> |values| >= 2 && var ns := ConvertAll(values, conv).value; r.value == FoldLeft(op, ns[0], ns[1..])
  {
    if |values| < 2 {
      return Err(FewerParams);
    }
    var numbers: seq<Number> := [];
    var k := 0;
    while k < |values|
      invariant 0 <= k <= |values|
      invariant ConvertAll(values[..k], conv) == Ok(numbers)
    {
      var n := conv(values[k]);
      if n.Err? {
        FirstErrorStops(values, conv, k);
        return Err(n.error);
      }
      ConvertSnoc(values, conv, k);
      numbers := numbers + [n.value];
      k := k + 1;
    }
    assert values[..k] == values;
    var acc := numbers[0];
    var i := 1;
    while i < |numbers|
      invariant 1 <= i <= |numbers|
      invariant acc == FoldLeft(op, numbers[0], numbers[1..i])
    {
      FoldLeftSnoc(op, numbers[0], numbers[1..i], numbers[i]);
      assert numbers[1..i + 1] == numbers[1..i] + [numbers[i]];
      acc := op(acc, numbers[i]);
      i := i + 1;
    }
    assert numbers[1..i] == numbers[1..];
    return Ok(acc);
  }

  lemma {:induction false} ConvertSnoc<N>(values: seq<N>, conv: N -> Result<Number, Error>, k: nat)
    requires k < |values| && ConvertAll(values[..k], conv).Ok? && conv(values[k]).Ok?
    ensures ConvertAll(values[..k + 1], conv) == Ok(ConvertAll(values[..k], conv).value + [conv(values[k]).value])
  {
    assert values[..k + 1] == values[..k] + [values[k]];
    ConvertAllSnoc(values[..k], conv, values[k]);
  }

  lemma {:induction false} ConvertAllSnoc<N>(xs: seq<N>, conv: N -> Result<Number, Error>, x: N)
    requires ConvertAll(xs, conv).Ok? && conv(x).Ok?
    ensures ConvertAll(xs + [x], conv) == Ok(ConvertAll(xs, conv).value + [conv(x).value])
    decreases |xs|
  {
    if xs != [] {
      assert (xs + [x])[0] == xs[0];
      assert (xs + [x])[1..] == xs[1..] + [x];
      ConvertAllSnoc(xs[1..], conv, x);
      var h, t := conv(xs[0]).value, ConvertAll(xs[1..], conv).value;
      assert ConvertAll(xs, conv) == Ok([h] + t);
      assert ConvertAll(xs + [x], conv) == Ok([h] + (t + [conv(x).value]));
      assert [h] + (t + [conv(x).value]) == ([h] + t) + [conv(x).value];
    } else {
      assert xs + [x] == [x] && [x][0] == x && [x][1..] == [];
      assert ConvertAll([x][1..], conv) == Ok([]);
      assert ConvertAll([x], conv) == Ok([conv(x).value] + []);
      assert ConvertAll(xs, conv).value == [];
      assert ConvertAll(xs, conv).value + [conv(x).value] == [conv(x).value] + [];
    }
  }

  /** A conversion error at `k` after `k` successes is the first error of the
      whole sequence. */
  lemma {:induction false} FirstErrorStops<N>(values: seq<N>, conv: N -> Result<Number, Error>, k: nat)
    requires k < |values| && ConvertAll(values[..k], conv).Ok? && conv(values[k]).Err?
    ensures ConvertAll(values, conv) == Err(conv(values[k]).error)
    decreases k
  {
    if k > 0 {
      assert values[..k][0] == values[0];
      assert values[1..][..k - 1] == values[..k][1..];
      FirstErrorStops(values[1..], conv, k - 1);
    }
  }

  /** `eval_rel`: exactly two operands, both numbers; `t` when the relation
      holds and `nil` otherwise. */
  method EvalRel<N>(values: seq<N>, conv: N -> Result<Number, Error>, op: (Number, Number) -> bool)
    returns (r: Result<Symbol, Error>)
    ensures |values| != 2 ==> r == ExactlyNParams(values, 2).PropagateFailure()
    ensures |values| == 2 ==> (r.Ok? <==> conv(values[0]).Ok? && conv(values[1]).Ok?)
    ensures |values| == 2 && r.Err? ==> r == Err(ConvertAll(values, conv).error)
    ensures r.Ok? ==> r.value == (if op(conv(values[0]).value, conv(values[1]).value) then T else Nil)
  {
    var check := ExactlyNParams(values, 2);
    if check.Err? {
      return Err(check.error);
    }
    var numbers: seq<Number> := [];
    var k := 0;
    while k < |values|
      invariant 0 <= k <= |values|
      invariant ConvertAll(values[..k], conv) == Ok(numbers)
    {
      var n := conv(values[k]);
      if n.Err? {
        FirstErrorStops(values, conv, k);
        return Err(n.error);
      }
      ConvertSnoc(values, conv, k);
      numbers := numbers + [n.value];
      k := k + 1;
    }
    assert values[..k] == values;
    return Ok(if op(numbers[0], numbers[1]) then T else Nil);
  }

  /** The global counter behind `inc`. */
  class Counter {
    var next: nat

    constructor()
      ensures next == 0
    {
      next := 0;
    }

    /** `inc`: the value before the increment. */
    method Inc() returns (v: nat)
      modifies this
      ensures v == old(next) && next == v + 1
    {
      v := next;
      next := next + 1;
    }
  }
}
