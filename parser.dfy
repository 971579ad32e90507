/** The recursive-descent reader (src/parser.rs) and `Node::from_str`
    (src/node.rs).  Each parsing function is given as a function of the
    text and the cursor, returning the result and the cursor it leaves; the
    methods that drive a `Lexer` are proved to compute them.  The parser
    looks ahead with `peek_next_token` and sees only whether a token is
    there: a lexical error in a look-ahead reads as no token. */
module Parser {
  import opened Wrappers
  import opened Symbols
  import opened Nodes
  import opened Lexer

  /** The look-ahead the parser sees: the token, or None on any error. */
  function PeekToken(raw: string, pos: nat): Option<Token> {
    var pk := Peek(raw, pos);
    if pk.res.Ok? then Some(pk.res.value.1) else None
  }

  /** `consume(t).map_err(SyntaxError)`: every failure is a syntax error. */
  function Expect(raw: string, pos: nat, t: Token): (r: (Result<(), ParseError>, nat)) {
    var (x, p) := Advance(raw, pos);
    (if x == Ok(t) then Ok(()) else Err(SyntaxError), p)
  }

  /** `Node::parse`: one expression. */
  function ExprAt(raw: string, pos: nat): (r: (Result<Node, ParseError>, nat))
    requires pos <= |raw| + 1
    ensures pos <= r.1 <= |raw| + 1
    ensures r.0.Ok? ==> pos < r.1
    decreases |raw| + 1 - pos, 0
  {
    var (t, p1) := NextItem(raw, pos);
    if t.Err? then (Err(t.error), p1)
    else if t.value.None? then (Err(EOF), p1)
    else match t.value.value
      case LParen =>
        var pk := Peek(raw, p1);
        var head := PeekToken(raw, p1);
        if head.Some? && head.value.TSymbol? && ParseSpecialForm(head.value.name).Some? then
          var (rest, p2) := ListAt(raw, pk.res.value.0);
          (if rest.Ok? then Ok(NPair(NForm(ParseSpecialForm(head.value.name).value), rest.value))
           else rest, p2)
        else ListAt(raw, pk.cursor)
      case Quote =>
        var (x, p2) := ExprAt(raw, p1);
        (if x.Ok? then Ok(NPair(NForm(SpecialForm.Quote), NPair(x.value, NIL))) else x, p2)
      case TNumber(n) => (Ok(NNumber(n)), p1)
      case TSymbol(s) => (Ok(NSymbol(SymbolFrom(s))), p1)
      case TString(s) => (Ok(NSymbol(SymbolFrom(s))), p1)
      case RParen => (Err(SyntaxError), p1)
      case Dot => (Err(SyntaxError), p1)
  }

  /** `Node::parse_list`: the rest of a list whose `(` (and special form,
      if any) is already read. */
  function ListAt(raw: string, pos: nat): (r: (Result<Node, ParseError>, nat))
    requires pos <= |raw| + 1
    ensures pos <= r.1 <= |raw| + 1
    ensures r.0.Ok? ==> pos < r.1
    decreases |raw| + 1 - pos, 1
  {
    var pk := Peek(raw, pos);
    if PeekToken(raw, pos) == Some(RParen) then
      var (x, p1) := Expect(raw, pk.cursor, RParen);
      (if x.Ok? then Ok(NIL) else Err(x.error), p1)
    else
      var (car, p1) := ExprAt(raw, pk.cursor);
      if car.Err? then (car, p1)
      else
        var pk1 := Peek(raw, p1);
        if PeekToken(raw, p1) == Some(Dot) then
          var (d, p2) := Expect(raw, pk1.cursor, Dot);
          if d.Err? then (Err(d.error), p2)
          else
            var (cdr, p3) := ExprAt(raw, p2);
            if cdr.Err? then (cdr, p3)
            else
              var (c, p4) := Expect(raw, p3, RParen);
              (if c.Ok? then Ok(NPair(car.value, cdr.value)) else Err(c.error), p4)
        else
          var (cdr, p2) := ListAt(raw, pk1.cursor);
          (if cdr.Ok? then Ok(NPair(car.value, cdr.value)) else cdr, p2)
  }

  /** The forms `Node::from_str` reads from `pos`: it stops, successfully,
      at the first position where no token can be seen. */
  function ProgramFrom(raw: string, pos: nat): (r: Result<seq<Node>, ParseError>)
    requires pos <= |raw| + 1
    decreases |raw| + 1 - pos
  {
    var pk := Peek(raw, pos);
    if PeekToken(raw, pos).None? then Ok([])
    else
      var (x, p) := ExprAt(raw, pk.cursor);
      if x.Err? then Err(x.error)
      else match ProgramFrom(raw, p)
        case Ok(xs) => Ok([x.value] + xs)
        case Err(e) => Err(e)
  }

  // ---------------------------------------------------------------------
  // What the grammar promises

  /** Parsing is unaffected by a look-ahead done just before: a peek only
      moves the cursor past comments. */
  lemma AfterPeek(raw: string, pos: nat)
    requires pos <= |raw| + 1
    ensures ExprAt(raw, Peek(raw, pos).cursor) == ExprAt(raw, pos)
    ensures ListAt(raw, Peek(raw, pos).cursor) == ListAt(raw, pos)
  {
    PeekAgain(raw, pos);
    ExprSame(raw, Peek(raw, pos).cursor, pos);
    ListSame(raw, Peek(raw, pos).cursor, pos);
  }

  lemma ExprSame(raw: string, a: nat, b: nat)
    requires a <= |raw| + 1 && b <= |raw| + 1 && Peek(raw, a) == Peek(raw, b)
    ensures ExprAt(raw, a) == ExprAt(raw, b)
  {
    assert NextItem(raw, a) == NextItem(raw, b);
  }

  lemma ListSame(raw: string, a: nat, b: nat)
    requires a <= |raw| + 1 && b <= |raw| + 1 && Peek(raw, a) == Peek(raw, b)
    ensures ListAt(raw, a) == ListAt(raw, b)
  {
    assert PeekToken(raw, a) == PeekToken(raw, b);
  }

  /** `)` closes a list: `()` is nil. */
  lemma EmptyList(raw: string, pos: nat)
    requires pos <= |raw| + 1 && PeekToken(raw, pos) == Some(RParen)
    ensures ListAt(raw, pos) == (Ok(NIL), Peek(raw, pos).res.value.0)
  {
    PeekAgain(raw, pos);
  }

  /** The `i`-th element of a list runs from `ps[i]` to `ps[i + 1]`. */
  predicate Element(raw: string, xs: seq<Node>, ps: seq<nat>, i: nat)
    requires i < |xs| && |ps| == |xs| + 1 && ps[i] <= |raw| + 1
  {
    PeekToken(raw, ps[i]) != Some(RParen) && ExprAt(raw, ps[i]) == (Ok(xs[i]), ps[i + 1]) && PeekToken(raw, ps[i + 1]) != Some(Dot)
  }

  /** `(e1 ... en)`: expressions parsed one after the other, none starting
      with `)` and each followed by something other than `.`, then a `)`,
      make the nil-terminated list of the expressions. */
  lemma {:induction false} ProperList(raw: string, xs: seq<Node>, ps: seq<nat>)
    requires |ps| == |xs| + 1 && forall i | 0 <= i < |ps| :: ps[i] <= |raw| + 1
    requires forall i | 0 <= i < |xs| :: Element(raw, xs, ps, i)
    requires PeekToken(raw, ps[|xs|]) == Some(RParen)
    ensures ListAt(raw, ps[0]) == (Ok(ListOf(xs)), Peek(raw, ps[|xs|]).res.value.0)
    decreases |xs|
  {
    if xs == [] {
      EmptyList(raw, ps[0]);
    } else {
      var tail, q := ListOf(xs[1..]), Peek(raw, ps[|xs|]).res.value.0;
      assert Element(raw, xs, ps, 0);
      TailElements(raw, xs, ps);
      ProperList(raw, xs[1..], ps[1..]);
      assert ps[1..][|xs[1..]|] == ps[|xs|];
      ListStep(raw, ps[0], xs[0], ps[1], tail, q);
      assert ListOf(xs) == NPair(xs[0], tail);
    }
  }

  lemma TailElements(raw: string, xs: seq<Node>, ps: seq<nat>)
    requires xs != [] && |ps| == |xs| + 1 && forall i | 0 <= i < |ps| :: ps[i] <= |raw| + 1
    requires forall i | 0 <= i < |xs| :: Element(raw, xs, ps, i)
    ensures forall i | 0 <= i < |xs| - 1 :: Element(raw, xs[1..], ps[1..], i)
  {
    forall i | 0 <= i < |xs| - 1 ensures Element(raw, xs[1..], ps[1..], i) {
      assert Element(raw, xs, ps, i + 1);
    }
  }

  /** One element of a list, followed by the rest of the list. */
  lemma ListStep(raw: string, pos: nat, x: Node, p1: nat, tail: Node, q: nat)
    requires pos <= |raw| + 1 && p1 <= |raw| + 1
    requires PeekToken(raw, pos) != Some(RParen) && ExprAt(raw, pos) == (Ok(x), p1)
    requires PeekToken(raw, p1) != Some(Dot) && ListAt(raw, p1) == (Ok(tail), q)
    ensures ListAt(raw, pos) == (Ok(NPair(x, tail)), q)
  {
    AfterPeek(raw, pos);
    AfterPeek(raw, p1);
  }

  /** An opening `(` not followed by the name of a special form starts a
      plain list. */
  lemma PlainList(raw: string, pos: nat, p: nat)
    requires pos <= |raw| + 1 && NextItem(raw, pos) == (Ok(Some(LParen)), p)
    requires !(PeekToken(raw, p).Some? && PeekToken(raw, p).value.TSymbol? && PeekToken(raw, p).value.name in SPECIAL_FORMS)
    ensures ExprAt(raw, pos) == ListAt(raw, p)
  {
    AfterPeek(raw, p);
  }

  /** A special form's name right after `(` becomes the list's head. */
  lemma FormHead(raw: string, pos: nat, p: nat, name: string)
    requires pos <= |raw| + 1 && NextItem(raw, pos) == (Ok(Some(LParen)), p)
    requires PeekToken(raw, p) == Some(TSymbol(name)) && name in SPECIAL_FORMS
    ensures var rest := ListAt(raw, Peek(raw, p).res.value.0);
      ExprAt(raw, pos) == (if rest.0.Ok? then Ok(NPair(NForm(SPECIAL_FORMS[name]), rest.0.value)) else rest.0, rest.1)
  {
  }

  /** `'x` reads as `(quote x)`. */
  lemma QuoteForm(raw: string, pos: nat, p: nat)
    requires pos <= |raw| + 1 && NextItem(raw, pos) == (Ok(Some(Token.Quote)), p)
    requires ExprAt(raw, p).0.Ok?
    ensures ExprAt(raw, pos) == (Ok(ListOf([NForm(SpecialForm.Quote), ExprAt(raw, p).0.value])), ExprAt(raw, p).1)
  {
    assert ListOf([ExprAt(raw, p).0.value]) == NPair(ExprAt(raw, p).0.value, NIL);
  }

  /** `)` or `.` where an expression should start is a syntax error, and
      the end of the text is EOF. */
  lemma NoExpression(raw: string, pos: nat)
    requires pos <= |raw| + 1
    ensures PeekToken(raw, pos) in {Some(RParen), Some(Dot)} ==> ExprAt(raw, pos).0 == Err(SyntaxError)
    ensures Peek(raw, pos).res == Err(EOF) ==> ExprAt(raw, pos).0 == Err(EOF)
  {
  }

  /** After a dot exactly one expression and then `)` must follow: `(a .)`
      and `(a . b c)` are errors. */
  lemma DottedTail(raw: string, pos: nat, p1: nat)
    requires pos <= |raw| + 1 && PeekToken(raw, pos) != Some(RParen)
    requires ExprAt(raw, Peek(raw, pos).cursor).0.Ok? && ExprAt(raw, Peek(raw, pos).cursor).1 == p1
    requires PeekToken(raw, p1) == Some(Dot)
    ensures var p2 := Peek(raw, p1).res.value.0;
      (PeekToken(raw, p2) == Some(RParen) ==> ListAt(raw, pos).0 == Err(SyntaxError)) &&
      (ExprAt(raw, p2).0.Ok? && PeekToken(raw, ExprAt(raw, p2).1) != Some(RParen) ==> ListAt(raw, pos).0 == Err(SyntaxError)) &&
      (ExprAt(raw, p2).0.Ok? && PeekToken(raw, ExprAt(raw, p2).1) == Some(RParen) ==>
         ListAt(raw, pos) == (Ok(NPair(ExprAt(raw, Peek(raw, pos).cursor).0.value, ExprAt(raw, p2).0.value)),
                             Peek(raw, ExprAt(raw, p2).1).res.value.0))
  {
    PeekAgain(raw, p1);
    var p2 := Peek(raw, p1).res.value.0;
    if ExprAt(raw, p2).0.Ok? {
      PeekAgain(raw, ExprAt(raw, p2).1);
    }
  }

  /** A look-ahead that hits a lexical error ends the text as if it were
      over: the forms read so far are the program. */
  lemma ProgramStopsSilently(raw: string, pos: nat)
    requires pos <= |raw| + 1 && Peek(raw, pos).res.Err?
    ensures ProgramFrom(raw, pos) == Ok([])
  {
  }

  /** A parsed expression holds special forms only at the head of a
      list: the shape the preprocessor relies on. */
  lemma {:induction false} ExprHeadForms(raw: string, pos: nat)
    requires pos <= |raw| + 1
    ensures ExprAt(raw, pos).0.Ok? ==> HeadForms(ExprAt(raw, pos).0.value)
    decreases |raw| + 1 - pos, 0
  {
    var (t, p1) := NextItem(raw, pos);
    if t.Ok? && t.value.Some? {
      match t.value.value
      case LParen =>
        var pk := Peek(raw, p1);
        var head := PeekToken(raw, p1);
        if head.Some? && head.value.TSymbol? && ParseSpecialForm(head.value.name).Some? {
          ListHeadForms(raw, pk.res.value.0);
        } else {
          ListHeadForms(raw, pk.cursor);
        }
      case Quote => ExprHeadForms(raw, p1);
      case _ =>
    }
  }

  /** The same for the rest of a list. */
  lemma {:induction false} ListHeadForms(raw: string, pos: nat)
    requires pos <= |raw| + 1
    ensures ListAt(raw, pos).0.Ok? ==> HeadForms(ListAt(raw, pos).0.value)
    decreases |raw| + 1 - pos, 1
  {
    var pk := Peek(raw, pos);
    if PeekToken(raw, pos) != Some(RParen) {
      ExprHeadForms(raw, pk.cursor);
      var (car, p1) := ExprAt(raw, pk.cursor);
      if car.Ok? {
        var pk1 := Peek(raw, p1);
        if PeekToken(raw, p1) == Some(Dot) {
          var (d, p2) := Expect(raw, pk1.cursor, Dot);
          if d.Ok? {
            ExprHeadForms(raw, p2);
          }
        } else {
          ListHeadForms(raw, pk1.cursor);
        }
      }
    }
  }

  /** Every form of a program has that shape too. */
  lemma {:induction false} ProgramHeadForms(raw: string, pos: nat)
    requires pos <= |raw| + 1
    ensures ProgramFrom(raw, pos).Ok? ==> HeadForms(ListOf(ProgramFrom(raw, pos).value))
    decreases |raw| + 1 - pos
  {
    var pk := Peek(raw, pos);
    if PeekToken(raw, pos).Some? {
      ExprHeadForms(raw, pk.cursor);
      var (x, p) := ExprAt(raw, pk.cursor);
      if x.Ok? {
        ProgramHeadForms(raw, p);
        if ProgramFrom(raw, p).Ok? {
          assert ([x.value] + ProgramFrom(raw, p).value)[1..] == ProgramFrom(raw, p).value;
        }
      }
    }
  }

  // ---------------------------------------------------------------------
  // The methods over a lexer

  /** `Node::parse`. */
  method Parse(lx: Lexer) returns (r: Result<Node, ParseError>)
    requires lx.Valid()
    modifies lx`curPos
    ensures lx.Valid()
    ensures (r, lx.curPos) == ExprAt(lx.raw, old(lx.curPos))
    decreases |lx.raw| + 1 - lx.curPos, 0
  {
    ghost var pos := lx.curPos;
    var t := lx.Next();
    if t.Err? {
      return Err(t.error);
    }
    if t.value.None? {
      return Err(EOF);
    }
    match t.value.value
    case LParen =>
      ghost var p1 := lx.curPos;
      var head := lx.PeekNextToken();
      if head.Ok? && head.value.1.TSymbol? && ParseSpecialForm(head.value.1.name).Some? {
        PeekAgain(lx.raw, p1);
        var name := lx.ConsumeSymbol();
        var rest := ParseList(lx);
        if rest.Err? {
          return rest;
        }
        r := Ok(NPair(NForm(ParseSpecialForm(head.value.1.name).value), rest.value));
      } else {
        r := ParseList(lx);
      }
    case Quote =>
      var x := Parse(lx);
      if x.Err? {
        return x;
      }
      r := Ok(NPair(NForm(SpecialForm.Quote), NPair(x.value, NIL)));
    case TNumber(n) => r := Ok(NNumber(n));
    case TSymbol(s) => r := Ok(NSymbol(SymbolFrom(s)));
    case TString(s) => r := Ok(NSymbol(SymbolFrom(s)));
    case RParen => r := Err(SyntaxError);
    case Dot => r := Err(SyntaxError);
  }

  /** `consume(t).map_err(SyntaxError)`. */
  method ExpectToken(lx: Lexer, t: Token) returns (r: Result<(), ParseError>)
    requires lx.Valid()
    modifies lx`curPos
    ensures lx.Valid()
    ensures (r, lx.curPos) == Expect(lx.raw, old(lx.curPos), t)
  {
    var c := lx.Consume(t);
    r := if c.Ok? then Ok(()) else Err(SyntaxError);
  }

  /** `Node::parse_list`. */
  method ParseList(lx: Lexer) returns (r: Result<Node, ParseError>)
    requires lx.Valid()
    modifies lx`curPos
    ensures lx.Valid()
    ensures (r, lx.curPos) == ListAt(lx.raw, old(lx.curPos))
    decreases |lx.raw| + 1 - lx.curPos, 1
  {
    var head := lx.PeekNextToken();
    if head.Ok? && head.value.1 == RParen {
      var x := ExpectToken(lx, RParen);
      if x.Err? {
        return Err(x.error);
      }
      return Ok(NIL);
    }
    var car := Parse(lx);
    if car.Err? {
      return car;
    }
    var next := lx.PeekNextToken();
    var cdr;
    if next.Ok? && next.value.1 == Dot {
      var d := ExpectToken(lx, Dot);
      if d.Err? {
        return Err(d.error);
      }
      cdr := Parse(lx);
      if cdr.Err? {
        return cdr;
      }
      var c := ExpectToken(lx, RParen);
      if c.Err? {
        return Err(c.error);
      }
    } else {
      cdr := ParseList(lx);
      if cdr.Err? {
        return cdr;
      }
    }
    r := Ok(NPair(car.value, cdr.value));
  }

  /** `xs` followed by the forms of `r`, or the error of `r`. */
  function Prepend(xs: seq<Node>, r: Result<seq<Node>, ParseError>): Result<seq<Node>, ParseError> {
    if r.Ok? then Ok(xs + r.value) else r
  }

  /** A program whose next look-ahead sees a token continues with the
      expression read there. */
  lemma ProgramNext(s: string, pos: nat)
    requires pos <= |s| + 1 && Peek(s, pos).res.Ok?
    requires ExprAt(s, Peek(s, pos).cursor).0.Ok?
    ensures var (x, p) := ExprAt(s, Peek(s, pos).cursor);
            ProgramFrom(s, pos) == Prepend([x.value], ProgramFrom(s, p))
  {
  }

  lemma PrependSnoc(xs: seq<Node>, x: Node, r: Result<seq<Node>, ParseError>)
    ensures Prepend(xs, Prepend([x], r)) == Prepend(xs + [x], r)
  {
    if r.Ok? {
      assert xs + ([x] + r.value) == (xs + [x]) + r.value;
    }
  }

  /** `Node::from_str`: the forms of the text, wrapped in `(begin ...)`. */
  method FromStr(s: string) returns (r: Result<Node, ParseError>)
    ensures ProgramFrom(s, 0).Ok? ==> r == Ok(NPair(NForm(Begin), ListOf(ProgramFrom(s, 0).value)))
    ensures ProgramFrom(s, 0).Err? ==> r == Err(ProgramFrom(s, 0).error)
  {
    var lx := new Lexer(s);
    var nodes: seq<Node> := [];
    if ProgramFrom(s, 0).Ok? {
      assert [] + ProgramFrom(s, 0).value == ProgramFrom(s, 0).value;
    }
    while true
      invariant lx.raw == s && lx.Valid()
      invariant ProgramFrom(s, 0) == Prepend(nodes, ProgramFrom(s, lx.curPos))
      decreases |s| + 1 - lx.curPos
    {
      ghost var pos := lx.curPos;
      var next := lx.PeekNextToken();
      if next.Err? {
        assert ProgramFrom(s, pos) == Ok([]);
        assert nodes + [] == nodes;
        var items := FromIter(nodes);
        return Ok(NPair(NForm(Begin), items));
      }
      var x := Parse(lx);
      if x.Err? {
        return Err(x.error);
      }
      ProgramNext(s, pos);
      PrependSnoc(nodes, x.value, ProgramFrom(s, lx.curPos));
      nodes := nodes + [x.value];
    }
  }
}
