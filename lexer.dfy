/** The tokenizer (src/lexer.rs).  A `Lexer` holds the text and a cursor;
    every scan is also given as a function of the text and a position, and
    the methods are proved to compute those functions.  Characters are
    taken to be ASCII, so that a character index and a byte index agree. */
module Lexer {
  import opened Wrappers
  import opened Numbers
  import opened Text

  datatype Token =
    | LParen
    | RParen
    | Quote
    | Dot
    | TNumber(num: Number)
    | TSymbol(name: string)
    | TString(text: string)

  /** `ParseError` (declared in src/parser.rs).  `Overflow` stands for the
      panic of `parse::<i64>().unwrap()` on an integer literal outside the
      range of `i64`. */
  datatype ParseError = SyntaxError | EOF | Overflow

  predicate IsWhitespace(c: char) { c == ' ' || c == '\n' || c == '\t' }

  /** The characters that end a symbol. */
  predicate IsSpecial(c: char) { c == '(' || c == ')' || c == '\'' || IsWhitespace(c) }

  /** The first position at or after `pos` that does not hold whitespace. */
  function SkipWs(raw: string, pos: nat): (p: nat)
    ensures pos <= p && (p == pos || p <= |raw|)
    ensures p < |raw| ==> !IsWhitespace(raw[p])
    ensures forall i | pos <= i < p :: IsWhitespace(raw[i])
    decreases |raw| - pos
  {
    if pos < |raw| && IsWhitespace(raw[pos]) then SkipWs(raw, pos + 1) else pos
  }

  /** The first position at or after `pos` that holds `c`, or the end. */
  function Until(raw: string, pos: nat, c: char): (p: nat)
    ensures pos <= p && (p == pos || p <= |raw|)
    ensures p < |raw| ==> raw[p] == c
    ensures forall i | pos <= i < p :: raw[i] != c
    decreases |raw| - pos
  {
    if pos < |raw| && raw[pos] != c then Until(raw, pos + 1, c) else pos
  }

  /** Where a symbol that starts at `pos` ends: at the first special
      character, which it does not include, or at the end of the text. */
  function SymbolEnd(raw: string, pos: nat): (p: nat)
    ensures pos <= p && (p == pos || p <= |raw|)
    ensures p < |raw| ==> IsSpecial(raw[p])
    ensures forall i | pos <= i < p :: !IsSpecial(raw[i])
    decreases |raw| - pos
  {
    if pos < |raw| && !IsSpecial(raw[pos]) then SymbolEnd(raw, pos + 1) else pos
  }

  // ---------------------------------------------------------------------
  // Numbers

  /** The states of `peek_number`'s recognizer. */
  datatype NumState = Start | NegSym | Integer | DotSeen | Fraction

  /** One transition of the recognizer, or None where it stops. */
  function NumStep(c: char, st: NumState): Option<NumState> {
    if c == '-' && st.Start? then Some(NegSym)
    else if IsDigit(c) && (st.Start? || st.NegSym? || st.Integer?) then Some(Integer)
    else if c == '.' && st.Integer? then Some(DotSeen)
    else if IsDigit(c) && (st.DotSeen? || st.Fraction?) then Some(Fraction)
    else None
  }

  /** Runs the recognizer from `pos` in state `st` until it stops or the
      text ends; gives the position where it stopped and its final state. */
  function NumRun(raw: string, pos: nat, st: NumState): (r: (nat, NumState))
    ensures pos <= r.0 && (r.0 == pos || r.0 <= |raw|)
    ensures r.0 < |raw| ==> NumStep(raw[r.0], r.1).None?
    decreases |raw| - pos
  {
    if pos < |raw| && NumStep(raw[pos], st).Some? then NumRun(raw, pos + 1, NumStep(raw[pos], st).value)
    else (pos, st)
  }

  function DigitValue(c: char): int { c as int - '0' as int }

  /** The value of a string of decimal digits. */
  function DigitsValue(s: string): int
    decreases |s|
  {
    if s == [] then 0 else DigitsValue(s[..|s| - 1]) * 10 + DigitValue(s[|s| - 1])
  }

  /** Ten to the `k`. */
  function Pow10(k: nat): (r: nat)
    ensures r > 0
  {
    if k == 0 then 1 else 10 * Pow10(k - 1)
  }

  /** The value of `-?digits`. */
  function IntText(s: string): int {
    if |s| > 0 && s[0] == '-' then -DigitsValue(s[1..]) else DigitsValue(s)
  }

  /** The exact value of `-?digits.digits`. */
  function FloatText(s: string): real {
    var neg := |s| > 0 && s[0] == '-';
    var body := if neg then s[1..] else s;
    var d := Until(body, 0, '.');
    var whole := DigitsValue(body[..d]);
    var frac := if d < |body| then body[d + 1..] else [];
    var v := whole as real + DigitsValue(frac) as real / Pow10(|frac|) as real;
    if neg then -v else v
  }

  /** What `peek_number` returns for a number that starts at `pos`. */
  function NumberToken(raw: string, pos: nat): (r: Result<(nat, Token), ParseError>)
    ensures r.Ok? ==> pos < r.value.0 && r.value.0 <= |raw|
  {
    var (end, st) := NumRun(raw, pos, Start);
    match st
    case NegSym => Ok((end, TSymbol("-")))
    case Integer =>
      var v := IntText(raw[pos..end]);
      if -TWO_63 <= v < TWO_63 then Ok((end, TNumber(Int(v)))) else Err(Overflow)
    case Fraction => Ok((end, TNumber(Float(Finite(FloatText(raw[pos..end]))))))
    case _ => Err(SyntaxError)
  }

  // ---------------------------------------------------------------------
  // Scanning one token

  /** The outcome of `peek_next_token` from cursor `pos`: the token and the
      position after it, and where the cursor is left.  The cursor moves
      past comments only. */
  datatype Peeked = Peeked(res: Result<(nat, Token), ParseError>, cursor: nat)

  /** `peek_next_token`: skips whitespace, then reads one token; a comment
      runs from `;` to the next newline, moves the cursor there and starts
      over.  A string runs to the next `"` or the end of the text. */
  function Peek(raw: string, pos: nat): (r: Peeked)
    ensures pos <= r.cursor && (r.cursor == pos || r.cursor <= |raw|)
    ensures r.res.Ok? ==> r.cursor < r.res.value.0 <= |raw| + 1
    decreases |raw| - pos
  {
    var p := SkipWs(raw, pos);
    if p >= |raw| then Peeked(Err(EOF), pos)
    else
      var c := raw[p];
      if c == '(' then Peeked(Ok((p + 1, LParen)), pos)
      else if c == ')' then Peeked(Ok((p + 1, RParen)), pos)
      else if c == '\'' then Peeked(Ok((p + 1, Quote)), pos)
      else if c == '.' then Peeked(Ok((p + 1, Dot)), pos)
      else if c == '"' then
        var q := Until(raw, p + 1, '"');
        Peeked(Ok((q + 1, TString(raw[p + 1..q]))), pos)
      else if c == ';' then Peek(raw, Until(raw, p + 1, '\n'))
      else if c == '-' || IsDigit(c) then Peeked(NumberToken(raw, p), pos)
      else Peeked(Ok((SymbolEnd(raw, p), TSymbol(raw[p..SymbolEnd(raw, p)]))), pos)
  }

  /** `try_next`: the token, and the cursor after it (after the skipped
      comments when there is none). */
  function Advance(raw: string, pos: nat): (r: (Result<Token, ParseError>, nat)) {
    var pk := Peek(raw, pos);
    if pk.res.Ok? then (Ok(pk.res.value.1), pk.res.value.0) else (Err(pk.res.error), pk.cursor)
  }

  /** `Iterator::next`: None at the end of the text.  Any other lexical
      error panics in the source; here it is returned as the error. */
  function NextItem(raw: string, pos: nat): (r: (Result<Option<Token>, ParseError>, nat)) {
    var (t, p) := Advance(raw, pos);
    if t.Ok? then (Ok(Some(t.value)), p)
    else if t.error.EOF? then (Ok(None), p)
    else (Err(t.error), p)
  }

  /** The whole stream the iterator yields from `pos`. */
  function TokensFrom(raw: string, pos: nat): (r: Result<seq<Token>, ParseError>)
    decreases |raw| + 1 - pos
  {
    if pos > |raw| + 1 then Ok([])
    else
      var (t, p) := NextItem(raw, pos);
      if t.Err? then Err(t.error)
      else if t.value.None? then Ok([])
      else match TokensFrom(raw, p)
        case Ok(rest) => Ok([t.value.value] + rest)
        case Err(e) => Err(e)
  }

  // ---------------------------------------------------------------------
  // What the scans promise

  /** Peeking again from where a peek left the cursor sees the same token
      and leaves the cursor where it is: a peek consumes comments and
      nothing else. */
  lemma {:induction false} PeekAgain(raw: string, pos: nat)
    ensures Peek(raw, Peek(raw, pos).cursor) == Peek(raw, pos)
    decreases |raw| - pos
  {
    var p := SkipWs(raw, pos);
    if p < |raw| && raw[p] == ';' {
      PeekAgain(raw, Until(raw, p + 1, '\n'));
    }
  }

  /** Whitespace up to the end yields no tokens. */
  lemma BlankYieldsNothing(raw: string, pos: nat)
    requires pos <= |raw|
    requires forall i | pos <= i < |raw| :: IsWhitespace(raw[i])
    ensures TokensFrom(raw, pos) == Ok([])
  {
  }

  /** A comment yields no token: the scan goes on after its newline. */
  lemma CommentSkipped(raw: string, pos: nat)
    requires SkipWs(raw, pos) < |raw| && raw[SkipWs(raw, pos)] == ';'
    ensures Peek(raw, pos) == Peek(raw, Until(raw, SkipWs(raw, pos) + 1, '\n'))
  {
  }

  /** `(`, `)`, `'` and `.` are one-character tokens. */
  lemma Punctuation(raw: string, pos: nat)
    requires SkipWs(raw, pos) < |raw|
    ensures var p := SkipWs(raw, pos); var c := raw[p];
      (c == '(' ==> Peek(raw, pos).res == Ok((p + 1, LParen))) &&
      (c == ')' ==> Peek(raw, pos).res == Ok((p + 1, RParen))) &&
      (c == '\'' ==> Peek(raw, pos).res == Ok((p + 1, Quote))) &&
      (c == '.' ==> Peek(raw, pos).res == Ok((p + 1, Dot)))
  {
  }

  predicate AllDigits(s: string) { forall i | 0 <= i < |s| :: IsDigit(s[i]) }

  /** The recognizer in state Integer or Fraction consumes a run of digits. */
  lemma {:induction false} DigitRun(raw: string, pos: nat, e: nat, st: NumState)
    requires pos <= e <= |raw| && AllDigits(raw[pos..e])
    requires st.Integer? || st.Fraction?
    ensures NumRun(raw, pos, st) == NumRun(raw, e, st)
    decreases e - pos
  {
    if pos < e {
      assert IsDigit(raw[pos..e][0]);
      assert raw[pos + 1..e] == raw[pos..e][1..];
      DigitRun(raw, pos + 1, e, st);
    }
  }

  /** The recognizer reads an optional `-` and a first digit into state
      Integer. */
  lemma SignedStart(raw: string, pos: nat, d: nat)
    requires pos <= d < |raw| && (d == pos || (d == pos + 1 && raw[pos] == '-')) && IsDigit(raw[d])
    ensures NumRun(raw, pos, Start) == NumRun(raw, d + 1, Integer)
  {
    if d > pos {
      assert NumRun(raw, pos, Start) == NumRun(raw, pos + 1, NegSym);
    }
  }

  /** `-?digits` followed by neither a digit nor `.` is an Int literal with
      its decimal value, or an overflow when that is outside `i64`. */
  lemma IntLiteral(raw: string, pos: nat, d: nat, e: nat)
    requires pos <= d < e <= |raw| && (d == pos || (d == pos + 1 && raw[pos] == '-'))
    requires AllDigits(raw[d..e]) && (e == |raw| || (!IsDigit(raw[e]) && raw[e] != '.'))
    ensures var v := (if d == pos then 1 else -1) * DigitsValue(raw[d..e]);
      NumberToken(raw, pos) == if -TWO_63 <= v < TWO_63 then Ok((e, TNumber(Int(v)))) else Err(Overflow)
  {
    assert IsDigit(raw[d..e][0]);
    SignedStart(raw, pos, d);
    DigitRun(raw, d + 1, e, Integer);
    assert raw[d + 1..e] == raw[d..e][1..];
    if d > pos {
      assert raw[pos..e][1..] == raw[d..e];
    }
  }

  /** The recognizer reads `-?digits.digits` into state Fraction. */
  lemma FloatRun(raw: string, pos: nat, d: nat, dot: nat, e: nat)
    requires pos <= d < dot < dot + 1 < e <= |raw| && (d == pos || (d == pos + 1 && raw[pos] == '-'))
    requires AllDigits(raw[d..dot]) && raw[dot] == '.' && AllDigits(raw[dot + 1..e])
    requires e == |raw| || !IsDigit(raw[e])
    ensures NumRun(raw, pos, Start) == (e, Fraction)
  {
    assert IsDigit(raw[d..dot][0]);
    SignedStart(raw, pos, d);
    assert raw[d + 1..dot] == raw[d..dot][1..];
    DigitRun(raw, d + 1, dot, Integer);
    assert IsDigit(raw[dot + 1..e][0]);
    assert NumRun(raw, dot, Integer) == NumRun(raw, dot + 2, Fraction);
    assert raw[dot + 2..e] == raw[dot + 1..e][1..];
    DigitRun(raw, dot + 2, e, Fraction);
  }

  /** `-?digits.digits` followed by a non-digit is a Float literal with its
      exact decimal value. */
  lemma FloatLiteral(raw: string, pos: nat, d: nat, dot: nat, e: nat)
    requires pos <= d < dot < dot + 1 < e <= |raw| && (d == pos || (d == pos + 1 && raw[pos] == '-'))
    requires AllDigits(raw[d..dot]) && raw[dot] == '.' && AllDigits(raw[dot + 1..e])
    requires e == |raw| || !IsDigit(raw[e])
    ensures NumberToken(raw, pos) == Ok((e, TNumber(Float(Finite(FloatText(raw[pos..e]))))))
  {
    FloatRun(raw, pos, d, dot, e);
  }

  /** A `-` not followed by a digit is the symbol `-`, one character long. */
  lemma LoneMinus(raw: string, pos: nat)
    requires pos < |raw| && raw[pos] == '-' && (pos + 1 == |raw| || !IsDigit(raw[pos + 1]))
    ensures NumberToken(raw, pos) == Ok((pos + 1, TSymbol("-")))
  {
    assert NumRun(raw, pos, Start) == NumRun(raw, pos + 1, NegSym) == (pos + 1, NegSym);
  }

  /** `-?digits.` with no digit after the dot is a syntax error. */
  lemma DotWithoutFraction(raw: string, pos: nat, d: nat, dot: nat)
    requires pos <= d < dot < |raw| && (d == pos || (d == pos + 1 && raw[pos] == '-'))
    requires AllDigits(raw[d..dot]) && raw[dot] == '.' && (dot + 1 == |raw| || !IsDigit(raw[dot + 1]))
    ensures NumberToken(raw, pos) == Err(SyntaxError)
  {
    assert IsDigit(raw[d..dot][0]);
    SignedStart(raw, pos, d);
    assert raw[d + 1..dot] == raw[d..dot][1..];
    DigitRun(raw, d + 1, dot, Integer);
    assert NumRun(raw, dot, Integer) == NumRun(raw, dot + 1, DotSeen) == (dot + 1, DotSeen);
  }

  /** Reading back the decimal rendering of a number gives the number. */
  lemma {:induction false} DigitsOfNat(n: nat)
    ensures DigitsValue(NatToString(n)) == n
    decreases n
  {
    if n >= 10 {
      var s := NatToString(n);
      assert s[..|s| - 1] == NatToString(n / 10);
      DigitsOfNat(n / 10);
      assert DigitValue(DigitChar(n % 10)) == n % 10 by {
        assert "0123456789"[n % 10] as int - '0' as int == n % 10;
      }
    } else {
      assert DigitValue(DigitChar(n)) == n by {
        assert "0123456789"[n] as int - '0' as int == n;
      }
    }
  }

  // ---------------------------------------------------------------------
  // The lexer object

  class Lexer {
    const raw: string
    var curPos: nat

    /** The cursor never passes the position after an unterminated string. */
    ghost predicate Valid()
      reads this
    {
      curPos <= |raw| + 1
    }

    constructor (s: string)
      ensures raw == s && curPos == 0 && Valid()
    {
      raw := s;
      curPos := 0;
    }

    /** `peek_symbol`. */
    method PeekSymbol(pos: nat) returns (r: (nat, Token))
      requires pos <= |raw|
      ensures r == (SymbolEnd(raw, pos), TSymbol(raw[pos..SymbolEnd(raw, pos)]))
    {
      var symbol := "";
      var p := pos;
      while p < |raw| && !IsSpecial(raw[p])
        invariant pos <= p <= |raw| && SymbolEnd(raw, p) == SymbolEnd(raw, pos)
        invariant symbol == raw[pos..p]
        decreases |raw| - p
      {
        symbol := symbol + [raw[p]];
        p := p + 1;
      }
      return (p, TSymbol(symbol));
    }

    /** `peek_number`: runs the recognizer over the text. */
    method PeekNumber(pos: nat) returns (r: Result<(nat, Token), ParseError>)
      ensures r == NumberToken(raw, pos)
    {
      var p := pos;
      var state := Start;
      while p < |raw| && NumStep(raw[p], state).Some?
        invariant pos <= p && (p <= |raw| || p == pos)
        invariant NumRun(raw, p, state) == NumRun(raw, pos, Start)
        decreases |raw| - p
      {
        state := NumStep(raw[p], state).value;
        p := p + 1;
      }
      match state
      case NegSym => r := Ok((p, TSymbol("-")));
      case Integer =>
        var v := IntText(raw[pos..p]);
        if -TWO_63 <= v < TWO_63 {
          r := Ok((p, TNumber(Int(v))));
        } else {
          r := Err(Overflow);
        }
      case Fraction => r := Ok((p, TNumber(Float(Finite(FloatText(raw[pos..p]))))));
      case _ => r := Err(SyntaxError);
    }

    /** The first position at or after `pos` that holds `c`, or the end. */
    method ScanUntil(pos: nat, c: char) returns (p: nat)
      ensures p == Until(raw, pos, c)
    {
      p := pos;
      while p < |raw| && raw[p] != c
        invariant pos <= p && Until(raw, p, c) == Until(raw, pos, c)
        decreases |raw| - p
      {
        p := p + 1;
      }
    }

    /** `peek_next_token`. */
    method PeekNextToken() returns (r: Result<(nat, Token), ParseError>)
      requires Valid()
      modifies this`curPos
      ensures Valid()
      ensures r == Peek(raw, old(curPos)).res && curPos == Peek(raw, old(curPos)).cursor
      decreases |raw| + 1 - curPos
    {
      var p := curPos;
      while p < |raw| && IsWhitespace(raw[p])
        invariant curPos <= p && (p <= |raw| || p == curPos)
        invariant SkipWs(raw, p) == SkipWs(raw, curPos)
        decreases |raw| - p
      {
        p := p + 1;
      }
      if p >= |raw| {
        return Err(EOF);
      }
      var c := raw[p];
      if c == '(' {
        r := Ok((p + 1, LParen));
      } else if c == ')' {
        r := Ok((p + 1, RParen));
      } else if c == '\'' {
        r := Ok((p + 1, Quote));
      } else if c == '.' {
        r := Ok((p + 1, Dot));
      } else if c == '"' {
        var q := ScanUntil(p + 1, '"');
        r := Ok((q + 1, TString(raw[p + 1..q])));
      } else if c == ';' {
        var q := ScanUntil(p + 1, '\n');
        curPos := q;
        r := PeekNextToken();
      } else if c == '-' || IsDigit(c) {
        r := PeekNumber(p);
      } else {
        var s := PeekSymbol(p);
        r := Ok(s);
      }
    }

    /** `try_next`: the cursor moves to the end of the token returned. */
    method TryNext() returns (r: Result<Token, ParseError>)
      requires Valid()
      modifies this`curPos
      ensures Valid()
      ensures (r, curPos) == Advance(raw, old(curPos))
    {
      var t := PeekNextToken();
      if t.Err? {
        return Err(t.error);
      }
      curPos := t.value.0;
      r := Ok(t.value.1);
    }

    /** `consume`: succeeds exactly when the next token is `token`. */
    method Consume(token: Token) returns (r: Result<(), ParseError>)
      requires Valid()
      modifies this`curPos
      ensures Valid() && curPos == Advance(raw, old(curPos)).1
      ensures r.Ok? <==> Advance(raw, old(curPos)).0 == Ok(token)
      ensures Advance(raw, old(curPos)).0.Err? ==> r == Err(Advance(raw, old(curPos)).0.error)
      ensures Advance(raw, old(curPos)).0.Ok? && r.Err? ==> r == Err(SyntaxError)
    {
      var t := TryNext();
      if t.Err? {
        return Err(t.error);
      }
      if t.value == token {
        r := Ok(());
      } else {
        r := Err(SyntaxError);
      }
    }

    /** `consume_symbol`: the name of the next token when it is a symbol. */
    method ConsumeSymbol() returns (r: Result<string, ParseError>)
      requires Valid()
      modifies this`curPos
      ensures Valid() && curPos == Advance(raw, old(curPos)).1
      ensures r.Ok? <==> Advance(raw, old(curPos)).0.Ok? && Advance(raw, old(curPos)).0.value.TSymbol?
      ensures r.Ok? ==> r.value == Advance(raw, old(curPos)).0.value.name
    {
      var t := TryNext();
      if t.Err? {
        return Err(t.error);
      }
      if t.value.TSymbol? {
        r := Ok(t.value.name);
      } else {
        r := Err(SyntaxError);
      }
    }

    /** `Iterator::next`. */
    method Next() returns (r: Result<Option<Token>, ParseError>)
      requires Valid()
      modifies this`curPos
      ensures Valid()
      ensures (r, curPos) == NextItem(raw, old(curPos))
    {
      var t := TryNext();
      if t.Ok? {
        r := Ok(Some(t.value));
      } else if t.error.EOF? {
        r := Ok(None);
      } else {
        r := Err(t.error);
      }
    }
  }
}
