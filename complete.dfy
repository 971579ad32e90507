/** Word completion for the interactive prompt (src/repl_complete.rs): the
    word under the cursor is the text after the last whitespace or `(`
    before the cursor, and the suggestions are the known names that start
    with it, in the order they are known. */
module Complete {
  import opened Wrappers

  /** A suggestion as the line editor receives it. */
  datatype Pair = Pair(display: string, replacement: string)

  /** The verdicts of the line editor's validator. */
  datatype Validation = Valid | Incomplete | Invalid

  /** Whitespace as `char::is_whitespace` decides it: the characters with
      the Unicode `White_Space` property. */
  predicate IsSpace(c: char) {
    ('\t' <= c <= '\r') || c == ' ' || c == '\U{0085}' || c == '\U{00A0}' || c == '\U{1680}' ||
    ('\U{2000}' <= c <= '\U{200A}') || c == '\U{2028}' || c == '\U{2029}' || c == '\U{202F}' ||
    c == '\U{205F}' || c == '\U{3000}'
  }

  /** A character that ends the word before the cursor. */
  predicate IsBreak(c: char) {
    IsSpace(c) || c == '('
  }

  /** `rfind`: the last position of `s` holding a break character. */
  function LastBreak(s: string): (r: Option<nat>)
    ensures r.Some? ==> r.value < |s| && IsBreak(s[r.value])
    ensures r.Some? ==> forall j | r.value < j < |s| :: !IsBreak(s[j])
    ensures r.None? ==> forall j | 0 <= j < |s| :: !IsBreak(s[j])
    decreases |s|
  {
    if s == [] then None
    else if IsBreak(s[|s| - 1]) then Some(|s| - 1)
    else LastBreak(s[..|s| - 1])
  }

  /** Where the word under the cursor starts: one past the last break
      before `pos`, or 0 when there is none. */
  function WordStart(line: string, pos: nat): (start: nat)
    requires pos <= |line|
    ensures start <= pos
    ensures start == 0 || IsBreak(line[start - 1])
    ensures forall j | start <= j < pos :: !IsBreak(line[j])
  {
    match LastBreak(line[..pos])
    case None => 0
    case Some(i) => i + 1
  }

  predicate StartsWith(s: string, prefix: string) {
    prefix <= s
  }

  /** The candidates that start with `word`, each offered as itself. */
  function Matches(candidates: seq<string>, word: string): (r: seq<Pair>)
    decreases |candidates|
  {
    if candidates == [] then []
    else
      var rest := Matches(candidates[1..], word);
      if StartsWith(candidates[0], word) then [Pair(candidates[0], candidates[0])] + rest else rest
  }

  function Displays(ps: seq<Pair>): (r: seq<string>)
    ensures |r| == |ps| && forall i | 0 <= i < |ps| :: r[i] == ps[i].display
    decreases |ps|
  {
    if ps == [] then [] else [ps[0].display] + Displays(ps[1..])
  }

  /** `a` is `b` with some elements dropped, the rest kept in order. */
  predicate IsSubsequence<T(==)>(a: seq<T>, b: seq<T>)
    decreases |b|
  {
    if a == [] then true
    else if b == [] then false
    else if a[0] == b[0] then IsSubsequence(a[1..], b[1..])
    else IsSubsequence(a, b[1..])
  }

  /** `complete`: the start of the word under the cursor and the matching
      candidates. */
  function Complete(candidates: seq<string>, line: string, pos: nat): (r: (nat, seq<Pair>))
    requires pos <= |line|
    ensures r.0 <= pos
    ensures r.1 == Matches(candidates, line[r.0..pos])
  {
    var start := WordStart(line, pos);
    (start, Matches(candidates, line[start..pos]))
  }

  /** Every match shows the text it inserts, and that text starts with the
      word. */
  lemma {:induction false} MatchesShape(candidates: seq<string>, word: string)
    ensures forall p | p in Matches(candidates, word) :: p.display == p.replacement && StartsWith(p.display, word)
    decreases |candidates|
  {
    if candidates != [] {
      MatchesShape(candidates[1..], word);
    }
  }

  /** The matches are exactly the candidates starting with the word: each
      such candidate occurs as often as in the candidate list, any other
      never. */
  lemma {:induction false} MatchesExactly(candidates: seq<string>, word: string)
    ensures forall s :: multiset(Displays(Matches(candidates, word)))[s] ==
                        (if StartsWith(s, word) then multiset(candidates)[s] else 0)
    decreases |candidates|
  {
    if candidates != [] {
      MatchesExactly(candidates[1..], word);
      assert candidates == [candidates[0]] + candidates[1..];
      var rest := Matches(candidates[1..], word);
      if StartsWith(candidates[0], word) {
        assert Displays([Pair(candidates[0], candidates[0])] + rest) == [candidates[0]] + Displays(rest);
      }
    }
  }

  /** The matches keep the order of the candidate list. */
  lemma {:induction false} MatchesInOrder(candidates: seq<string>, word: string)
    ensures IsSubsequence(Displays(Matches(candidates, word)), candidates)
    decreases |candidates|
  {
    if candidates != [] {
      MatchesInOrder(candidates[1..], word);
      var rest := Displays(Matches(candidates[1..], word));
      if StartsWith(candidates[0], word) {
        assert Displays(Matches(candidates, word)) == [candidates[0]] + rest;
      } else {
        SubsequenceDropHead(rest, candidates);
      }
    }
  }

  lemma {:induction false} SubsequenceDropHead<T>(a: seq<T>, b: seq<T>)
    requires b != [] && IsSubsequence(a, b[1..])
    ensures IsSubsequence(a, b)
    decreases |b|, 0
  {
    if a != [] && a[0] == b[0] {
      SubsequenceTail(a, b[1..]);
    }
  }

  lemma {:induction false} SubsequenceTail<T>(a: seq<T>, b: seq<T>)
    requires a != [] && IsSubsequence(a, b)
    ensures IsSubsequence(a[1..], b)
    decreases |b|, 1
  {
    if a[0] != b[0] {
      SubsequenceTail(a, b[1..]);
      SubsequenceDropHead(a[1..], b);
    } else if a[1..] != [] {
      SubsequenceDropHead(a[1..], b);
    }
  }

  /** `hint`: the prompt never offers a hint. */
  function Hint(line: string, pos: nat): (r: Option<string>)
    ensures r.None?
  {
    None
  }

  /** `validate`: every line is accepted as it is. */
  function Validate(line: string): (r: Validation)
    ensures r.Valid?
  {
    Valid
  }
}
