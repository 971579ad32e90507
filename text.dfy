/** Decimal rendering of natural numbers, used wherever the source formats a
    `usize` into a name (`format!("#{i}_func_{id}")`). */
module Text {

  function DigitChar(d: nat): (c: char)
    requires d < 10
    ensures '0' <= c <= '9'
  {
    "0123456789"[d]
  }

  predicate IsDigit(c: char) { '0' <= c <= '9' }

  /** `format!("{n}")` for a `usize`. */
  function NatToString(n: nat): (s: string)
    ensures |s| > 0
    ensures forall k | 0 <= k < |s| :: IsDigit(s[k])
    decreases n
  {
    if n < 10 then [DigitChar(n)] else NatToString(n / 10) + [DigitChar(n % 10)]
  }

  lemma DigitCharInjective(a: nat, b: nat)
    requires a < 10 && b < 10 && DigitChar(a) == DigitChar(b)
    ensures a == b
  {
  }

  /** Distinct numbers render as distinct strings. */
  lemma {:induction false} NatToStringInjective(a: nat, b: nat)
    requires NatToString(a) == NatToString(b)
    ensures a == b
    decreases a
  {
    var s := NatToString(a);
    if a < 10 && b < 10 {
      DigitCharInjective(a, b);
    } else if a >= 10 && b >= 10 {
      var sa, sb := NatToString(a / 10), NatToString(b / 10);
      assert s == sa + [DigitChar(a % 10)];
      assert s == sb + [DigitChar(b % 10)];
      assert sa == s[..|s| - 1] == sb;
      DigitCharInjective(a % 10, b % 10);
      NatToStringInjective(a / 10, b / 10);
    }
  }

  /** The name the n-th parameter of closure `id` is stored under. */
  function ParamName(i: nat, id: string): string {
    "#" + NatToString(i) + "_func_" + id
  }

  /** Different parameter positions of one closure get different names. */
  lemma ParamNameInjective(i: nat, j: nat, id: string)
    requires ParamName(i, id) == ParamName(j, id)
    ensures i == j
  {
    var a, b := NatToString(i), NatToString(j);
    var s := ParamName(i, id);
    if |a| == |b| {
      assert a == s[1..1 + |a|] == b;
      NatToStringInjective(i, j);
    }
  }

  /** The variables of a frame in which `vals` were bound one after the
      other, the i-th under `#i_func_{id}`. */
  function Bindings(id: string, vals: seq<nat>): map<string, nat>
    decreases |vals|
  {
    if vals == [] then map[] else Bindings(id, vals[..|vals| - 1])[ParamName(|vals| - 1, id) := vals[|vals| - 1]]
  }

  /** The i-th value is found under the i-th name, and there is no other
      name. */
  lemma {:induction false} BindingsAt(id: string, vals: seq<nat>)
    ensures forall k | k in Bindings(id, vals) :: exists i | 0 <= i < |vals| :: k == ParamName(i, id)
    ensures forall i | 0 <= i < |vals| :: ParamName(i, id) in Bindings(id, vals) && Bindings(id, vals)[ParamName(i, id)] == vals[i]
    decreases |vals|
  {
    if vals != [] {
      var n := |vals| - 1;
      var p := vals[..n];
      BindingsAt(id, p);
      var b := Bindings(id, vals);
      assert b == Bindings(id, p)[ParamName(n, id) := vals[n]];
      forall i | 0 <= i < |vals| ensures ParamName(i, id) in b && b[ParamName(i, id)] == vals[i] {
        if i < n {
          if ParamName(i, id) == ParamName(n, id) {
            ParamNameInjective(i, n, id);
          }
          assert p[i] == vals[i];
        }
      }
      forall k | k in Bindings(id, vals) ensures exists i | 0 <= i < |vals| :: k == ParamName(i, id) {
        if k != ParamName(n, id) {
          var i :| 0 <= i < n && k == ParamName(i, id);
        }
      }
    }
  }
}
