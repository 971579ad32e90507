/** Environments as a chain of frames (src/env.rs).  A frame maps names to
    values and may point to an outer frame; frames live in a store indexed by
    number: the runtime heap for the compiled code, the interpreter's table of
    environments for the evaluator.  `define`, `get` and `set` are derived from
    the four primitives of a frame exactly as the trait derives them. */
module Env {
  import opened Wrappers

  datatype Frame<V> = Frame(vars: map<string, V>, outer: Option<nat>)

  /** A store slot is `None` when it holds something that is not a frame. */
  type Store<V> = seq<Option<Frame<V>>>

  predicate IsFrame<V>(s: Store<V>, e: int) {
    0 <= e < |s| && s[e].Some?
  }

  /** Every frame's outer pointer leads to a frame. */
  predicate Closed<V>(s: Store<V>) {
    forall e | 0 <= e < |s| && s[e].Some? :: s[e].value.outer.Some? ==> IsFrame(s, s[e].value.outer.value)
  }

  /** The frames a lookup starting at `e` visits, innermost first, at most
      `fuel` of them. */
  function Chain<V>(s: Store<V>, e: nat, fuel: nat): (c: seq<nat>)
    requires Closed(s) && IsFrame(s, e)
    ensures |c| <= fuel
    ensures forall i | 0 <= i < |c| :: IsFrame(s, c[i])
    ensures fuel > 0 ==> |c| > 0 && c[0] == e
    decreases fuel
  {
    if fuel == 0 then []
    else if s[e].value.outer.Some? then [e] + Chain(s, s[e].value.outer.value, fuel - 1)
    else [e]
  }

  predicate Binds<V>(s: Store<V>, e: nat, key: string)
    requires IsFrame(s, e)
  {
    key in s[e].value.vars
  }

  /** `get_cur`: the binding in this frame only. */
  function GetCur<V>(s: Store<V>, e: nat, key: string): (r: Option<V>)
    requires IsFrame(s, e)
    ensures r.Some? <==> Binds(s, e, key)
  {
    if key in s[e].value.vars then Some(s[e].value.vars[key]) else None
  }

  /** `contains`: whether this frame itself binds the key. */
  predicate Contains<V>(s: Store<V>, e: nat, key: string)
    requires IsFrame(s, e)
  {
    GetCur(s, e, key).Some?
  }

  /** `insert_cur`, and `define`, which is `insert_cur` on the current frame. */
  function Define<V>(s: Store<V>, e: nat, key: string, value: V): (r: Store<V>)
    requires IsFrame(s, e)
    ensures |r| == |s| && IsFrame(r, e)
    ensures r[e].value.outer == s[e].value.outer
    ensures r[e].value.vars == s[e].value.vars[key := value]
    ensures forall i | 0 <= i < |s| && i != e :: r[i] == s[i]
  {
    s[e := Some(Frame(s[e].value.vars[key := value], s[e].value.outer))]
  }

  /** `get`: the current frame's binding, else the outer chain's. */
  function Get<V>(s: Store<V>, e: nat, key: string, fuel: nat): Option<V>
    requires Closed(s) && IsFrame(s, e)
    decreases fuel
  {
    if fuel == 0 then None
    else match (GetCur(s, e, key), s[e].value.outer)
      case (Some(v), _) => Some(v)
      case (None, Some(o)) => Get(s, o, key, fuel - 1)
      case (None, None) => None
  }

  /** `set`: overwrite the key in the current frame if it binds it, else try
      the outer chain; `None` when no frame binds the key. */
  function Set<V>(s: Store<V>, e: nat, key: string, value: V, fuel: nat): (r: (Store<V>, Option<V>))
    requires Closed(s) && IsFrame(s, e)
    decreases fuel
  {
    if fuel == 0 then (s, None)
    else if Contains(s, e, key) then (Define(s, e, key, value), Some(value))
    else if s[e].value.outer.Some? then Set(s, s[e].value.outer.value, key, value, fuel - 1)
    else (s, None)
  }

  /** The position of the innermost frame on the chain that binds the key. */
  predicate FirstBinder<V>(s: Store<V>, c: seq<nat>, key: string, i: nat)
    requires forall j | 0 <= j < |c| :: IsFrame(s, c[j])
  {
    i < |c| && Binds(s, c[i], key) && forall j | 0 <= j < i :: !Binds(s, c[j], key)
  }

  predicate Unbound<V>(s: Store<V>, c: seq<nat>, key: string)
    requires forall j | 0 <= j < |c| :: IsFrame(s, c[j])
  {
    forall j | 0 <= j < |c| :: !Binds(s, c[j], key)
  }

  lemma DefinePreservesClosed<V>(s: Store<V>, e: nat, key: string, value: V)
    requires Closed(s) && IsFrame(s, e)
    ensures Closed(Define(s, e, key, value))
  {
    var r := Define(s, e, key, value);
    forall i | 0 <= i < |r| && r[i].Some? && r[i].value.outer.Some?
      ensures IsFrame(r, r[i].value.outer.value)
    {
      assert IsFrame(s, s[i].value.outer.value);
    }
  }

  /** `get` answers with the innermost binding on the chain, and `None`
      exactly when no frame on the chain binds the key. */
  lemma {:induction false} GetIsInnermost<V>(s: Store<V>, e: nat, key: string, fuel: nat)
    requires Closed(s) && IsFrame(s, e)
    ensures var c := Chain(s, e, fuel);
      match Get(s, e, key, fuel)
      case None => Unbound(s, c, key)
      case Some(v) => exists i: nat :: FirstBinder(s, c, key, i) && v == s[c[i]].value.vars[key]
    decreases fuel
  {
    var c := Chain(s, e, fuel);
    if fuel == 0 {
    } else if Binds(s, e, key) {
      assert FirstBinder(s, c, key, 0);
    } else if s[e].value.outer.Some? {
      var o := s[e].value.outer.value;
      var c' := Chain(s, o, fuel - 1);
      assert c == [e] + c';
      GetIsInnermost(s, o, key, fuel - 1);
      match Get(s, o, key, fuel - 1)
      case None =>
        forall j | 0 <= j < |c| ensures !Binds(s, c[j], key) {
          if j > 0 { assert c[j] == c'[j - 1]; }
        }
      case Some(v) =>
        var i: nat :| FirstBinder(s, c', key, i) && v == s[c'[i]].value.vars[key];
        assert FirstBinder(s, c, key, i + 1) by {
          forall j | 0 <= j < i + 1 ensures !Binds(s, c[j], key) {
            if j > 0 { assert c[j] == c'[j - 1]; }
          }
        }
    } else {
      assert c == [e];
    }
  }

  /** `set` rewrites the binding in the innermost frame on the chain that
      binds the key and changes no other frame; when no frame binds it, the
      store is left unchanged and the answer is `None`. */
  lemma SetUpdatesInnermost<V>(s: Store<V>, e: nat, key: string, value: V, fuel: nat)
    requires Closed(s) && IsFrame(s, e)
    ensures var c := Chain(s, e, fuel);
      var (s', r) := Set(s, e, key, value, fuel);
      (Unbound(s, c, key) ==> s' == s && r == None) &&
      (forall i: nat :: FirstBinder(s, c, key, i) ==> r == Some(value) && s' == Define(s, c[i], key, value))
  {
    if Unbound(s, Chain(s, e, fuel), key) {
      SetUnbound(s, e, key, value, fuel);
    }
    forall i: nat | FirstBinder(s, Chain(s, e, fuel), key, i)
      ensures Set(s, e, key, value, fuel) == (Define(s, Chain(s, e, fuel)[i], key, value), Some(value))
    {
      SetFirstBinder(s, e, key, value, fuel, i);
    }
  }

  /** `set` of a key no frame on the chain binds changes nothing. */
  lemma {:induction false} SetUnbound<V>(s: Store<V>, e: nat, key: string, value: V, fuel: nat)
    requires Closed(s) && IsFrame(s, e) && Unbound(s, Chain(s, e, fuel), key)
    ensures Set(s, e, key, value, fuel) == (s, None)
    decreases fuel
  {
    var c := Chain(s, e, fuel);
    if fuel > 0 {
      assert !Binds(s, c[0], key);
      if s[e].value.outer.Some? {
        var o := s[e].value.outer.value;
        var c' := Chain(s, o, fuel - 1);
        assert c == [e] + c';
        forall j | 0 <= j < |c'| ensures !Binds(s, c'[j], key) { assert c'[j] == c[j + 1]; }
        SetUnbound(s, o, key, value, fuel - 1);
      }
    }
  }

  /** `set` overwrites the key in the innermost frame binding it. */
  lemma {:induction false} SetFirstBinder<V>(s: Store<V>, e: nat, key: string, value: V, fuel: nat, i: nat)
    requires Closed(s) && IsFrame(s, e) && FirstBinder(s, Chain(s, e, fuel), key, i)
    ensures Set(s, e, key, value, fuel) == (Define(s, Chain(s, e, fuel)[i], key, value), Some(value))
    decreases fuel
  {
    var c := Chain(s, e, fuel);
    if i > 0 {
      assert !Binds(s, c[0], key);
      var o := s[e].value.outer.value;
      var c' := Chain(s, o, fuel - 1);
      assert c == [e] + c';
      forall j | 0 <= j < i - 1 ensures !Binds(s, c'[j], key) { assert c'[j] == c[j + 1]; }
      SetFirstBinder(s, o, key, value, fuel - 1, i - 1);
    }
  }

  /** After `define`, `get` from the same frame finds the new value. */
  lemma DefineThenGet<V>(s: Store<V>, e: nat, key: string, value: V, fuel: nat)
    requires Closed(s) && IsFrame(s, e) && fuel > 0
    ensures Closed(Define(s, e, key, value))
    ensures Get(Define(s, e, key, value), e, key, fuel) == Some(value)
  {
    DefinePreservesClosed(s, e, key, value);
  }

  /** `define` on one key does not change what any frame's `get` answers for
      another key. */
  lemma {:induction false} DefineOtherKey<V>(s: Store<V>, e: nat, key: string, value: V, e': nat, key': string, fuel: nat)
    requires Closed(s) && IsFrame(s, e) && IsFrame(s, e') && key' != key
    ensures Closed(Define(s, e, key, value))
    ensures Get(Define(s, e, key, value), e', key', fuel) == Get(s, e', key', fuel)
    decreases fuel
  {
    DefinePreservesClosed(s, e, key, value);
    var r := Define(s, e, key, value);
    assert GetCur(r, e', key') == GetCur(s, e', key');
    if fuel > 0 && GetCur(s, e', key').None? && s[e'].value.outer.Some? {
      DefineOtherKey(s, e, key, value, s[e'].value.outer.value, key', fuel - 1);
    }
  }
}
