/**
 * stringify, operator== and the move constructor of json/json.cpp as
 * imperative code: loops that build the text or compare element by
 * element, each proved equal to a specification function.
 */
module JsonOps {
  import opened Wrappers
  import Json

  // ------------------------------------------------------------ stringify

  lemma EscapeSnoc(t: string, i: nat)
    requires i < |t|
    ensures Json.Escape(t[..i + 1]) == Json.Escape(t[..i]) + Json.EscapeChar(t[i])
  {
    assert t[..i + 1] == t[..i] + [t[i]];
    Json.EscapeAppend(t[..i], [t[i]]);
    assert Json.Escape([t[i]]) == Json.EscapeChar(t[i]) + Json.Escape([]);
  }

  /** The string case of stringify: each character escaped in turn, between quotes. */
  method QuoteString(t: string) returns (r: string)
    ensures r == Json.Quote(t)
  {
    r := "\"";
    for i := 0 to |t|
      invariant r == "\"" + Json.Escape(t[..i])
    {
      EscapeSnoc(t, i);
      r := r + Json.EscapeChar(t[i]);
    }
    assert t[..|t|] == t;
    r := r + "\"";
  }

  /** stringify(v): a comma before every element or member but the first. */
  method Stringify(v: Json.Value) returns (r: string)
    ensures r == Json.Stringify(v)
    decreases v, 1
  {
    match v
    case Null =>
      r := "null";
    case Bool(b) =>
      r := if b then "true" else "false";
    case Number(t) =>
      r := if t == [] then "0" else t;
    case Str(t) =>
      r := QuoteString(t);
    case Arr(es) =>
      var body := StringifyElems(es);
      r := "[" + body + "]";
    case Obj(ms) =>
      var body := StringifyMembers(ms);
      r := "{" + body + "}";
  }

  /** The loop of the array case. */
  method StringifyElems(es: seq<Json.Value>) returns (r: string)
    ensures r == Json.Elems(es)
    decreases es, 0
  {
    r := "";
    for i := 0 to |es|
      invariant r == Json.Elems(es[..i])
    {
      assert es[..i + 1][..i] == es[..i] && es[..i + 1][i] == es[i];
      var e := Stringify(es[i]);
      r := if i == 0 then e else r + "," + e;
    }
    assert es[..|es|] == es;
  }

  /** The loop of the object case: each key is written as a string, then ':', then the value. */
  method StringifyMembers(ms: seq<(string, Json.Value)>) returns (r: string)
    ensures r == Json.Members(ms)
    decreases ms, 0
  {
    r := "";
    for i := 0 to |ms|
      invariant r == Json.Members(ms[..i])
    {
      assert ms[..i + 1][..i] == ms[..i] && ms[..i + 1][i] == ms[i];
      var (key, x) := ms[i];
      assert ms[i] in ms && x < ms[i];
      var q := QuoteString(key);
      var e := Stringify(x);
      r := if i == 0 then q + ":" + e else r + "," + (q + ":" + e);
    }
    assert ms[..|ms|] == ms;
  }

  // ------------------------------------------------------------ equality

  /**
   * operator== as written: for each member of a, the inner loop looks at
   * b's first member only and returns false unless its key matches.
   */
  function EqAsWritten(a: Json.Value, b: Json.Value): bool
    decreases a, 1
  {
    match a
    case Null => b.Null?
    case Bool(x) => b.Bool? && x == b.b
    case Number(t) => b.Number? && t == b.text
    case Str(t) => b.Str? && t == b.s
    case Arr(es) => b.Arr? && |es| == |b.elems| && ElemsEqAsWritten(es, b.elems)
    case Obj(ms) => b.Obj? && |ms| == |b.members| && MembersEqAsWritten(ms, b.members)
  }

  function ElemsEqAsWritten(es: seq<Json.Value>, fs: seq<Json.Value>): bool
    decreases es, 0
  {
    |es| == 0 || (|fs| > 0 && EqAsWritten(es[0], fs[0]) && ElemsEqAsWritten(es[1..], fs[1..]))
  }

  function MembersEqAsWritten(ms: seq<(string, Json.Value)>, ns: seq<(string, Json.Value)>): bool
    decreases ms, 0
  {
    if |ms| == 0 then true
    else
      var (key, x) := ms[0];
      assert ms[0] in ms && x < ms[0];
      |ns| > 0 && key == ns[0].0 && EqAsWritten(x, ns[0].1) && MembersEqAsWritten(ms[1..], ns)
  }

  /** The value of the first member of ns with the given key. */
  function Lookup(ns: seq<(string, Json.Value)>, key: string): (r: Option<Json.Value>)
    ensures r.Some? <==> exists k :: 0 <= k < |ns| && ns[k].0 == key
  {
    if |ns| == 0 then None
    else if ns[0].0 == key then Some(ns[0].1)
    else
      var r := Lookup(ns[1..], key);
      assert forall k :: 0 < k < |ns| ==> ns[1..][k - 1] == ns[k];
      assert r.Some? ==> exists k :: 0 <= k < |ns[1..]| && ns[1..][k].0 == key;
      r
  }

  /**
   * operator== as evidently intended: the same type, arrays equal element
   * by element, and objects of the same size whose every member of a finds
   * the first member of b with its key and an equal value.
   */
  function Equal(a: Json.Value, b: Json.Value): bool
    decreases a, 1
  {
    match a
    case Null => b.Null?
    case Bool(x) => b.Bool? && x == b.b
    case Number(t) => b.Number? && t == b.text
    case Str(t) => b.Str? && t == b.s
    case Arr(es) => b.Arr? && |es| == |b.elems| && ElemsEqual(es, b.elems)
    case Obj(ms) => b.Obj? && |ms| == |b.members| && MembersEqual(ms, b.members)
  }

  function ElemsEqual(es: seq<Json.Value>, fs: seq<Json.Value>): bool
    decreases es, 0
  {
    |es| == 0 || (|fs| > 0 && Equal(es[0], fs[0]) && ElemsEqual(es[1..], fs[1..]))
  }

  function MembersEqual(ms: seq<(string, Json.Value)>, ns: seq<(string, Json.Value)>): bool
    decreases ms, 0
  {
    if |ms| == 0 then true
    else
      var (key, x) := ms[0];
      assert ms[0] in ms && x < ms[0];
      match Lookup(ns, key)
      case None => false
      case Some(y) => Equal(x, y) && MembersEqual(ms[1..], ns)
  }

  /** An object with two members is not equal to itself under operator== as written. */
  lemma AsWrittenNotReflexive(v: Json.Value)
    requires v == Json.Obj([("x", Json.Null), ("y", Json.Null)])
    ensures !EqAsWritten(v, v) && Equal(v, v)
  {
    var ms := v.members;
    assert ms[1..][0] == ("y", Json.Null);
    assert Lookup(ms, "y") == Some(Json.Null) by {
      assert ms[1..][0].0 == "y";
    }
    assert MembersEqual(ms[1..][1..], ms);
  }

  /** No object, at any depth, has two members with the same key. */
  predicate UniqueKeys(v: Json.Value)
    decreases v, 1
  {
    match v
    case Arr(es) => ElemsUniqueKeys(es)
    case Obj(ms) => (forall i, j :: 0 <= i < j < |ms| ==> ms[i].0 != ms[j].0) && MembersUniqueKeys(ms)
    case _ => true
  }

  predicate ElemsUniqueKeys(es: seq<Json.Value>)
    decreases es, 0
  {
    |es| == 0 || (UniqueKeys(es[0]) && ElemsUniqueKeys(es[1..]))
  }

  predicate MembersUniqueKeys(ms: seq<(string, Json.Value)>)
    decreases ms, 0
  {
    if |ms| == 0 then true
    else
      var (key, x) := ms[0];
      assert ms[0] in ms && x < ms[0];
      UniqueKeys(x) && MembersUniqueKeys(ms[1..])
  }

  /** With unique keys, looking up the key of the k-th member finds that member. */
  lemma {:induction false} LookupUnique(ns: seq<(string, Json.Value)>, k: nat)
    requires k < |ns| && forall i, j :: 0 <= i < j < |ns| ==> ns[i].0 != ns[j].0
    ensures Lookup(ns, ns[k].0) == Some(ns[k].1)
  {
    if k > 0 {
      assert ns[0].0 != ns[k].0;
      assert ns[1..][k - 1] == ns[k];
      LookupUnique(ns[1..], k - 1);
    }
  }

  /** The intended equality is reflexive on values whose objects have unique keys. */
  lemma {:induction false} EqualReflexive(v: Json.Value)
    requires UniqueKeys(v)
    ensures Equal(v, v)
    decreases v, 2
  {
    match v
    case Arr(es) => ElemsReflexive(es);
    case Obj(ms) => MembersReflexive(ms, 0);
    case _ =>
  }

  lemma {:induction false} ElemsReflexive(es: seq<Json.Value>)
    requires ElemsUniqueKeys(es)
    ensures ElemsEqual(es, es)
    decreases es, 1
  {
    if |es| > 0 {
      EqualReflexive(es[0]);
      ElemsReflexive(es[1..]);
    }
  }

  lemma {:induction false} MembersReflexive(ns: seq<(string, Json.Value)>, k: nat)
    requires k <= |ns| && MembersUniqueKeys(ns[k..])
    requires forall i, j :: 0 <= i < j < |ns| ==> ns[i].0 != ns[j].0
    ensures MembersEqual(ns[k..], ns)
    decreases ns, 1, |ns| - k
  {
    if k < |ns| {
      var (key, x) := ns[k];
      assert ns[k] in ns && x < ns[k];
      assert ns[k..][0] == ns[k] && ns[k..][1..] == ns[k + 1..];
      LookupUnique(ns, k);
      EqualReflexive(x);
      MembersReflexive(ns, k + 1);
    }
  }

  /** Every object, at any depth, has at most one member. */
  predicate SmallObjects(v: Json.Value)
    decreases v, 1
  {
    match v
    case Arr(es) => ElemsSmall(es)
    case Obj(ms) => |ms| <= 1 && (|ms| == 0 || (assert ms[0] in ms; SmallObjects(ms[0].1)))
    case _ => true
  }

  predicate ElemsSmall(es: seq<Json.Value>)
    decreases es, 0
  {
    |es| == 0 || (SmallObjects(es[0]) && ElemsSmall(es[1..]))
  }

  /** operator== as written is right whenever the left value's objects have at most one member. */
  lemma {:induction false} AsWrittenAgrees(a: Json.Value, b: Json.Value)
    requires SmallObjects(a)
    ensures EqAsWritten(a, b) == Equal(a, b)
    decreases a, 1
  {
    match a
    case Arr(es) =>
      if b.Arr? && |es| == |b.elems| {
        ElemsAgree(es, b.elems);
      }
    case Obj(ms) =>
      if b.Obj? && |ms| == |b.members| && |ms| == 1 {
        var ns := b.members;
        var (key, x) := ms[0];
        assert ms[0] in ms && x < ms[0];
        AsWrittenAgrees(x, ns[0].1);
        assert MembersEqAsWritten(ms[1..], ns) && MembersEqual(ms[1..], ns);
        assert Lookup(ns[1..], key) == None;
        assert Lookup(ns, key) == if ns[0].0 == key then Some(ns[0].1) else None;
      }
    case _ =>
  }

  lemma {:induction false} ElemsAgree(es: seq<Json.Value>, fs: seq<Json.Value>)
    requires ElemsSmall(es) && |es| == |fs|
    ensures ElemsEqAsWritten(es, fs) == ElemsEqual(es, fs)
    decreases es, 0
  {
    if |es| > 0 {
      AsWrittenAgrees(es[0], fs[0]);
      ElemsAgree(es[1..], fs[1..]);
    }
  }

  /**
   * operator== with the early return moved after the inner loop: each
   * member of a looks for the first member of b with its key.
   */
  method Equals(a: Json.Value, b: Json.Value) returns (r: bool)
    ensures r == Equal(a, b)
    decreases a
  {
    match a
    case Null =>
      r := b.Null?;
    case Bool(x) =>
      r := b.Bool? && x == b.b;
    case Number(t) =>
      r := b.Number? && t == b.text;
    case Str(t) =>
      r := b.Str? && t == b.s;
    case Arr(es) =>
      if !b.Arr? || |es| != |b.elems| {
        return false;
      }
      var fs := b.elems;
      for i := 0 to |es|
        invariant ElemsEqual(es, fs) == ElemsEqual(es[i..], fs[i..])
      {
        assert es[i..][1..] == es[i + 1..] && fs[i..][1..] == fs[i + 1..] && es[i] in es;
        var e := Equals(es[i], fs[i]);
        if !e {
          return false;
        }
      }
      r := true;
    case Obj(ms) =>
      if !b.Obj? || |ms| != |b.members| {
        return false;
      }
      var ns := b.members;
      for i := 0 to |ms|
        invariant MembersEqual(ms, ns) == MembersEqual(ms[i..], ns)
      {
        assert ms[i..][0] == ms[i] && ms[i..][1..] == ms[i + 1..] && ms[i] in ms;
        var (key, x) := ms[i];
        var j := 0;
        while j < |ns| && ns[j].0 != key
          invariant j <= |ns| && Lookup(ns[j..], key) == Lookup(ns, key)
        {
          assert ns[j..][1..] == ns[j + 1..];
          j := j + 1;
        }
        if j == |ns| {
          return false;
        }
        var e := Equals(x, ns[j].1);
        if !e {
          return false;
        }
      }
      r := true;
  }

  // ------------------------------------------------------------ ownership

  /** A json::Value as an object of its own, so that moving out of it can be seen. */
  class Cell {
    var value: Json.Value

    constructor (v: Json.Value)
      ensures value == v
    {
      value := v;
    }

    /** The move constructor: the new value takes over the payload and the old one becomes null. */
    constructor Move(src: Cell)
      modifies src
      ensures value == old(src.value) && src.value == Json.Null
    {
      value := src.value;
      src.value := Json.Null;
    }
  }
}
