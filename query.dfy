/** The page's query string as the list of name-value pairs a
    URLSearchParams object holds (section 6.2 of the WHATWG URL Standard),
    with its `get`, `set` and `delete` operations, and the location object
    whose query `setQueryParam` and `unsetQueryParam` rewrite. */
module Query {
  import opened Js

  datatype Param = Param(name: string, value: string)

  predicate HasName(q: seq<Param>, name: string) {
    exists i :: 0 <= i < |q| && q[i].name == name
  }

  /** The position of the first pair with the given name, -1 if none. */
  function FirstIndex(q: seq<Param>, name: string): (k: int)
    ensures -1 <= k < |q|
    ensures k == -1 <==> !HasName(q, name)
    ensures k >= 0 ==> q[k].name == name && forall j :: 0 <= j < k ==> q[j].name != name
  {
    if q == [] then -1
    else if q[0].name == name then 0
    else
      var k := FirstIndex(q[1..], name);
      assert forall j :: 0 < j < |q| ==> q[j] == q[1..][j - 1];
      if k == -1 then -1 else k + 1
  }

  /** `get(name)`: the value of the first pair with that name, null if none. */
  function Get(q: seq<Param>, name: string): (r: Option<string>)
    ensures r.None? <==> !HasName(q, name)
    ensures r.Some? ==>
      exists k :: 0 <= k < |q| && q[k] == Param(name, r.value) && forall j :: 0 <= j < k ==> q[j].name != name
  {
    var k := FirstIndex(q, name);
    if k == -1 then None else Some(q[k].value)
  }

  /** The pairs with the given name, in order. */
  function Named(q: seq<Param>, name: string): (r: seq<Param>)
    ensures forall p :: p in r <==> p in q && p.name == name
  {
    if q == [] then []
    else (if q[0].name == name then [q[0]] else []) + Named(q[1..], name)
  }

  /** `delete(name)`: remove every pair with that name. */
  function Delete(q: seq<Param>, name: string): (r: seq<Param>)
    ensures forall p :: p in r <==> p in q && p.name != name
  {
    if q == [] then []
    else (if q[0].name == name then [] else [q[0]]) + Delete(q[1..], name)
  }

  /** `set(name, value)`: if a pair with that name exists, the first one
      takes the value and the others are removed; otherwise the pair is
      appended. */
  function Set(q: seq<Param>, name: string, value: string): seq<Param> {
    if q == [] then [Param(name, value)]
    else if q[0].name == name then [Param(name, value)] + Delete(q[1..], name)
    else [q[0]] + Set(q[1..], name, value)
  }

  lemma {:induction false} DeleteAbsent(q: seq<Param>, name: string)
    requires !HasName(q, name)
    ensures Delete(q, name) == q
  {
    if q != [] {
      assert !HasName(q[1..], name) by {
        assert forall j :: 0 <= j < |q| - 1 ==> q[1..][j] == q[j + 1];
      }
      DeleteAbsent(q[1..], name);
    }
  }

  /** Deleting a name leaves the pairs of every other name as they were,
      in the same order. */
  lemma {:induction false} DeleteKeepsOthers(q: seq<Param>, name: string, other: string)
    requires other != name
    ensures Named(Delete(q, name), other) == Named(q, other)
  {
    if q != [] {
      DeleteKeepsOthers(q[1..], name, other);
      var head := if q[0].name == name then [] else [q[0]];
      NamedAppend(head, Delete(q[1..], name), other);
    }
  }

  lemma {:induction false} NamedAppend(a: seq<Param>, b: seq<Param>, name: string)
    ensures Named(a + b, name) == Named(a, name) + Named(b, name)
  {
    if a != [] {
      var head := if a[0].name == name then [a[0]] else [];
      assert (a + b)[0] == a[0] && (a + b)[1..] == a[1..] + b;
      assert Named(a + b, name) == head + Named(a[1..] + b, name);
      assert Named(a, name) == head + Named(a[1..], name);
      NamedAppend(a[1..], b, name);
    } else {
      assert a + b == b;
    }
  }

  lemma {:induction false} DeleteIdempotent(q: seq<Param>, name: string)
    ensures Delete(Delete(q, name), name) == Delete(q, name)
  {
    DeleteAbsent(Delete(q, name), name);
  }

  lemma {:induction false} NamedAbsent(q: seq<Param>, name: string)
    requires !HasName(q, name)
    ensures Named(q, name) == []
  {
    if q != [] {
      assert !HasName(q[1..], name) by {
        assert forall j :: 0 <= j < |q| - 1 ==> q[1..][j] == q[j + 1];
      }
      NamedAbsent(q[1..], name);
    }
  }

  lemma NamedSingle(p: Param, name: string)
    ensures Named([p], name) == if p.name == name then [p] else []
  {
    assert [p][1..] == [];
  }

  /** After `set(name, value)` exactly one pair has that name, and it holds
      the value. */
  lemma {:induction false} SetNamed(q: seq<Param>, name: string, value: string)
    ensures Named(Set(q, name, value), name) == [Param(name, value)]
  {
    var pair := Param(name, value);
    NamedSingle(pair, name);
    if q == [] {
    } else if q[0].name == name {
      var rest := Delete(q[1..], name);
      NamedAppend([pair], rest, name);
      NamedAbsent(rest, name);
    } else {
      SetNamed(q[1..], name, value);
      NamedSingle(q[0], name);
      NamedAppend([q[0]], Set(q[1..], name, value), name);
    }
  }

  /** `set` does not touch the pairs of other names: without the set name,
      the list is what it was. */
  lemma {:induction false} SetKeepsOthers(q: seq<Param>, name: string, value: string)
    ensures Delete(Set(q, name, value), name) == Delete(q, name)
  {
    if q == [] {
    } else if q[0].name == name {
      DeleteIdempotent(q[1..], name);
      assert Set(q, name, value)[1..] == Delete(q[1..], name);
    } else {
      SetKeepsOthers(q[1..], name, value);
      assert Set(q, name, value)[1..] == Set(q[1..], name, value);
    }
  }

  /** Where the pair goes: in place of the first pair of that name, or at
      the end when there was none. */
  lemma {:induction false} SetPosition(q: seq<Param>, name: string, value: string)
    ensures var k := FirstIndex(q, name);
      Set(q, name, value) ==
        if k == -1 then q + [Param(name, value)]
        else q[..k] + [Param(name, value)] + Delete(q[k + 1..], name)
  {
    var pair := Param(name, value);
    if q == [] {
    } else if q[0].name == name {
      assert q[..0] == [];
    } else {
      var t := q[1..];
      SetPosition(t, name, value);
      var k' := FirstIndex(t, name);
      assert Set(q, name, value) == [q[0]] + Set(t, name, value);
      if k' == -1 {
        assert FirstIndex(q, name) == -1;
        assert [q[0]] + (t + [pair]) == q + [pair];
      } else {
        assert FirstIndex(q, name) == k' + 1;
        ConsPosition(q, k', pair, Delete(t[k' + 1..], name));
      }
    }
  }

  lemma ConsPosition(q: seq<Param>, k: nat, pair: Param, rest: seq<Param>)
    requires k + 1 < |q|
    ensures [q[0]] + (q[1..][..k] + [pair] + rest) == q[..k + 1] + [pair] + rest
    ensures q[1..][k + 1..] == q[k + 2..]
  {
    assert q[..k + 1] == [q[0]] + q[1..][..k];
  }

  lemma SetThenGet(q: seq<Param>, name: string, value: string)
    ensures Get(Set(q, name, value), name) == Some(value)
  {
    var r := Set(q, name, value);
    SetNamed(q, name, value);
    assert Param(name, value) in Named(r, name);
    var k := FirstIndex(r, name);
    assert r[k] in Named(r, name);
  }

  /** Setting a parameter and then deleting it gives back the list without
      that name; when the name was absent, exactly the list before. */
  lemma SetThenDelete(q: seq<Param>, name: string, value: string)
    ensures Delete(Set(q, name, value), name) == Delete(q, name)
    ensures !HasName(q, name) ==> Delete(Set(q, name, value), name) == q
  {
    SetKeepsOthers(q, name, value);
    if !HasName(q, name) {
      DeleteAbsent(q, name);
    }
  }

  /** The value `setQueryParam` writes: the one given, else the current
      one, else the empty string. */
  function ValueToSet(value: Option<string>, current: Option<string>): string {
    match value
    case Some(v) => v
    case None => match current case Some(c) => c case None => ""
  }

  /** `window.location`, reduced to the pairs of its query string. */
  class Location {
    var query: seq<Param>

    constructor (query: seq<Param>)
      ensures this.query == query
    {
      this.query := query;
    }

    /** `setQueryParam(param, value)`: the parameter ends up present exactly
        once, with `value`, or its first previous value when `value` is
        missing, or the empty string when it had none. */
    method SetQueryParam(param: string, value: Option<string>)
      modifies this
      ensures query == Set(old(query), param, ValueToSet(value, Get(old(query), param)))
      ensures Named(query, param) == [Param(param, ValueToSet(value, Get(old(query), param)))]
      ensures Delete(query, param) == Delete(old(query), param)
    {
      var v := ValueToSet(value, Get(query, param));
      SetNamed(query, param, v);
      SetKeepsOthers(query, param, v);
      query := Set(query, param, v);
    }

    /** `unsetQueryParam(param)`: no pair of that name is left; the others
        keep their values and their order. */
    method UnsetQueryParam(param: string)
      modifies this
      ensures query == Delete(old(query), param)
      ensures !HasName(query, param)
      ensures forall other :: other != param ==> Named(query, other) == Named(old(query), other)
    {
      forall other | other != param
        ensures Named(Delete(query, param), other) == Named(query, other)
      {
        DeleteKeepsOthers(query, param, other);
      }
      query := Delete(query, param);
    }
  }
}
