/** The query of a URL as `URLSearchParams` sees it: an ordered list of
    name/value pairs, with the `get`, `set` and `delete` operations of
    section 6.2 of the WHATWG URL Standard; and the `URL` object whose search
    parameters the application edits in place. */
module SearchParams {
  import opened Types
  import opened FormUrlEncoded
  import Seqs

  /** The pairs with the given name. */
  function NameIs(name: string): Pair -> bool {
    (p: Pair) => p.name == name
  }

  /** The first position holding a pair with the given name, or -1. */
  function FirstIndex(q: Query, name: string): (k: int)
    ensures -1 <= k < |q|
    ensures k >= 0 ==> q[k].name == name
    ensures forall j | 0 <= j < |q| && (k < 0 || j < k) :: q[j].name != name
  {
    Seqs.FirstWhere(q, NameIs(name))
  }

  /** `get(name)`: the value of the first pair with that name, or null. */
  function Get(q: Query, name: string): Option<string> {
    var k := FirstIndex(q, name);
    if k < 0 then None else Some(q[k].value)
  }

  /** `delete(name)`: every pair with that name goes; the others keep their order. */
  function Delete(q: Query, name: string): Query
    decreases |q|
  {
    if q == [] then []
    else if q[0].name == name then Delete(q[1..], name)
    else [q[0]] + Delete(q[1..], name)
  }

  /** `set(name, value)`: when some pair has the name, the first such pair takes
      the value and the later ones are removed; otherwise the pair is appended. */
  function Set(q: Query, name: string, value: string): Query {
    var k := FirstIndex(q, name);
    if k < 0 then q + [Pair(name, value)]
    else q[..k] + [Pair(name, value)] + Delete(q[k + 1..], name)
  }

  /** How many pairs have the given name. */
  function Count(q: Query, name: string): nat
    decreases |q|
  {
    if q == [] then 0 else (if q[0].name == name then 1 else 0) + Count(q[1..], name)
  }

  // ---------------------------------------------------------------------
  // Properties of the list operations
  // ---------------------------------------------------------------------

  lemma {:induction false} DeleteAppend(a: Query, b: Query, name: string)
    ensures Delete(a + b, name) == Delete(a, name) + Delete(b, name)
    decreases |a|
  {
    if a == [] {
      assert a + b == b;
    } else {
      DeleteAppend(a[1..], b, name);
      assert (a + b)[0] == a[0] && (a + b)[1..] == a[1..] + b;
    }
  }

  lemma {:induction false} DeleteAbsent(q: Query, name: string)
    requires forall j | 0 <= j < |q| :: q[j].name != name
    ensures Delete(q, name) == q
    decreases |q|
  {
    if q != [] {
      DeleteAbsent(q[1..], name);
    }
  }

  lemma {:induction false} CountAppend(a: Query, b: Query, name: string)
    ensures Count(a + b, name) == Count(a, name) + Count(b, name)
    decreases |a|
  {
    if a == [] {
      assert a + b == b;
    } else {
      CountAppend(a[1..], b, name);
      assert (a + b)[1..] == a[1..] + b;
    }
  }

  lemma {:induction false} CountZero(q: Query, name: string)
    ensures Count(q, name) == 0 <==> forall j | 0 <= j < |q| :: q[j].name != name
    decreases |q|
  {
    if q != [] {
      CountZero(q[1..], name);
      assert forall j | 1 <= j < |q| :: q[j] == q[1..][j - 1];
    }
  }

  /** Lookup of any other name sees through a deletion. */
  lemma {:induction false} GetDelete(q: Query, name: string, other: string)
    ensures Get(Delete(q, name), name) == None
    ensures other != name ==> Get(Delete(q, name), other) == Get(q, other)
    decreases |q|
  {
    if q != [] {
      GetDelete(q[1..], name, other);
    }
  }

  /** After `delete(name)` no pair has that name; deleting again changes nothing. */
  lemma {:induction false} DeleteRemovesAll(q: Query, name: string)
    ensures Count(Delete(q, name), name) == 0
    ensures Delete(Delete(q, name), name) == Delete(q, name)
    decreases |q|
  {
    if q != [] {
      DeleteRemovesAll(q[1..], name);
    }
  }

  /** The first pair with a name is the one no earlier pair shares the name with. */
  lemma FirstIndexIs(q: Query, name: string, k: nat)
    requires k < |q| && q[k].name == name
    requires forall j | 0 <= j < k :: q[j].name != name
    ensures FirstIndex(q, name) == k
  {
  }

  /** After `set(name, value)`, `get(name)` returns `value`. */
  lemma GetAfterSet(q: Query, name: string, value: string)
    ensures Get(Set(q, name, value), name) == Some(value)
  {
    var k := FirstIndex(q, name);
    var r := Set(q, name, value);
    var p := Pair(name, value);
    if k < 0 {
      assert r == q + [p];
      assert forall j | 0 <= j < |q| :: r[j] == q[j];
      FirstIndexIs(r, name, |q|);
    } else {
      var tail := Delete(q[k + 1..], name);
      assert r == q[..k] + [p] + tail;
      assert forall j | 0 <= j < k :: r[j] == q[j];
      assert r[k] == p;
      FirstIndexIs(r, name, k);
    }
  }

  /** `set` leaves exactly one pair with the name. */
  lemma SetLeavesOne(q: Query, name: string, value: string)
    ensures Count(Set(q, name, value), name) == 1
  {
    var k := FirstIndex(q, name);
    var p := Pair(name, value);
    assert Count([p], name) == 1 by {
      assert [p][1..] == [];
    }
    if k < 0 {
      CountAppend(q, [p], name);
      CountZero(q, name);
    } else {
      var a, t := q[..k], Delete(q[k + 1..], name);
      CountAppend(a + [p], t, name);
      CountAppend(a, [p], name);
      CountZero(a, name);
      DeleteRemovesAll(q[k + 1..], name);
    }
  }

  /** Deleting a name from a list without it followed by one pair with it
      drops just that pair. */
  lemma DeleteLast(a: Query, p: Pair, name: string)
    requires forall j | 0 <= j < |a| :: a[j].name != name
    requires p.name == name
    ensures Delete(a + [p], name) == a
  {
    assert Delete([p], name) == [] by {
      assert [p][1..] == [];
    }
    DeleteAppend(a, [p], name);
    DeleteAbsent(a, name);
  }

  /** `set` where the first pair with the name is at `k`: the list without the
      name is the same before and after. */
  lemma SetKeepsOthersAt(q: Query, name: string, value: string, k: nat)
    requires k < |q| && q[k].name == name
    requires forall j | 0 <= j < k :: q[j].name != name
    ensures Delete(q[..k] + [Pair(name, value)] + Delete(q[k + 1..], name), name) == Delete(q, name)
  {
    var a, x, rest := q[..k], q[k], q[k + 1..];
    var t := Delete(rest, name);
    DeleteRemovesAll(rest, name);
    calc {
      Delete(a + [Pair(name, value)] + t, name);
      { DeleteAppend(a + [Pair(name, value)], t, name); }
      Delete(a + [Pair(name, value)], name) + t;
      { DeleteLast(a, Pair(name, value), name); DeleteLast(a, x, name); }
      Delete(a + [x], name) + t;
      { DeleteAppend(a + [x], rest, name); }
      Delete(a + [x] + rest, name);
      { assert a + [x] + rest == q; }
      Delete(q, name);
    }
  }

  /** `set` keeps every pair with another name as it was, in its order. */
  lemma SetKeepsOthers(q: Query, name: string, value: string)
    ensures Delete(Set(q, name, value), name) == Delete(q, name)
  {
    var k := FirstIndex(q, name);
    var p := Pair(name, value);
    if k < 0 {
      assert Delete([p], name) == [] by {
        assert [p][1..] == [];
      }
      DeleteAppend(q, [p], name);
    } else {
      SetKeepsOthersAt(q, name, value, k);
    }
  }

  /** `set` on one name does not change what `get` returns for another. */
  lemma GetOtherAfterSet(q: Query, name: string, value: string, other: string)
    requires other != name
    ensures Get(Set(q, name, value), other) == Get(q, other)
  {
    SetKeepsOthers(q, name, value);
    GetDelete(Set(q, name, value), name, other);
    GetDelete(q, name, other);
  }

  // ---------------------------------------------------------------------
  // The URL object
  // ---------------------------------------------------------------------

  /** An address: the text before the query (scheme, host, path), the query as
      text (without its `?`), and the fragment. */
  datatype Location = Location(base: string, query: string, fragment: string)

  /** A `URL` object. Its `searchParams` list is parsed from the query when the
      object is made; every change to the list writes the serialized list back
      into the query. */
  class Url {
    var base: string
    var query: string
    var fragment: string
    var searchParams: Query

    /** `new URL(href)`. */
    constructor (href: Location)
      ensures Href() == href && searchParams == Parse(href.query)
    {
      base := href.base;
      query := href.query;
      fragment := href.fragment;
      searchParams := Parse(href.query);
    }

    /** The address the object now denotes (`url.toString()`). */
    function Href(): Location
      reads this
    {
      Location(base, query, fragment)
    }

    /** `url.searchParams.set(name, value)`. */
    method SetParam(name: string, value: string)
      modifies this`searchParams, this`query
      ensures searchParams == Set(old(searchParams), name, value)
      ensures query == Serialize(searchParams)
    {
      searchParams := Set(searchParams, name, value);
      query := Serialize(searchParams);
    }

    /** `url.searchParams.delete(name)`. */
    method DeleteParam(name: string)
      modifies this`searchParams, this`query
      ensures searchParams == Delete(old(searchParams), name)
      ensures query == Serialize(searchParams)
    {
      searchParams := Delete(searchParams, name);
      query := Serialize(searchParams);
    }
  }
}
