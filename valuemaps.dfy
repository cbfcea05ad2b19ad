/**
 * The value map of a dropdown rubric (value name -> score) and what a widget
 * derives from it: one option label `name [score]` per entry, and the value
 * string, the `,`-join of one `name:score` token per entry.
 *
 * A JavaScript object is enumerated by `for (k in obj)` and `$.each(obj, ...)`
 * in an order this model does not pin down (integer-like keys come first, the
 * rest in insertion order). The model therefore lets a loop visit the keys in
 * ANY order and records that order as an enumeration `ks`; every property is
 * then stated per entry, never as an exact string.
 */
module ValueMaps {

  /** The label of the <option> shown for one entry: `name [score]`. */
  function Label(name: string, score: string): string
  {
    name + " [" + score + "]"
  }

  /** The token one entry contributes to the value string: `name:score`. */
  function Token(name: string, score: string): string
  {
    name + ":" + score
  }

  /** Array.prototype.join: the parts separated by `sep`; no parts give "". */
  function Join(parts: seq<string>, sep: string): string
  {
    if |parts| == 0 then ""
    else if |parts| == 1 then parts[0]
    else parts[0] + sep + Join(parts[1..], sep)
  }

  /**
   * `ks` lists every key of `m` exactly once, in the order a loop over `m` may
   * visit it: the last key listed is a key of `m`, and the keys before it list
   * the other entries.
   */
  ghost predicate IsEnumeration(ks: seq<string>, m: map<string, string>)
    decreases |ks|
  {
    if ks == [] then m == map[]
    else ks[|ks| - 1] in m && IsEnumeration(ks[..|ks| - 1], m - {ks[|ks| - 1]})
  }

  /** What a loop over `m` in the order `ks` produces when it emits `f(key, score)` per entry. */
  function Render(ks: seq<string>, m: map<string, string>, f: (string, string) -> string): (r: seq<string>)
    requires IsEnumeration(ks, m)
    ensures |r| == |ks|
    decreases |ks|
  {
    if ks == [] then []
    else
      var k := ks[|ks| - 1];
      Render(ks[..|ks| - 1], m - {k}, f) + [f(k, m[k])]
  }

  /** Reference for the rendered multiset, free of any order: how many entries of `m` render to `x`. */
  ghost function EntryCount(m: map<string, string>, f: (string, string) -> string, x: string): nat
  {
    |set k | k in m && f(k, m[k]) == x|
  }

  /**
   * `for (k in m) parts.push(f(k, m[k]))`: the loop of `redraw` and of
   * `getValueString`. The keys are visited in an unspecified order, recorded in `order`.
   */
  method CollectEntries(m: map<string, string>, f: (string, string) -> string)
    returns (parts: seq<string>, ghost order: seq<string>)
    ensures IsEnumeration(order, m)
    ensures parts == Render(order, m, f)
  {
    parts, order := [], [];
    var remaining := m.Keys;
    ghost var visited: map<string, string> := map[];
    while remaining != {}
      invariant remaining <= m.Keys
      invariant visited.Keys == m.Keys - remaining
      invariant forall k :: k in visited ==> visited[k] == m[k]
      invariant IsEnumeration(order, visited)
      invariant parts == Render(order, visited, f)
      decreases remaining
    {
      var k :| k in remaining;
      assert visited[k := m[k]] - {k} == visited;
      assert (order + [k])[..|order|] == order;
      parts := parts + [f(k, m[k])];
      order := order + [k];
      visited := visited[k := m[k]];
      remaining := remaining - {k};
    }
    assert visited == m;
  }

  /** An enumeration lists exactly the keys of the map, one per entry. */
  lemma {:induction false} EnumerationListsKeys(ks: seq<string>, m: map<string, string>)
    requires IsEnumeration(ks, m)
    ensures |ks| == |m|
    ensures forall k :: k in ks <==> k in m
    decreases |ks|
  {
    if ks != [] {
      var k := ks[|ks| - 1];
      EnumerationListsKeys(ks[..|ks| - 1], m - {k});
      assert (m - {k}).Keys == m.Keys - {k};
      assert ks == ks[..|ks| - 1] + [k];
    }
  }

  /** Removing one key from the map removes at most that key from the entries rendering to `x`. */
  lemma EntryCountRemove(m: map<string, string>, f: (string, string) -> string, x: string, k0: string)
    requires k0 in m
    ensures EntryCount(m, f, x) == EntryCount(m - {k0}, f, x) + (if f(k0, m[k0]) == x then 1 else 0)
  {
    var rest := m - {k0};
    var all := set k | k in m && f(k, m[k]) == x;
    var others := set k | k in rest && f(k, rest[k]) == x;
    if f(k0, m[k0]) == x {
      assert all == others + {k0};
    } else {
      assert all == others;
    }
  }

  /** Rendering an enumeration of `m` yields each value `x` exactly as often as entries of `m` render to `x`. */
  lemma {:induction false} RenderCountsEntries(ks: seq<string>, m: map<string, string>, f: (string, string) -> string, x: string)
    requires IsEnumeration(ks, m)
    ensures multiset(Render(ks, m, f))[x] == EntryCount(m, f, x)
    decreases |ks|
  {
    if ks == [] {
      assert m == map[];
    } else {
      var k := ks[|ks| - 1];
      RenderCountsEntries(ks[..|ks| - 1], m - {k}, f, x);
      EntryCountRemove(m, f, x, k);
    }
  }

  /** The item of every entry appears among the rendered items. */
  lemma {:induction false} EntryRendered(ks: seq<string>, m: map<string, string>, f: (string, string) -> string, k: string)
    requires IsEnumeration(ks, m) && k in m
    ensures f(k, m[k]) in Render(ks, m, f)
    decreases |ks|
  {
    var last := ks[|ks| - 1];
    if k != last {
      EntryRendered(ks[..|ks| - 1], m - {last}, f, k);
    }
  }

  /**
   * Everything a widget shows of its map, in one statement: one rendered item
   * per entry, every entry rendered, and the multiset of items independent of
   * the enumeration order.
   */
  lemma OneItemPerEntry(ks: seq<string>, m: map<string, string>, f: (string, string) -> string)
    requires IsEnumeration(ks, m)
    ensures |Render(ks, m, f)| == |m|
    ensures forall k :: k in m ==> f(k, m[k]) in Render(ks, m, f)
    ensures forall x :: multiset(Render(ks, m, f))[x] == EntryCount(m, f, x)
  {
    EnumerationListsKeys(ks, m);
    forall k | k in m
      ensures f(k, m[k]) in Render(ks, m, f)
    {
      EntryRendered(ks, m, f, k);
    }
    forall x
      ensures multiset(Render(ks, m, f))[x] == EntryCount(m, f, x)
    {
      RenderCountsEntries(ks, m, f, x);
    }
  }

  /** Two loops over the same map render the same multiset of items, whatever their orders. */
  lemma RenderOrderIrrelevant(ks1: seq<string>, ks2: seq<string>, m: map<string, string>, f: (string, string) -> string)
    requires IsEnumeration(ks1, m) && IsEnumeration(ks2, m)
    ensures multiset(Render(ks1, m, f)) == multiset(Render(ks2, m, f))
  {
    forall x
      ensures multiset(Render(ks1, m, f))[x] == multiset(Render(ks2, m, f))[x]
    {
      RenderCountsEntries(ks1, m, f, x);
      RenderCountsEntries(ks2, m, f, x);
    }
  }

  /** The value string is empty exactly when the map is: every token holds at least its `:`. */
  lemma ValueStringEmptyIff(ks: seq<string>, m: map<string, string>)
    requires IsEnumeration(ks, m)
    ensures Join(Render(ks, m, Token), ",") == "" <==> m == map[]
  {
    var tokens := Render(ks, m, Token);
    if ks != [] {
      var k := ks[|ks| - 1];
      assert k in m;
      if |ks| == 1 {
        assert tokens == [Token(k, m[k])];
      }
      assert |Join(tokens, ",")| >= 1;
    }
  }

  /** A map with a single entry has a single enumeration. */
  lemma SingletonEnumeration(ks: seq<string>, name: string, score: string)
    requires IsEnumeration(ks, map[name := score])
    ensures ks == [name]
  {
    assert name in map[name := score];
    var last := ks[|ks| - 1];
    assert map[name := score] - {last} == map[];
  }
}
