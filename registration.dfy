/** The value-level meaning of CitationStylesBibliography.register
    (citeproc/frontend.py): what the `items` list becomes after a sequence of
    cited items has been registered against a source collection, and which
    items are reported to the callback. The registry's `keys` list is always
    `KeysOf(items)`. */
module Registration {

  /** A CitationItem: the cited reference's key plus per-citation details,
      of which only the locator is kept here. */
  datatype CitationItem = CitationItem(key: string, locator: string)

  /** `[item.key for item in items]` */
  function KeysOf(items: seq<CitationItem>): (keys: seq<string>)
    ensures |keys| == |items|
    ensures forall i :: 0 <= i < |items| ==> keys[i] == items[i].key
  {
    seq(|items|, i requires 0 <= i < |items| => items[i].key)
  }

  /** No two registered items share a key. */
  predicate DistinctKeys(items: seq<CitationItem>) {
    forall i, j :: 0 <= i < j < |items| ==> items[i].key != items[j].key
  }

  /** The registry invariant: keys unique and every key known to the source. */
  predicate Registry(items: seq<CitationItem>, source: set<string>) {
    DistinctKeys(items) && forall i :: 0 <= i < |items| ==> items[i].key in source
  }

  /** One iteration of the loop in `register`: the item is appended exactly
      when the source has its key and no registered item carries it yet. */
  function Step(items: seq<CitationItem>, source: set<string>, item: CitationItem): (r: seq<CitationItem>)
    ensures items <= r && |r| <= |items| + 1
    ensures |r| == |items| + 1 <==> item.key in source && item.key !in KeysOf(items)
    ensures |r| == |items| + 1 ==> r[|items|] == item
  {
    if item.key in source && item.key !in KeysOf(items) then items + [item] else items
  }

  /** `items` after registering `cites` in order. Registering only appends,
      at most one entry per cited item. */
  function AddCites(items: seq<CitationItem>, source: set<string>, cites: seq<CitationItem>): (r: seq<CitationItem>)
    ensures items <= r && |r| <= |items| + |cites|
    decreases |cites|
  {
    if cites == [] then items
    else Step(AddCites(items, source, cites[..|cites| - 1]), source, cites[|cites| - 1])
  }

  /** The items handed to the callback, in order: those whose key the source lacks. */
  function Unresolved(cites: seq<CitationItem>, source: set<string>): (r: seq<CitationItem>)
    ensures |r| <= |cites|
    ensures forall i :: 0 <= i < |r| ==> r[i].key !in source
    decreases |cites|
  {
    if cites == [] then []
    else
      var last := cites[|cites| - 1];
      Unresolved(cites[..|cites| - 1], source) + (if last.key !in source then [last] else [])
  }

  /** The cited items whose key the source has. */
  function Resolvable(cites: seq<CitationItem>, source: set<string>): seq<CitationItem>
    decreases |cites|
  {
    if cites == [] then []
    else
      var last := cites[|cites| - 1];
      Resolvable(cites[..|cites| - 1], source) + (if last.key in source then [last] else [])
  }

  /** The position of the first cited item with key `k`. */
  function FirstIndex(cites: seq<CitationItem>, k: string): (i: nat)
    requires k in KeysOf(cites)
    ensures i < |cites| && cites[i].key == k
    ensures forall j :: 0 <= j < i ==> cites[j].key != k
  {
    if cites[0].key == k then 0
    else
      assert k in KeysOf(cites[1..]) by {
        var j :| 0 <= j < |cites| && KeysOf(cites)[j] == k;
        assert KeysOf(cites[1..])[j - 1] == k;
      }
      1 + FirstIndex(cites[1..], k)
  }

  lemma FirstIndexSnoc(cites: seq<CitationItem>, x: CitationItem, k: string)
    requires k in KeysOf(cites + [x])
    ensures k in KeysOf(cites) ==> FirstIndex(cites + [x], k) == FirstIndex(cites, k)
    ensures k !in KeysOf(cites) ==> FirstIndex(cites + [x], k) == |cites|
  {
    var i1 := FirstIndex(cites + [x], k);
    if k in KeysOf(cites) {
      var i0 := FirstIndex(cites, k);
      assert (cites + [x])[i0].key == k;
    } else {
      forall j | 0 <= j < |cites| ensures cites[j].key != k {
        assert KeysOf(cites)[j] == cites[j].key;
      }
    }
  }

  /** Registering keeps keys unique and within the source collection. */
  lemma {:induction false} AddCitesKeepsRegistry(items: seq<CitationItem>, source: set<string>, cites: seq<CitationItem>)
    requires Registry(items, source)
    ensures Registry(AddCites(items, source, cites), source)
  {
    if cites != [] {
      var prev := AddCites(items, source, cites[..|cites| - 1]);
      AddCitesKeepsRegistry(items, source, cites[..|cites| - 1]);
      var x := cites[|cites| - 1];
      if x.key in source && x.key !in KeysOf(prev) {
        var next := prev + [x];
        forall i, j | 0 <= i < j < |next| ensures next[i].key != next[j].key {
          if j == |prev| {
            assert KeysOf(prev)[i] == prev[i].key;
          }
        }
      }
    }
  }

  /** A key is registered afterwards iff it was before, or the source has it
      and some cited item carries it. */
  lemma {:induction false} AddCitesMembership(items: seq<CitationItem>, source: set<string>, cites: seq<CitationItem>, k: string)
    ensures k in KeysOf(AddCites(items, source, cites))
      <==> k in KeysOf(items) || (k in source && k in KeysOf(cites))
  {
    if cites != [] {
      var init := cites[..|cites| - 1];
      var x := cites[|cites| - 1];
      var prev := AddCites(items, source, init);
      AddCitesMembership(items, source, init, k);
      assert cites == init + [x];
      assert KeysOf(cites) == KeysOf(init) + [x.key];
      if x.key in source && x.key !in KeysOf(prev) {
        assert KeysOf(prev + [x]) == KeysOf(prev) + [x.key];
      }
    }
  }

  /** First-cite order: each appended item is the first cited item with its
      key, and appended items are ordered by where their key was first cited. */
  lemma {:induction false} AddCitesFirstCiteOrder(items: seq<CitationItem>, source: set<string>, cites: seq<CitationItem>)
    ensures forall p :: |items| <= p < |AddCites(items, source, cites)| ==>
      var x := AddCites(items, source, cites)[p];
      x.key in KeysOf(cites) && x == cites[FirstIndex(cites, x.key)]
    ensures forall p, q :: |items| <= p < q < |AddCites(items, source, cites)| ==>
      var x, y := AddCites(items, source, cites)[p], AddCites(items, source, cites)[q];
      x.key in KeysOf(cites) && y.key in KeysOf(cites)
      && FirstIndex(cites, x.key) < FirstIndex(cites, y.key)
  {
    var r := AddCites(items, source, cites);
    if cites == [] {
      assert r == items;
    } else {
      var init := cites[..|cites| - 1];
      var x := cites[|cites| - 1];
      var prev := AddCites(items, source, init);
      AddCitesFirstCiteOrder(items, source, init);
      assert cites == init + [x];
      forall p | |items| <= p < |prev|
        ensures r[p] == prev[p] && r[p].key in KeysOf(cites)
        ensures FirstIndex(cites, r[p].key) == FirstIndex(init, prev[p].key) < |init|
      {
        assert KeysOf(cites)[FirstIndex(init, prev[p].key)] == prev[p].key;
        FirstIndexSnoc(init, x, prev[p].key);
      }
      if x.key in source && x.key !in KeysOf(prev) {
        AddCitesMembership(items, source, init, x.key);
        assert KeysOf(cites)[|init|] == x.key;
        FirstIndexSnoc(init, x, x.key);
      }
    }
  }

  /** Registering cited items one citation after another is registering
      their concatenation. */
  lemma {:induction false} AddCitesConcat(items: seq<CitationItem>, source: set<string>, c1: seq<CitationItem>, c2: seq<CitationItem>)
    ensures AddCites(items, source, c1 + c2) == AddCites(AddCites(items, source, c1), source, c2)
    decreases |c2|
  {
    if c2 == [] {
      assert c1 + c2 == c1;
    } else {
      var init := c2[..|c2| - 1];
      assert (c1 + c2)[..|c1 + c2| - 1] == c1 + init;
      AddCitesConcat(items, source, c1, init);
    }
  }

  /** Cited items whose keys are all registered already change nothing. */
  lemma {:induction false} AddCitesNoOp(items: seq<CitationItem>, source: set<string>, cites: seq<CitationItem>)
    requires forall j :: 0 <= j < |cites| && cites[j].key in source ==> cites[j].key in KeysOf(items)
    ensures AddCites(items, source, cites) == items
  {
    if cites != [] {
      AddCitesNoOp(items, source, cites[..|cites| - 1]);
    }
  }

  /** Registering the same citation again leaves `keys` and `items` as they are. */
  lemma AddCitesIdempotent(items: seq<CitationItem>, source: set<string>, cites: seq<CitationItem>)
    ensures var r := AddCites(items, source, cites);
      AddCites(r, source, cites) == r
  {
    var r := AddCites(items, source, cites);
    forall j | 0 <= j < |cites| && cites[j].key in source
      ensures cites[j].key in KeysOf(r)
    {
      assert KeysOf(cites)[j] == cites[j].key;
      AddCitesMembership(items, source, cites, cites[j].key);
    }
    AddCitesNoOp(r, source, cites);
  }

  /** Items the source lacks have no effect on `keys` and `items`. */
  lemma {:induction false} AddCitesIgnoresUnresolved(items: seq<CitationItem>, source: set<string>, cites: seq<CitationItem>)
    ensures AddCites(items, source, cites) == AddCites(items, source, Resolvable(cites, source))
  {
    if cites != [] {
      var init := cites[..|cites| - 1];
      var x := cites[|cites| - 1];
      AddCitesIgnoresUnresolved(items, source, init);
      if x.key in source {
        var res := Resolvable(init, source) + [x];
        assert Resolvable(cites, source) == res;
        assert res[..|res| - 1] == Resolvable(init, source);
      } else {
        assert Resolvable(cites, source) == Resolvable(init, source) + [];
        assert Resolvable(init, source) + [] == Resolvable(init, source);
      }
    }
  }

  /** The callback sees each unresolved item once per occurrence, and nothing else. */
  lemma {:induction false} UnresolvedCounts(cites: seq<CitationItem>, source: set<string>, x: CitationItem)
    ensures multiset(Unresolved(cites, source))[x] == if x.key in source then 0 else multiset(cites)[x]
  {
    if cites != [] {
      var init := cites[..|cites| - 1];
      UnresolvedCounts(init, source, x);
      assert cites == init + [cites[|cites| - 1]];
    }
  }

  /** Reports are not deduplicated: registering two citations reports the
      unresolved items of each, in order. */
  lemma {:induction false} UnresolvedConcat(c1: seq<CitationItem>, c2: seq<CitationItem>, source: set<string>)
    ensures Unresolved(c1 + c2, source) == Unresolved(c1, source) + Unresolved(c2, source)
    decreases |c2|
  {
    if c2 == [] {
      assert c1 + c2 == c1;
    } else {
      var init := c2[..|c2| - 1];
      assert (c1 + c2)[..|c1 + c2| - 1] == c1 + init;
      UnresolvedConcat(c1, init, source);
    }
  }

  /** Every cited item is either resolvable or reported, never both. */
  lemma {:induction false} ResolvableUnresolvedPartition(cites: seq<CitationItem>, source: set<string>)
    ensures |Resolvable(cites, source)| + |Unresolved(cites, source)| == |cites|
    ensures forall i :: 0 <= i < |Resolvable(cites, source)| ==> Resolvable(cites, source)[i].key in source
    ensures forall i :: 0 <= i < |Unresolved(cites, source)| ==> Unresolved(cites, source)[i].key !in source
  {
    if cites != [] {
      ResolvableUnresolvedPartition(cites[..|cites| - 1], source);
    }
  }

  /** With unique keys, no item occurs twice. */
  lemma {:induction false} DistinctKeysAtMostOnce(items: seq<CitationItem>, x: CitationItem)
    requires DistinctKeys(items)
    ensures multiset(items)[x] <= 1
  {
    if items != [] {
      var init := items[..|items| - 1];
      var y := items[|items| - 1];
      DistinctKeysAtMostOnce(init, x);
      assert items == init + [y];
      if y == x {
        forall k | 0 <= k < |init| ensures init[k] != x {
          assert items[k].key != items[|items| - 1].key;
        }
      }
    }
  }

  /** An item counted at most once cannot stand at two positions. */
  lemma AtMostOnceApart(s: seq<CitationItem>, i: nat, j: nat)
    requires i < j < |s| && multiset(s)[s[i]] <= 1
    ensures s[i] != s[j]
  {
    assert s == s[..j] + [s[j]] + s[j + 1..];
    assert s[..j][i] == s[i];
  }

  /** A reordering of a valid registry (what `sort` gets back when the rule
      engine returns a permutation) is a valid registry. */
  lemma PermutationKeepsRegistry(a: seq<CitationItem>, b: seq<CitationItem>, source: set<string>)
    requires Registry(a, source) && multiset(a) == multiset(b)
    ensures Registry(b, source)
  {
    forall i | 0 <= i < |b| ensures b[i].key in source {
      assert b[i] in multiset(a);
      var p :| 0 <= p < |a| && a[p] == b[i];
    }
    forall i, j | 0 <= i < j < |b| ensures b[i].key != b[j].key {
      DistinctKeysAtMostOnce(a, b[i]);
      AtMostOnceApart(b, i, j);
      assert b[i] in multiset(a) && b[j] in multiset(a);
      var p :| 0 <= p < |a| && a[p] == b[i];
      var q :| 0 <= q < |a| && a[q] == b[j];
      if p < q {
        assert a[p].key != a[q].key;
      } else {
        assert a[q].key != a[p].key;
      }
    }
  }

  /** Registering [b, a, c] and then [a] gives keys [b, a, c]. */
  lemma FirstCiteOrderExample(source: set<string>)
    requires {"a", "b", "c"} <= source
    ensures var a, b, c := CitationItem("a", ""), CitationItem("b", ""), CitationItem("c", "");
      KeysOf(AddCites(AddCites([], source, [b, a, c]), source, [a])) == ["b", "a", "c"]
  {
    var a, b, c := CitationItem("a", ""), CitationItem("b", ""), CitationItem("c", "");
    assert [b, a, c][..2] == [b, a] && [b, a][..1] == [b] && [b][..0] == [];
    assert AddCites([], source, [b]) == [b];
    assert KeysOf([b]) == ["b"];
    assert AddCites([], source, [b, a]) == [b, a];
    assert KeysOf([b, a]) == ["b", "a"];
    var r := AddCites([], source, [b, a, c]);
    assert r == [b, a, c];
    assert KeysOf(r) == ["b", "a", "c"];
    assert [a][..0] == [];
    assert AddCites(r, source, [a]) == Step(r, source, a);
  }
}
