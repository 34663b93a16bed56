/** CitationStylesBibliography (citeproc/frontend.py): the registry of cited
    references, updated in place by `register` and `sort`, and delegating
    rendering to the style's rule engine. */
module Bibliography {
  import opened Registration

  /** A Citation: the items it cites, and the registry it was registered with. */
  class Citation {
    const cites: seq<CitationItem>
    var bibliography: CitationStylesBibliography?

    constructor (cites: seq<CitationItem>)
      ensures this.cites == cites && bibliography == null
    {
      this.cites := cites;
      bibliography := null;
    }
  }

  /** The style's rule engine (CitationStylesStyle.sort_bibliography,
      render_citation and render_bibliography, which delegate to code outside
      this model), as functions the caller supplies. The boolean says whether
      a callback for unresolved references was passed. */
  datatype RuleEngine = RuleEngine(
    sortBibliography: seq<CitationItem> -> seq<CitationItem>,
    renderCitation: (Citation, seq<Citation>, bool) -> string,
    renderBibliography: seq<CitationItem> -> string
  )

  class CitationStylesBibliography {
    const style: RuleEngine
    const source: set<string>   // the keys of the reference collection
    var keys: seq<string>
    var items: seq<CitationItem>
    var cites: seq<Citation>    // `_cites`: handed to the engine, never extended here

    /** `keys` mirrors `items`, holds no duplicate and only keys of the source. */
    ghost predicate Valid()
      reads this
    {
      keys == KeysOf(items) && Registry(items, source)
    }

    constructor (style: RuleEngine, source: set<string>)
      ensures Valid()
      ensures this.style == style && this.source == source
      ensures keys == [] && items == [] && cites == []
    {
      this.style := style;
      this.source := source;
      keys, items, cites := [], [], [];
    }

    /** Binds the citation to this registry, appends each cited item whose key
        the source has and that is not registered yet, and returns the items
        passed to the callback (none when no callback is given). */
    method Register(citation: Citation, hasCallback: bool) returns (reported: seq<CitationItem>)
      requires Valid()
      modifies this`keys, this`items, citation`bibliography
      ensures Valid()
      ensures citation.bibliography == this
      ensures items == AddCites(old(items), source, citation.cites)
      ensures old(items) <= items && old(keys) <= keys
      ensures reported == if hasCallback then Unresolved(citation.cites, source) else []
    {
      citation.bibliography := this;
      var todo := citation.cites;
      reported := [];
      var i := 0;
      while i < |todo|
        invariant 0 <= i <= |todo|
        invariant citation.bibliography == this
        invariant items == AddCites(old(items), source, todo[..i])
        invariant keys == KeysOf(items)
        invariant reported == if hasCallback then Unresolved(todo[..i], source) else []
      {
        var item := todo[i];
        assert todo[..i + 1][..i] == todo[..i];
        if item.key in source {
          if item.key !in keys {
            assert KeysOf(items + [item]) == keys + [item.key];
            keys := keys + [item.key];
            items := items + [item];
          }
        } else if hasCallback {
          reported := reported + [item];
        }
        i := i + 1;
      }
      assert todo[..|todo|] == todo;
      AddCitesKeepsRegistry(old(items), source, todo);
      assert old(keys) == KeysOf(old(items));
      assert KeysOf(items)[..|old(items)|] == KeysOf(old(items));
    }

    /** Replaces `items` by the engine's ordering and recomputes `keys`; the
        registry stays valid whenever that ordering is a permutation. */
    method Sort()
      requires Valid()
      modifies this`keys, this`items
      ensures items == style.sortBibliography(old(items))
      ensures keys == KeysOf(items)
      ensures multiset(items) == multiset(old(items)) ==> Valid()
    {
      var sorted := style.sortBibliography(items);
      if multiset(sorted) == multiset(items) {
        PermutationKeepsRegistry(items, sorted, source);
      }
      items := sorted;
      keys := KeysOf(items);
    }

    /** Renders one citation, passing the registry's citation history. */
    method Cite(citation: Citation, hasCallback: bool) returns (text: string)
      ensures text == style.renderCitation(citation, cites, hasCallback)
    {
      text := style.renderCitation(citation, cites, hasCallback);
    }

    /** Renders the bibliography over the current order of `items`. */
    method Bibliography() returns (text: string)
      ensures text == style.renderBibliography(items)
    {
      text := style.renderBibliography(items);
    }
  }

  /** A client: citing [b, a, c] and then [a] leaves the keys in first-cite
      order, and a key outside the source is reported on every registration. */
  method FirstCiteOrderScenario(style: RuleEngine)
  {
    var a, b, c := CitationItem("a", ""), CitationItem("b", ""), CitationItem("c", "");
    var z := CitationItem("z", "");
    var source := {"a", "b", "c"};
    var bib := new CitationStylesBibliography(style, source);
    var first := new Citation([b, a, c]);
    var second := new Citation([a]);
    var r1 := bib.Register(first, true);
    var r2 := bib.Register(second, true);
    FirstCiteOrderExample(source);
    assert bib.keys == ["b", "a", "c"];
    var stray := new Citation([z]);
    var before := bib.items;
    var r3 := bib.Register(stray, true);
    var r4 := bib.Register(stray, true);
    assert [z][..0] == [];
    assert r3 == [z] && r4 == [z] && bib.items == before;
  }
}
