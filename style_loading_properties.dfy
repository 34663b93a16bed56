/** What the style and locale resolution of citeproc/frontend.py guarantees:
    which branch of the chain is taken for which environment, what is never
    consulted, and what the raised messages say. */
module StyleLoadingProperties {
  import opened Text
  import opened StyleLoading

  /** A string identifier that is neither an existing path nor a bundled style:
      only then is the `citeproc_styles` catalog involved. */
  predicate ReachesCatalog(id: StyleId, env: Env) {
    id.Str? && id.s !in env.existing && BundledPath(env.stylesRoot, id.s) !in env.existing
  }

  /** The catalog answer that leaves `style_src` unset for a string identifier. */
  predicate CatalogLeavesUnset(id: StyleId, env: Env) {
    ReachesCatalog(id, env) && env.catalog.Some? && id.s in env.catalog.value
    && (env.catalog.value[id.s].ReturnsNone? || env.catalog.value[id.s].RaisesTypeError?)
  }

  predicate HasProvenance(r: Resolution, p: Provenance) {
    r.outcome.Ok? && r.outcome.value.provenance == p
  }

  /** Exactly one branch: each provenance is produced precisely under its own
      condition, and the conditions are those of the constructor's if/elif chain. */
  lemma ProvenanceCharacterised(id: StyleId, env: Env)
    ensures var r := ResolveStyle(id, env);
      && (HasProvenance(r, Filesystem) <==> id.Str? && id.s in env.existing)
      && (HasProvenance(r, Bundled) <==>
            id.Str? && id.s !in env.existing && BundledPath(env.stylesRoot, id.s) in env.existing)
      && (HasProvenance(r, ExternalCatalog) <==>
            ReachesCatalog(id, env) && env.catalog.Some? && id.s in env.catalog.value
            && env.catalog.value[id.s].Returns?)
      && (HasProvenance(r, Raw) <==> Truthy(id) && (id.NonStr? || CatalogLeavesUnset(id, env)))
      && (HasProvenance(r, Raw) ==> r.outcome.value.src == id)
  {
  }

  /** A non-string identifier skips every path check and the catalog: it is
      the document itself when truthy, and "not a known style" when falsy. */
  lemma NonStringPassesThrough(id: StyleId, env: Env)
    requires id.NonStr?
    ensures var r := ResolveStyle(id, env);
      && r.existsChecks == [] && !r.catalogImported && r.catalogLookups == []
      && (id.truthy ==> r.outcome == Ok(Resolved(Raw, id)))
      && (!id.truthy ==> r.outcome == Err(UnknownStyle(id))
                         && StyleErrorMessage(r.outcome.error) == "'" + id.text + "' is not a known style")
  {
  }

  /** An existing path is used as given; the bundled location and the
      catalog are never consulted. */
  lemma ExistingPathWins(style: string, env: Env)
    requires style in env.existing
    ensures ResolveStyle(Str(style), env)
      == Resolution(Ok(Resolved(Filesystem, Str(style))), [style], false, [])
  {
  }

  /** A bundled `<style>.csl` wins over the catalog, which is never imported. */
  lemma BundledWins(style: string, env: Env)
    requires style !in env.existing && BundledPath(env.stylesRoot, style) in env.existing
    ensures var bundled := BundledPath(env.stylesRoot, style);
      ResolveStyle(Str(style), env)
        == Resolution(Ok(Resolved(Bundled, Str(bundled))), [style, bundled], false, [])
  {
  }

  /** Once the path or the bundled file exists, whether and how the catalog
      is installed makes no difference at all. */
  lemma CatalogIrrelevantWhenFound(id: StyleId, env: Env, other: Option<map<string, Lookup>>)
    requires id.Str? && !ReachesCatalog(id, env)
    ensures ResolveStyle(id, env) == ResolveStyle(id, env.(catalog := other))
  {
  }

  /** The catalog's lookup is called iff the chain reaches it with the package
      importable, and then exactly once, with the style name. */
  lemma CatalogLookedUpOnce(id: StyleId, env: Env)
    ensures var r := ResolveStyle(id, env);
      && (r.catalogLookups != [] <==> ReachesCatalog(id, env) && env.catalog.Some?)
      && (r.catalogLookups != [] ==> r.catalogLookups == [id.s])
      && (r.catalogImported <==> ReachesCatalog(id, env))
  {
  }

  /** A catalog hit: the returned path is the source, after exactly two
      existence checks and one lookup. */
  lemma CatalogHit(style: string, env: Env, path: string)
    requires ReachesCatalog(Str(style), env)
    requires env.catalog.Some? && style in env.catalog.value
    requires env.catalog.value[style] == Returns(path)
    ensures ResolveStyle(Str(style), env)
      == Resolution(Ok(Resolved(ExternalCatalog, Str(path))),
                    [style, BundledPath(env.stylesRoot, style)], true, [style])
  {
  }

  /** The install-hint message names the style, the bundled styles and the
      command that installs the catalog package. */
  lemma {:induction false} NotInBundledMessage(style: string, root: string)
    ensures var msg := StyleErrorMessage(NotInBundled(style, root));
      Contains(msg, style) && Contains(msg, NotFoundInBundled) && Contains(msg, InstallHint)
  {
    var tail := "To access more styles, install the citeproc-py-styles package with: ";
    ContainsInfix("'", style, []);
    assert "'" + style + [] == "'" + style;
    ContainsExtend("'" + style, style, "' ");
    ContainsExtend("'" + style + "' ", style, NotFoundInBundled);
    ContainsInfix("'" + style + "' ", NotFoundInBundled, []);
    assert "'" + style + "' " + NotFoundInBundled + [] == "'" + style + "' " + NotFoundInBundled;
    var s1 := "'" + style + "' " + NotFoundInBundled;
    ContainsExtend(s1, style, " (");
    ContainsExtend(s1, NotFoundInBundled, " (");
    ContainsExtend(s1 + " (", style, root);
    ContainsExtend(s1 + " (", NotFoundInBundled, root);
    ContainsExtend(s1 + " (" + root, style, "). ");
    ContainsExtend(s1 + " (" + root, NotFoundInBundled, "). ");
    var s2 := s1 + " (" + root + "). " + tail;
    ContainsExtend(s1 + " (" + root + "). ", style, tail);
    ContainsExtend(s1 + " (" + root + "). ", NotFoundInBundled, tail);
    ContainsExtend(s2, style, InstallHint);
    ContainsExtend(s2, NotFoundInBundled, InstallHint);
    ContainsInfix(s2, InstallHint, []);
    assert s2 + InstallHint + [] == s2 + InstallHint;
  }

  /** The catalog-miss message names the style, the bundled styles and the
      catalog package. */
  lemma {:induction false} NotInBundledOrCatalogMessage(style: string, bundled: string)
    ensures var msg := StyleErrorMessage(NotInBundledOrCatalog(style, bundled));
      Contains(msg, style) && Contains(msg, NotFoundInBundled) && Contains(msg, OrInCatalog)
  {
    ContainsInfix("'", style, []);
    assert "'" + style + [] == "'" + style;
    ContainsExtend("'" + style, style, "' ");
    ContainsExtend("'" + style + "' ", style, NotFoundInBundled);
    ContainsInfix("'" + style + "' ", NotFoundInBundled, []);
    assert "'" + style + "' " + NotFoundInBundled + [] == "'" + style + "' " + NotFoundInBundled;
    var s1 := "'" + style + "' " + NotFoundInBundled;
    ContainsExtend(s1, style, " (");
    ContainsExtend(s1, NotFoundInBundled, " (");
    ContainsExtend(s1 + " (", style, bundled);
    ContainsExtend(s1 + " (", NotFoundInBundled, bundled);
    var s2 := s1 + " (" + bundled + ") ";
    ContainsExtend(s1 + " (" + bundled, style, ") ");
    ContainsExtend(s1 + " (" + bundled, NotFoundInBundled, ") ");
    ContainsExtend(s2, style, OrInCatalog);
    ContainsExtend(s2, NotFoundInBundled, OrInCatalog);
    ContainsInfix(s2, OrInCatalog, []);
    assert s2 + OrInCatalog + [] == s2 + OrInCatalog;
  }

  /** Without the catalog package the error is the install hint, and no
      lookup is attempted. */
  lemma CatalogAbsentError(style: string, env: Env)
    requires ReachesCatalog(Str(style), env) && env.catalog.None?
    ensures var r := ResolveStyle(Str(style), env);
      && r.outcome == Err(NotInBundled(style, env.stylesRoot))
      && r.catalogImported && r.catalogLookups == []
  {
  }

  /** A catalog answer that leaves `style_src` unset for the empty string
      ends in "not a known style", as the raw fallback needs a truthy value. */
  lemma EmptyNameAfterCatalogIsUnknown(id: StyleId, env: Env)
    requires CatalogLeavesUnset(id, env) && !Truthy(id)
    ensures ResolveStyle(id, env).outcome == Err(UnknownStyle(id))
    ensures id == Str("")
  {
  }

  /** A truthy string that the catalog leaves unset (None or TypeError) is
      itself handed to the loader as raw content. */
  lemma TruthyNameAfterCatalogIsRaw(id: StyleId, env: Env)
    requires CatalogLeavesUnset(id, env) && Truthy(id)
    ensures ResolveStyle(id, env).outcome == Ok(Resolved(Raw, id))
  {
  }

  /** Any other exception from `get_style_filepath` escapes the constructor
      unchanged, after the one lookup. */
  lemma CatalogOtherExceptionPropagates(style: string, env: Env, exception: string)
    requires ReachesCatalog(Str(style), env) && env.catalog.Some?
    requires style in env.catalog.value && env.catalog.value[style] == RaisesOther(exception)
    ensures var r := ResolveStyle(Str(style), env);
      && r.outcome == Err(CatalogRaised(exception))
      && r.catalogLookups == [style]
  {
  }

  /** With the catalog package installed, a name it does not know (KeyError)
      or whose file it cannot find (FileNotFoundError) is the catalog-miss
      error, after one lookup. */
  lemma CatalogMissError(style: string, env: Env)
    requires ReachesCatalog(Str(style), env) && env.catalog.Some?
    requires style !in env.catalog.value || env.catalog.value[style].RaisesFileNotFound?
    ensures var r := ResolveStyle(Str(style), env);
      && r.outcome == Err(NotInBundledOrCatalog(style, BundledPath(env.stylesRoot, style)))
      && r.catalogLookups == [style]
  {
  }

  /** An absolute style name that does not exist is looked up as `<name>.csl`
      beside itself, not under the bundled styles root (os.path.join drops the
      root for an absolute second argument). */
  lemma AbsoluteNameLeavesStylesRoot(stylesRoot: string, style: string)
    requires |style| > 0 && style[0] == '/'
    ensures BundledPath(stylesRoot, style) == style + ".csl"
  {
  }

  /** Loading: a resolved source the loader cannot open is "not a known style",
      an unparsable one is lxml's syntax error, and a parsed one gives the style
      with the locale chosen from the request or the document. */
  lemma NewStyleOutcome(id: StyleId, requested: Option<string>, env: Env)
    ensures var r := NewStyle(id, requested, env);
      var res := ResolveStyle(id, env).outcome;
      && (res.Err? ==> r == Err(res.error))
      && (res.Ok? && res.value.src !in env.documents ==> r == Err(UnknownStyle(id)))
      && (res.Ok? && res.value.src in env.documents && env.documents[res.value.src].Malformed? ==>
            r == Err(XmlSyntaxError(res.value.src)))
      && (res.Ok? && res.value.src in env.documents && env.documents[res.value.src].Parsed? ==>
            var d := env.documents[res.value.src].doc;
            r == Ok(Style(res.value, d, ChosenLocale(requested, d))))
  {
  }

  /** Distinct locale tags name distinct locale files. */
  lemma {:induction false} LocalePathInjective(root: string, tag1: string, tag2: string)
    requires LocalePath(root, tag1) == LocalePath(root, tag2)
    ensures tag1 == tag2
  {
    var n1, n2 := "locales-" + tag1 + ".xml", "locales-" + tag2 + ".xml";
    var pre := if root == [] || root[|root| - 1] == '/' then root else root + "/";
    assert n1[0] == 'l' && n2[0] == 'l';
    assert LocalePath(root, tag1) == pre + n1 && LocalePath(root, tag2) == pre + n2;
    assert n1 == (pre + n1)[|pre|..] == (pre + n2)[|pre|..] == n2;
    assert tag1 == n1[8..|n1| - 4] && tag2 == n2[8..|n2| - 4];
  }

  /** A locale file the loader cannot open is reported with the tag in the message. */
  lemma {:induction false} UnknownLocaleMessage(tag: string, env: Env)
    requires Str(LocalePath(env.localesRoot, tag)) !in env.documents
    ensures LoadLocale(tag, env) == Err(UnknownLocale(tag))
    ensures Contains(LocaleErrorMessage(UnknownLocale(tag)), tag)
  {
    assert LocaleErrorMessage(UnknownLocale(tag)) == "'" + tag + "' is not a known locale";
    ContainsInfix("'", tag, "' is not a known locale");
  }
}
