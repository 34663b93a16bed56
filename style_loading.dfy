/** How a style identifier becomes the document a CitationStylesStyle is
    built from (citeproc/frontend.py, CitationStylesStyle.__init__), how the
    style's locale is chosen, and where a locale document is looked up
    (CitationStylesLocale.__init__).

    The filesystem, the optional `citeproc_styles` package and the XML loader
    are not called: they are the fields of an `Env` value. Every existence
    check and every catalog probe the resolution makes is recorded in a trace,
    so that what is *not* consulted can be stated. */
module StyleLoading {
  import opened Text

  /** What the caller passes as `style`: a Python `str`, or any other object
      (a file-like object, bytes, None, ...) of which only its truthiness and
      its `str()` matter here. */
  datatype StyleId = Str(s: string) | NonStr(truthy: bool, text: string)

  /** What `citeproc_styles.get_style_filepath(name)` does for a name it knows;
      a name missing from the catalog's map raises KeyError. `RaisesOther`
      stands for any exception the frontend does not catch (ValueError,
      PermissionError, ...), named by its class. */
  datatype Lookup =
    | Returns(path: string)
    | ReturnsNone
    | RaisesFileNotFound
    | RaisesTypeError
    | RaisesOther(exception: string)

  /** The parsed root of a style document, reduced to what the frontend reads. */
  datatype StyleDoc = StyleDoc(defaultLocale: Option<string>)

  /** What the XML loader makes of a source; a source it cannot open raises IOError. */
  datatype Load = Parsed(doc: StyleDoc) | Malformed

  datatype Env = Env(
    stylesRoot: string,                     // STYLES_PATH
    localesRoot: string,                    // LOCALES_PATH
    existing: set<string>,                  // paths for which os.path.exists holds
    catalog: Option<map<string, Lookup>>,   // None: `import citeproc_styles` fails
    documents: map<StyleId, Load>           // sources the loader can open (styles and locale
                                            // files; a locale file's StyleDoc payload is ignored)
  )

  datatype Provenance = Raw | Filesystem | Bundled | ExternalCatalog

  /** `style_src` with the branch that produced it: a path string, or for `Raw`
      the identifier itself, handed unchanged to the loader. */
  datatype Resolved = Resolved(provenance: Provenance, src: StyleId)

  datatype StyleError =
    | NotInBundled(style: string, stylesRoot: string)
    | NotInBundledOrCatalog(style: string, bundledPath: string)
    | UnknownStyle(id: StyleId)
    | XmlSyntaxError(src: StyleId)
    | CatalogRaised(exception: string)      // propagated unchanged from get_style_filepath

  /** The outcome, with the calls made on the way: the paths given to
      `os.path.exists`, whether `import citeproc_styles` was attempted, and the
      names given to `get_style_filepath`, each in call order. */
  datatype Resolution = Resolution(
    outcome: Result<Resolved, StyleError>,
    existsChecks: seq<string>,
    catalogImported: bool,
    catalogLookups: seq<string>
  )

  datatype Style = Style(source: Resolved, doc: StyleDoc, locale: string)

  datatype LocaleError = UnknownLocale(tag: string) | LocaleSyntaxError(path: string)

  const NotFoundInBundled := "not found in bundled styles"
  const InstallHint := "pip install citeproc-py-styles"
  const OrInCatalog := "or in citeproc-py-styles package"
  const FallbackLocale := "en-US"

  /** `os.path.join(STYLES_PATH, f'{style}.csl')`. */
  function BundledPath(stylesRoot: string, style: string): (p: string)
    ensures EndsWith(p, style + ".csl")
    ensures !(|style| > 0 && style[0] == '/') ==> stylesRoot <= p
  {
    Join(stylesRoot, style + ".csl")
  }

  /** Python truthiness of the identifier: the empty string is the only
      falsy string. */
  predicate Truthy(id: StyleId): (b: bool)
    ensures id.Str? ==> (b <==> id != Str(""))
  {
    match id
    case Str(s) => s != ""
    case NonStr(truthy, _) => truthy
  }

  /** The tail of the chain, reached with `style_src` still None: a truthy
      identifier is taken as the document itself, a falsy one is an error. */
  function Fallback(id: StyleId, checks: seq<string>, imported: bool, lookups: seq<string>): (r: Resolution)
    ensures r.existsChecks == checks && r.catalogImported == imported && r.catalogLookups == lookups
    ensures r.outcome.Ok? <==> Truthy(id)
    ensures r.outcome.Ok? ==> r.outcome.value == Resolved(Raw, id)
    ensures r.outcome.Err? ==> r.outcome.error == UnknownStyle(id)
  {
    if Truthy(id) then Resolution(Ok(Resolved(Raw, id)), checks, imported, lookups)
    else Resolution(Err(UnknownStyle(id)), checks, imported, lookups)
  }

  /** The first-match-wins chain: not a string, an existing path, the bundled
      `<name>.csl`, the `citeproc_styles` catalog, raw content. A catalog that
      raises TypeError or returns None leaves `style_src` unset, so the raw
      fallback applies to the string itself. */
  function ResolveStyle(id: StyleId, env: Env): (r: Resolution)
    ensures id.NonStr? ==> r.existsChecks == [] && !r.catalogImported && r.catalogLookups == []
    ensures id.Str? ==> 1 <= |r.existsChecks| <= 2 && r.existsChecks[0] == id.s
    ensures r.catalogLookups == [] || (id.Str? && r.catalogLookups == [id.s])
    ensures r.catalogLookups != [] ==> r.catalogImported && |r.existsChecks| == 2
    ensures r.outcome.Ok? && r.outcome.value.provenance != Raw ==>
      r.outcome.value.src.Str? && id.Str?
  {
    match id
    case NonStr(_, _) => Fallback(id, [], false, [])
    case Str(style) =>
      if style in env.existing then
        Resolution(Ok(Resolved(Filesystem, id)), [style], false, [])
      else
        var bundled := BundledPath(env.stylesRoot, style);
        var checks := [style, bundled];
        if bundled in env.existing then
          Resolution(Ok(Resolved(Bundled, Str(bundled))), checks, false, [])
        else
          match env.catalog
          case None => Resolution(Err(NotInBundled(style, env.stylesRoot)), checks, true, [])
          case Some(names) =>
            if style !in names then
              Resolution(Err(NotInBundledOrCatalog(style, bundled)), checks, true, [style])
            else
              match names[style]
              case Returns(path) =>
                Resolution(Ok(Resolved(ExternalCatalog, Str(path))), checks, true, [style])
              case RaisesFileNotFound =>
                Resolution(Err(NotInBundledOrCatalog(style, bundled)), checks, true, [style])
              case ReturnsNone => Fallback(id, checks, true, [style])
              case RaisesTypeError => Fallback(id, checks, true, [style])
              case RaisesOther(exc) =>
                Resolution(Err(CatalogRaised(exc)), checks, true, [style])
  }

  /** The text of the ValueError raised for each failure (Python formats the
      identifier with `str()`): it opens with the quoted name. An XML syntax
      error is lxml's own exception, and a propagated catalog exception keeps
      its own text. */
  function StyleErrorMessage(e: StyleError): (msg: string)
    requires !e.XmlSyntaxError? && !e.CatalogRaised?
    ensures var name := if e.UnknownStyle? then IdText(e.id) else e.style;
      |msg| > |name| + 1 && msg[..|name| + 2] == "'" + name + "'"
    ensures e.NotInBundled? ==> EndsWith(msg, InstallHint)
    ensures e.NotInBundledOrCatalog? ==> EndsWith(msg, OrInCatalog)
    ensures e.UnknownStyle? ==> EndsWith(msg, "' is not a known style")
  {
    match e
    case NotInBundled(style, root) =>
      "'" + style + "' " + NotFoundInBundled + " (" + root + "). "
      + "To access more styles, install the citeproc-py-styles package with: " + InstallHint
    case NotInBundledOrCatalog(style, bundled) =>
      "'" + style + "' " + NotFoundInBundled + " (" + bundled + ") " + OrInCatalog
    case UnknownStyle(id) =>
      "'" + IdText(id) + "' is not a known style"
  }

  /** `str(style)`. */
  function IdText(id: StyleId): string {
    match id
    case Str(s) => s
    case NonStr(_, text) => text
  }

  /** The locale handed to the style's locale list: the caller's, else the
      style root's `default-locale` attribute, else en-US. */
  function ChosenLocale(requested: Option<string>, doc: StyleDoc): (tag: string)
    ensures requested.Some? ==> tag == requested.value
    ensures requested.None? && doc.defaultLocale.Some? ==> tag == doc.defaultLocale.value
    ensures requested.None? && doc.defaultLocale.None? ==> tag == FallbackLocale
  {
    match requested
    case Some(t) => t
    case None => doc.defaultLocale.GetOr(FallbackLocale)
  }

  /** CitationStylesStyle(style, locale): resolve, load (an IOError becomes
      "is not a known style"), then choose the locale. */
  function NewStyle(id: StyleId, requested: Option<string>, env: Env): (r: Result<Style, StyleError>)
    ensures r.Ok? ==> ResolveStyle(id, env).outcome == Ok(r.value.source)
    ensures r.Ok? ==>
      r.value.source.src in env.documents && env.documents[r.value.source.src] == Parsed(r.value.doc)
  {
    match ResolveStyle(id, env).outcome
    case Err(e) => Err(e)
    case Ok(resolved) =>
      if resolved.src !in env.documents then Err(UnknownStyle(id))
      else match env.documents[resolved.src]
        case Malformed => Err(XmlSyntaxError(resolved.src))
        case Parsed(doc) => Ok(Style(resolved, doc, ChosenLocale(requested, doc)))
  }

  /** `os.path.join(LOCALES_PATH, 'locales-{}.xml'.format(locale))`. */
  function LocalePath(localesRoot: string, tag: string): (p: string)
    ensures localesRoot <= p
    ensures EndsWith(p, "locales-" + tag + ".xml")
  {
    Join(localesRoot, "locales-" + tag + ".xml")
  }

  /** CitationStylesLocale(locale): the loader is given `locales-<tag>.xml`
      under the locales root; a file it cannot open is "not a known locale",
      and one it cannot parse raises lxml's syntax error. */
  function LoadLocale(tag: string, env: Env): (r: Result<string, LocaleError>)
    ensures var path := LocalePath(env.localesRoot, tag);
      && (r.Ok? <==> Str(path) in env.documents && env.documents[Str(path)].Parsed?)
      && (r.Ok? ==> r.value == path)
      && (r == Err(UnknownLocale(tag)) <==> Str(path) !in env.documents)
      && (Str(path) in env.documents && env.documents[Str(path)].Malformed? ==>
            r == Err(LocaleSyntaxError(path)))
  {
    var path := LocalePath(env.localesRoot, tag);
    if Str(path) !in env.documents then Err(UnknownLocale(tag))
    else match env.documents[Str(path)]
      case Malformed => Err(LocaleSyntaxError(path))
      case Parsed(_) => Ok(path)
  }

  /** The text of the ValueError for a locale file that cannot be opened. */
  function LocaleErrorMessage(e: LocaleError): (msg: string)
    requires e.UnknownLocale?
    ensures |msg| > |e.tag| + 1 && msg[..|e.tag| + 2] == "'" + e.tag + "'"
    ensures msg[|e.tag| + 1..] == "' is not a known locale"
  {
    "'" + e.tag + "' is not a known locale"
  }
}
