# citeproc-py frontend, modelled in Dafny

This project models the control layer of citeproc-py, `citeproc/frontend.py`. The model has two parts.

- **Style and locale resolution** (`CitationStylesStyle.__init__`, `CitationStylesLocale.__init__`). A style identifier goes through a first-match-wins chain:
  1. an identifier that is not a string passes through;
  2. an existing path is used as given;
  3. otherwise the bundled `<STYLES_PATH>/<name>.csl` is tried;
  4. otherwise the optional `citeproc_styles` catalog is tried;
  5. last, the raw-content fallback applies.

  The result is the chosen source with its provenance, or one of the errors the Python code raises: its ValueErrors, or an exception from the catalog that it does not catch. The filesystem, the importability of the catalog, the catalog's answers and what the XML loader makes of a source (a style or a locale file) are all fields of one `Env` value. Each resolution also records the calls it made: the paths given to `os.path.exists`, whether the catalog import was attempted, and the names given to `get_style_filepath`. This lets the model state what is *not* consulted. The model also covers how the style's locale is chosen (the caller's, else the root's `default-locale`, else `en-US`) and which file `locales-<tag>.xml` a locale tag names and how loading it fails.
- **The bibliography registry** (`CitationStylesBibliography`). This is a class whose `keys` and `items` fields are updated in place:
  - `Register` runs the Python code's loop over the citation's items;
  - `Sort` replaces `items` with the rule engine's ordering and recomputes `keys`;
  - `Cite` and `Bibliography` are read-only delegations.

  The rule engine (sorting and rendering) is supplied as functions in a `RuleEngine` value. The calls to the unresolved-item callback are returned as a sequence. What registration does is specified by the function `Registration.AddCites` on values, and the registry's properties are proved about that function.

Files:
- `text.dfy`: Option/Result, substring containment, `os.path.join`.
- `style_loading.dfy`: the resolution model.
- `style_loading_properties.dfy`: its properties.
- `registration.dfy`: the specification of `register` and its lemmas.
- `bibliography.dfy`: the classes.

Behaviour of the code worth noting:
- `register` appends the CitationItem itself to `items`. It does not append a record looked up from the source collection.
- `_cites` starts empty and is never extended. It is passed as-is to `render_citation`.
- A string identifier reaches the raw-content fallback only when the catalog raises TypeError or returns None. An empty string therefore still goes through the path, bundled and catalog checks. It never reaches "is not a known style" directly.
- `CitationStylesLocale` does no primary-dialect fallback for locales.
- A catalog path that does not exist is not checked during resolution. It fails when it is loaded, as "is not a known style".

## Model

| member | source | states |
|---|---|---|
| `Text.Join` | citeproc/frontend.py:59 | `os.path.join`: an absolute name replaces the directory; otherwise the result starts with the directory and ends with the name, with nothing between them exactly when the directory is empty or ends in `/`, and otherwise a single `/` |
| `StyleLoading.BundledPath` | citeproc/frontend.py:59 | the bundled candidate ends with `<style>.csl`, and lies under the styles root unless the style name is absolute |
| `StyleLoading.Truthy` | citeproc/frontend.py:86 | for a string identifier, the empty string is the only falsy value; other identifiers carry their own truthiness |
| `StyleLoading.Fallback` | citeproc/frontend.py:85-91 | with `style_src` unset, a truthy identifier is itself the source (provenance Raw) and a falsy one is "not a known style" |
| `StyleLoading.ResolveStyle` | citeproc/frontend.py:46-91 | a non-string makes no existence check and no catalog call; a string is first checked as a path; at most two existence checks precede a lookup; the catalog is looked up at most once, and only with the style name; any provenance other than Raw comes from a string identifier and yields a path |
| `StyleLoading.StyleErrorMessage` | citeproc/frontend.py:66-97 | each ValueError message opens with the quoted name (`str()` of the identifier) and ends with its own text: the install hint, "or in citeproc-py-styles package", or "' is not a known style" |
| `StyleLoading.ChosenLocale` | citeproc/frontend.py:98-99 | the locale is the requested one, else the root's `default-locale`, else `en-US` |
| `StyleLoading.NewStyle` | citeproc/frontend.py:93-99 | a constructed style's source is what resolution chose, and the loader parsed that very source into the style's document |
| `StyleLoading.LocalePath` | citeproc/frontend.py:37 | the locale file lies under the locales root and ends with `locales-<tag>.xml` |
| `StyleLoading.LoadLocale` | citeproc/frontend.py:36-42 | the loader is given `locales-<tag>.xml` under the locales root; the locale loads iff the loader parses that file; a file the loader cannot open (IOError) is exactly the "unknown locale" error for that tag; an unparsable one is exactly the syntax error naming that file (lxml's error is not caught) |
| `StyleLoading.LocaleErrorMessage` | citeproc/frontend.py:42 | the unknown-locale message is the quoted tag followed by " is not a known locale" |
| `StyleLoadingProperties.ProvenanceCharacterised` | citeproc/frontend.py:49-91 | each provenance (Filesystem, Bundled, ExternalCatalog, Raw) is produced exactly under its own condition of the if/elif chain, both directions; a Raw source is the identifier itself |
| `StyleLoadingProperties.NonStringPassesThrough` | citeproc/frontend.py:52-53 | a non-string identifier makes no existence check and no catalog call; if truthy it is the raw source, if falsy the error is "'<str(style)>' is not a known style" |
| `StyleLoadingProperties.ExistingPathWins` | citeproc/frontend.py:55-56 | an existing path resolves to itself after one existence check, without the bundled location or the catalog |
| `StyleLoadingProperties.BundledWins` | citeproc/frontend.py:58-61 | a bundled `<style>.csl` is the source after two existence checks, and the catalog is neither imported nor looked up |
| `StyleLoadingProperties.CatalogIrrelevantWhenFound` | citeproc/frontend.py:55-61 | when the path or the bundled file exists, the resolution is the same whatever the catalog state |
| `StyleLoadingProperties.CatalogLookedUpOnce` | citeproc/frontend.py:63-81 | the catalog lookup happens iff the chain reaches the catalog with the package importable, and then exactly once, with the style name; the import is attempted iff the chain reaches the catalog |
| `StyleLoadingProperties.CatalogHit` | tests/test_style_loading.py:43-70 | a catalog hit makes the returned path the source, after exactly two existence checks and one lookup with the style name |
| `StyleLoadingProperties.EmptyNameAfterCatalogIsUnknown` | citeproc/frontend.py:82-91 | when the catalog returns None or raises TypeError for a falsy string (only the empty string), the error is "not a known style" for it |
| `StyleLoadingProperties.TruthyNameAfterCatalogIsRaw` | citeproc/frontend.py:82-88 | when the catalog returns None or raises TypeError for a non-empty string, that string itself is the raw source |
| `StyleLoadingProperties.CatalogOtherExceptionPropagates` | citeproc/frontend.py:73-81 | an exception from `get_style_filepath` other than KeyError, FileNotFoundError or TypeError propagates unchanged, after one lookup |
| `StyleLoadingProperties.CatalogAbsentError` | citeproc/frontend.py:63-72 | without the catalog package the error is the install-hint error, and no lookup is made |
| `StyleLoadingProperties.CatalogMissError` | citeproc/frontend.py:73-81 | a KeyError or FileNotFoundError from the catalog gives the "or in citeproc-py-styles package" error, after one lookup |
| `StyleLoadingProperties.NotInBundledMessage` | citeproc/frontend.py:68-72 | the install-hint message contains the style name, "not found in bundled styles" and "pip install citeproc-py-styles" |
| `StyleLoadingProperties.NotInBundledOrCatalogMessage` | citeproc/frontend.py:78-81 | the catalog-miss message contains the style name, "not found in bundled styles" and "or in citeproc-py-styles package" |
| `StyleLoadingProperties.AbsoluteNameLeavesStylesRoot` | citeproc/frontend.py:59 | for an absolute style name the "bundled" candidate is `<name>.csl` beside the name, not under the styles root |
| `StyleLoadingProperties.NewStyleOutcome` | citeproc/frontend.py:93-99 | resolution errors propagate; a source the loader cannot open is "not a known style"; a malformed one is an XML syntax error; a parsed one gives exactly the style built from that document, with the requested locale, else its `default-locale`, else `en-US` |
| `StyleLoadingProperties.LocalePathInjective` | citeproc/frontend.py:37 | distinct locale tags name distinct locale files |
| `StyleLoadingProperties.UnknownLocaleMessage` | citeproc/frontend.py:38-42 | a locale file the loader cannot open gives the unknown-locale error, and its message contains the tag |
| `Registration.KeysOf` | citeproc/frontend.py:136 | `keys` as recomputed from `items`: same length, `keys[i] == items[i].key` |
| `Registration.Step` | citeproc/frontend.py:127-130 | one loop iteration appends the item exactly when the source has its key and no registered item carries it, and otherwise leaves `items` as they are |
| `Registration.AddCites` | citeproc/frontend.py:126-130 | registering only appends, at most one entry per cited item: the previous `items` are a prefix of the new ones |
| `Registration.Unresolved` | citeproc/frontend.py:131-132 | the callback receives at most one call per cited item, and only with items whose key the source lacks |
| `Registration.AddCitesKeepsRegistry` | citeproc/frontend.py:127-130 | registration keeps keys duplicate-free and within the source collection |
| `Registration.AddCitesMembership` | citeproc/frontend.py:126-130 | a key is registered afterwards iff it was before, or the source has it and some cited item carries it |
| `Registration.AddCitesFirstCiteOrder` | citeproc/frontend.py:126-130 | each appended item is the first cited item with its key, and appended items are ordered by the position where their key was first cited |
| `Registration.AddCitesConcat` | citeproc/frontend.py:124-130 | registering two citations in turn equals registering their concatenated items |
| `Registration.AddCitesNoOp` | citeproc/frontend.py:128 | cited items whose keys are all registered or unresolvable change nothing |
| `Registration.AddCitesIdempotent` | citeproc/frontend.py:124-130 | registering the same citation a second time leaves `items` (hence `keys`) unchanged |
| `Registration.AddCitesIgnoresUnresolved` | citeproc/frontend.py:127-132 | items whose key the source lacks have no effect on `items`: the result is the same as registering only the resolvable items |
| `Registration.UnresolvedCounts` | citeproc/frontend.py:131-132 | the callback receives each unresolved item as many times as it is cited, and never a resolvable one |
| `Registration.UnresolvedConcat` | citeproc/frontend.py:131-132 | callback reports are not deduplicated across registrations: two citations report their unresolved items in turn |
| `Registration.ResolvableUnresolvedPartition` | citeproc/frontend.py:127-132 | every cited item is either resolvable or reported, never both |
| `Registration.PermutationKeepsRegistry` | citeproc/frontend.py:134-136 | a reordering with the same multiset of items keeps keys unique and within the source |
| `Registration.FirstCiteOrderExample` | citeproc/frontend.py:124-130 | registering [b, a, c] and then [a] gives keys [b, a, c] |
| `Bibliography.CitationStylesBibliography.constructor` | citeproc/frontend.py:116-122 | a new registry is valid, bound to the given rule engine and source, with empty `keys`, `items` and `_cites` |
| `Bibliography.CitationStylesBibliography.Register` | citeproc/frontend.py:124-132 | binds the citation to the registry; new `items` are `AddCites` of the old ones; `keys` extend the old keys; validity is kept; the returned callback reports are the unresolved items, or none without a callback; `_cites` is untouched |
| `Bibliography.CitationStylesBibliography.Sort` | citeproc/frontend.py:134-136 | `items` become the engine's ordering of the old items and `keys` are recomputed from them; the registry stays valid when that ordering is a permutation |
| `Bibliography.CitationStylesBibliography.Cite` | citeproc/frontend.py:138-139 | read-only: the text is the engine's rendering of the citation with the registry's `_cites` and the callback |
| `Bibliography.CitationStylesBibliography.Bibliography` | citeproc/frontend.py:141-142 | read-only: the text is the engine's rendering of the current `items` order |

## Left out

- XML parsing with lxml, the namespace class lookup built from the element subclasses, and RelaxNG validation with its warn-only policy (citeproc/frontend.py:14-32). These are a foreign library and I/O. The loader is reduced to a map from sources (style sources and locale file paths) to "parsed", "malformed" or absent (absent means IOError).
- An ImportError from `from citeproc_styles import get_style_filepath` (citeproc/frontend.py:74), raised when the package imports but lacks that function, is not modelled: `Env` describes an importable catalog by its answers only. Other exceptions from `get_style_filepath` are modelled as `CatalogRaised`, propagated unchanged.
- `set_locale_list` and the locale list it builds: this code lives in citeproc/model, which is not part of this model. The model stops at the locale tag handed to it and at the `locales-<tag>.xml` file a `CitationStylesLocale` opens.
- Locale dialect fallback: `CitationStylesLocale` does none.
- `has_bibliography`, `render_citation`, `sort_bibliography` and `render_bibliography` of the style delegate to the rule engine in citeproc/model, which is not part of this model. The registry uses them as the functions of a `RuleEngine`.
- The output formatter that the registry's constructor stores on itself and on the style root (citeproc/frontend.py:116-119). It only matters to the rule engine.
- `Bibliography.CitationStylesBibliography.Sort`: does not state stability or idempotence, and keeps validity only when the engine returns a permutation. Both depend on the engine's unseen sort.
- `Bibliography.CitationStylesBibliography.Register`: the callback is modelled as the sequence of items it is called with. It is not an arbitrary function that could raise or have effects. The source collection is a fixed set of keys.
- `Registration.CitationItem` keeps only the key and a locator. Its other per-citation fields are never read by the frontend.
- `StyleLoading.StyleId`: a non-string identifier keeps only its truthiness and its `str()`. `get_style_filepath` returning a path object is modelled as returning its string.
- `StyleLoading.Env`: existence and readability of a path are fixed for one resolution. Races between the existence check and the load are not modelled.
- citeproc/__init__.py (resource paths, variable-name lists, `locales.json` loading) and setup.py (build tooling) are not part of this model. STYLES_PATH and LOCALES_PATH are fields of `Env`.
