/** The `Treelight` class of src/treelight.ts: its theme registry with name
    normalisation, its language registry and cache, the one-shot parser
    initialisation, and `highlight` with its strict and graceful failure paths.
    The tree-sitter calls are the operations of a `Backend` value. */
module TreelightApi {
  import opened Wrappers
  import Strings
  import opened Html
  import opened Theme
  import opened Renderer
  import MarkupProofs

  const DefaultThemeName := "github-dark"

  /** JavaScript truthiness of an optional string. */
  predicate Filled(s: Option<string>) {
    s.Some? && s.value != ""
  }

  /** `a || b` for an optional string `a`. */
  function Or(a: Option<string>, b: string): string {
    if Filled(a) then a.value else b
  }

  // ---------------------------------------------------------------- theme names

  /** A normalised theme name: not empty, no upper-case letter, no `_`. */
  predicate Normalized(s: string) {
    s != "" && forall i :: 0 <= i < |s| ==> !('A' <= s[i] <= 'Z') && s[i] != '_'
  }

  /** `normalizeThemeName(name)`. */
  function NormalizeThemeName(name: Option<string>): (r: string)
    ensures Normalized(r)
    ensures !Filled(name) ==> r == DefaultThemeName
    ensures Filled(name) ==> |r| == |name.value|
    ensures Filled(name) ==>
      forall i :: 0 <= i < |r| ==> r[i] == (if name.value[i] == '_' then '-' else Strings.LowerChar(name.value[i]))
  {
    if !Filled(name) then DefaultThemeName
    else Strings.ReplaceChar(Strings.AsciiLower(name.value), '_', '-')
  }

  /** A normalised name is left as it is. */
  lemma NormalizeFixes(s: string)
    requires Normalized(s)
    ensures NormalizeThemeName(Some(s)) == s
  {
    var r := NormalizeThemeName(Some(s));
    forall i | 0 <= i < |s| ensures r[i] == s[i] {
      assert Strings.AsciiLower(s)[i] == s[i];
    }
  }

  /** Normalising twice is normalising once. */
  lemma NormalizeIdempotent(name: Option<string>)
    ensures NormalizeThemeName(Some(NormalizeThemeName(name))) == NormalizeThemeName(name)
  {
    NormalizeFixes(NormalizeThemeName(name));
  }

  // ---------------------------------------------------------------- the pre block

  function Background(theme: ThemeDefinition): string {
    Or(GetThemeColor(theme, "ui.background", Bg), Or(GetThemeColor(theme, "ui.background"), "#ffffff"))
  }

  /** Both lookups of `ui.foreground` use the foreground channel. */
  function Foreground(theme: ThemeDefinition): string {
    Or(GetThemeColor(theme, "ui.foreground", Fg), Or(GetThemeColor(theme, "ui.foreground"), "#000000"))
  }

  /** The inside of the opening `pre` tag. */
  function PreHead(themeClass: string, background: string, foreground: string): string {
    "pre class=\"treelight " + themeClass + "\" style=\"background-color: " + background
      + "; color: " + foreground + "\""
  }

  function PreOpen(themeClass: string, background: string, foreground: string): string {
    "<" + PreHead(themeClass, background, foreground) + ">" + "<code>"
  }

  const PreClose := "</code></pre>"

  /** `buildPreBlock(content, themeClass, theme)`. */
  function BuildPreBlock(content: string, themeClass: string, theme: ThemeDefinition): string {
    PreOpen(themeClass, Background(theme), Foreground(theme)) + content + PreClose
  }

  /** The block colours are never empty: `bg` of `ui.background`, else its `fg`,
      else white; `fg` of `ui.foreground`, else black. */
  lemma PreBlockColors(theme: ThemeDefinition)
    ensures Background(theme) != "" && Foreground(theme) != ""
    ensures Resolve(theme.styles, "ui.background").None? ==> Background(theme) == "#ffffff"
    ensures Resolve(theme.styles, "ui.foreground").None? ==> Foreground(theme) == "#000000"
    ensures Filled(GetThemeColor(theme, "ui.background", Bg)) ==>
      Background(theme) == GetThemeColor(theme, "ui.background", Bg).value
  {
  }

  /** The shape of the bundled themes: `ui.background` with only `bg`, and no `ui`
      or `ui.foreground` entry, gives that background on black. */
  lemma BundledThemeBlock(theme: ThemeDefinition, color: string)
    requires color != "" && "ui.background" in theme.styles && theme.styles["ui.background"] == Style(None, Some(color))
    requires "ui" !in theme.styles && "ui.foreground" !in theme.styles
    ensures Background(theme) == color && Foreground(theme) == "#000000"
  {
    var key := "ui.foreground";
    assert key[2] == '.' && forall j :: 2 < j < |key| ==> key[j] != '.';
    assert Strings.LastIndexOf(key, '.') == 2;
    assert key[..2] == "ui";
    assert '.' !in "ui";
    assert Strings.LastIndexOf("ui", '.') == -1;
    assert Resolve(theme.styles, "ui") == None;
    assert Resolve(theme.styles, key) == None;
  }

  /** `theme.id?.replace(/\s+/g, '-') || DEFAULT_THEME_NAME`. */
  function ThemeClass(theme: ThemeDefinition): (r: string)
    ensures r != "" && forall i :: 0 <= i < |r| ==> !Strings.IsSpace(r[i])
    ensures theme.id.Some? && theme.id.value != "" ==> r == Strings.CollapseSpaces(theme.id.value)
  {
    if theme.id.Some? && Strings.CollapseSpaces(theme.id.value) != "" then Strings.CollapseSpaces(theme.id.value)
    else DefaultThemeName
  }

  // ---------------------------------------------------------------- languages and the backend

  datatype Error =
    | ConfigurationError
    | InvalidTheme
    | UnknownLanguage(name: string)
    | InvalidLanguageDefinition
    | BackendFailure(code: nat)

  datatype LanguageQueries = LanguageQueries(highlights: Option<string>, injections: Option<string>, locals: Option<string>)

  /** A grammar: its id, the inline binary or its URL (opaque here), and its queries. */
  datatype LanguageDefinition = LanguageDefinition(id: string, wasm: Option<nat>, wasmUrl: Option<string>, queries: Option<LanguageQueries>)

  /** The three loader shapes: a definition, or a function returning one or a
      promise of one; calling the function may throw. */
  datatype LanguageLoader =
    | Value(definition: LanguageDefinition)
    | SyncFactory(produce: Result<LanguageDefinition, Error>)
    | AsyncFactory(settle: Result<LanguageDefinition, Error>)

  /** `await (typeof loader === 'function' ? loader() : loader)`. */
  function ResolveLoader(loader: LanguageLoader): Result<LanguageDefinition, Error> {
    match loader
    case Value(definition) => Success(definition)
    case SyncFactory(produce) => produce
    case AsyncFactory(settle) => settle
  }

  /** The parser and the compiled highlight query, as backend handles. */
  datatype LanguageState = LanguageState(parser: nat, highlightQuery: nat)

  /** The tree-sitter runtime: `Parser.init`, `loadWasmBinary`, `Language.load`,
      `new Query`, `parser.parse` and `query.captures`. */
  datatype Backend = Backend(
    init: Outcome<Error>,
    loadWasm: LanguageDefinition -> Result<nat, Error>,
    loadGrammar: nat -> Result<nat, Error>,
    compileQuery: (nat, string) -> Result<nat, Error>,
    parse: (nat, string) -> Option<nat>,
    captures: (nat, nat, string) -> seq<Capture>)

  /** The captures of a tree lie inside the text it was parsed from. */
  ghost predicate Sound(backend: Backend) {
    forall query, tree, code :: InBounds(backend.captures(query, tree, code), |code|)
  }

  /** `loadLanguageModule(definition)`: the binary and the grammar are loaded before
      the highlight query is looked at. */
  function LoadModule(backend: Backend, definition: LanguageDefinition): (r: Result<LanguageState, Error>)
    ensures r.Success? ==> definition.queries.Some? && Filled(definition.queries.value.highlights)
    ensures backend.loadWasm(definition).Failure? ==> r == Failure(backend.loadWasm(definition).error)
    ensures (backend.loadWasm(definition).Success? && backend.loadGrammar(backend.loadWasm(definition).value).Success?
             && (definition.queries.None? || !Filled(definition.queries.value.highlights))) ==>
      r == Failure(InvalidLanguageDefinition)
  {
    match backend.loadWasm(definition)
    case Failure(e) => Failure(e)
    case Success(binary) =>
      match backend.loadGrammar(binary)
      case Failure(e) => Failure(e)
      case Success(language) =>
        if definition.queries.None? || !Filled(definition.queries.value.highlights) then Failure(InvalidLanguageDefinition)
        else
          match backend.compileQuery(language, definition.queries.value.highlights.value)
          case Failure(e) => Failure(e)
          case Success(query) => Success(LanguageState(language, query))
  }

  // ---------------------------------------------------------------- the class

  datatype TreelightOptions = TreelightOptions(theme: Option<string>, strict: Option<bool>)

  datatype HighlightOptions = HighlightOptions(theme: Option<string>, strict: bool)

  datatype ThemeInput = ThemeInput(id: Option<string>, styles: Option<Styles>)

  datatype NameOrDefinition = Name(name: string) | Definition(definition: ThemeInput)

  /** The definition `registerTheme` picks: a lone definition, else the second argument. */
  function ChosenTheme(nameOrDefinition: NameOrDefinition, maybeDefinition: Option<ThemeInput>): Option<ThemeInput> {
    if nameOrDefinition.Definition? && maybeDefinition.None? then Some(nameOrDefinition.definition)
    else maybeDefinition
  }

  /** The key `registerTheme` stores under: the given name, else the chosen definition's id. */
  function ThemeKey(nameOrDefinition: NameOrDefinition, theme: Option<ThemeInput>): string {
    if nameOrDefinition.Name? then NormalizeThemeName(Some(nameOrDefinition.name))
    else NormalizeThemeName(if theme.Some? then theme.value.id else None)
  }

  /** The registry the constructor starts from: the bundled theme registered under
      `defaultTheme.id ?? DEFAULT_THEME_NAME`; normalising that name is normalising
      the id, since an absent or empty name normalises to the default. */
  function InitialThemes(defaultTheme: ThemeDefinition): (m: map<string, ThemeDefinition>)
    ensures |m.Keys| == 1
    ensures forall k :: k in m ==> Normalized(k) && m[k] == ThemeDefinition(Some(k), defaultTheme.styles)
    ensures !Filled(defaultTheme.id) ==> DefaultThemeName in m
  {
    var id := NormalizeThemeName(defaultTheme.id);
    map[id := ThemeDefinition(Some(id), defaultTheme.styles)]
  }

  class Treelight {
    const options: TreelightOptions
    const backend: Backend
    var languages: map<string, LanguageLoader>
    var languageCache: map<string, LanguageState>
    var parserInit: Option<Outcome<Error>>
    var themes: map<string, ThemeDefinition>

    /** Every theme is stored under its normalised id, and the backend is sound. */
    ghost predicate Valid()
      reads this
    {
      && Sound(backend)
      && forall k :: k in themes ==> Normalized(k) && themes[k].id == Some(k)
    }

    /** `new Treelight(options)`: register the bundled default theme under its id. */
    constructor(options: TreelightOptions, backend: Backend, defaultTheme: ThemeDefinition)
      requires Sound(backend)
      ensures Valid()
      ensures this.options == options && this.backend == backend
      ensures languages == map[] && languageCache == map[] && parserInit == None
      ensures themes == InitialThemes(defaultTheme)
    {
      this.options := options;
      this.backend := backend;
      languages := map[];
      languageCache := map[];
      parserInit := None;
      themes := InitialThemes(defaultTheme);
    }

    /** `registerTheme(nameOrDefinition, maybeDefinition)`: a definition without
      styles throws; otherwise the entry under the key is replaced as a whole. */
    method RegisterTheme(nameOrDefinition: NameOrDefinition, maybeDefinition: Option<ThemeInput>) returns (r: Outcome<Error>)
      requires Valid()
      modifies this
      ensures Valid()
      ensures languages == old(languages) && languageCache == old(languageCache) && parserInit == old(parserInit)
      ensures var theme := ChosenTheme(nameOrDefinition, maybeDefinition);
        var id := ThemeKey(nameOrDefinition, theme);
        if theme.None? || theme.value.styles.None? then r == Fail(InvalidTheme) && themes == old(themes)
        else r == Pass && themes == old(themes)[id := ThemeDefinition(Some(id), theme.value.styles.value)]
    {
      var theme := ChosenTheme(nameOrDefinition, maybeDefinition);
      var id := ThemeKey(nameOrDefinition, theme);
      if theme.None? || theme.value.styles.None? {
        return Fail(InvalidTheme);
      }
      themes := themes[id := ThemeDefinition(Some(id), theme.value.styles.value)];
      return Pass;
    }

    /** The key `getTheme(name)` looks up: the first non-empty of the name, the
        configured theme and the default, normalised. */
    function RequestedKey(name: Option<string>): string
      reads this
    {
      NormalizeThemeName(Some(Or(name, Or(options.theme, DefaultThemeName))))
    }

    /** `getTheme(name)`. */
    function GetTheme(name: Option<string>): (r: Result<ThemeDefinition, Error>)
      reads this
    {
      var key := RequestedKey(name);
      if key in themes then Success(themes[key])
      else if DefaultThemeName in themes then Success(themes[DefaultThemeName])
      else Failure(ConfigurationError)
    }

    /** `getTheme` falls back from the requested name to the configured theme to the
        default, returns a registered theme, and fails only when neither the
        requested theme nor the default is registered. */
    lemma GetThemeFallback(name: Option<string>)
      requires Valid()
      ensures Filled(name) ==> RequestedKey(name) == NormalizeThemeName(name)
      ensures !Filled(name) ==> RequestedKey(name) == NormalizeThemeName(options.theme)
      ensures GetTheme(name).Success? ==>
        var t := GetTheme(name).value;
        t.id.Some? && t.id.value in themes && themes[t.id.value] == t
          && (t.id.value == RequestedKey(name) || (RequestedKey(name) !in themes && t.id.value == DefaultThemeName))
      ensures GetTheme(name).Failure? <==> RequestedKey(name) !in themes && DefaultThemeName !in themes
      ensures GetTheme(name).Failure? ==> GetTheme(name).error == ConfigurationError
    {
      if !Filled(name) && !Filled(options.theme) {
        NormalizeFixes(DefaultThemeName);
      }
    }

    /** A theme registered with styles is what `getTheme` then returns for its
        name, whatever was registered under that name before. */
    lemma RegisteredThemeWins(key: string)
      requires Valid() && key in themes
      ensures GetTheme(Some(key)).Success? && GetTheme(Some(key)).value == themes[key]
      ensures ThemeClass(GetTheme(Some(key)).value) == Strings.CollapseSpaces(key)
    {
      NormalizeFixes(key);
    }

    method RegisterLanguage(name: string, loader: LanguageLoader)
      requires Valid()
      modifies this
      ensures Valid()
      ensures languages == old(languages)[name := loader]
      ensures languageCache == old(languageCache) && themes == old(themes) && parserInit == old(parserInit)
    {
      languages := languages[name := loader];
    }

    /** What awaiting `parserInit` gives: the first initialisation's outcome, a
        failure included, forever after. */
    function InitOutcome(): Outcome<Error>
      reads this
    {
      parserInit.GetOr(backend.init)
    }

    /** `ensureParser()`: start the initialisation on the first call only. */
    method EnsureParser() returns (r: Outcome<Error>)
      requires Valid()
      modifies this
      ensures Valid()
      ensures old(parserInit).Some? ==> parserInit == old(parserInit)
      ensures parserInit == Some(old(InitOutcome())) && r == old(InitOutcome())
      ensures languages == old(languages) && languageCache == old(languageCache) && themes == old(themes)
    {
      if parserInit.None? {
        parserInit := Some(backend.init);
      }
      r := parserInit.value;
    }

    /** What `loadLanguage(name)` returns in the current state. */
    function LoadResult(name: string): Result<LanguageState, Error>
      reads this
    {
      if name in languageCache then Success(languageCache[name])
      else if name !in languages then Failure(UnknownLanguage(name))
      else if InitOutcome().Fail? then Failure(InitOutcome().error)
      else
        match ResolveLoader(languages[name])
        case Failure(e) => Failure(e)
        case Success(definition) => LoadModule(backend, definition)
    }

    /** The cache after `loadLanguage(name)`: written once, after a successful load. */
    function CacheAfter(name: string): map<string, LanguageState>
      reads this
    {
      var r := LoadResult(name);
      if name !in languageCache && r.Success? then languageCache[name := r.value] else languageCache
    }

    /** `parserInit` after `loadLanguage(name)`: set unless the cache answered or the
        name is unknown. */
    function InitAfter(name: string): Option<Outcome<Error>>
      reads this
    {
      if name in languageCache || name !in languages then parserInit else Some(InitOutcome())
    }

    /** A cached language is returned without its loader; an unregistered one fails;
        a loaded one has a highlight query; the cache only grows, by successes. */
    lemma LoadProperties(name: string)
      ensures name in languageCache ==> LoadResult(name) == Success(languageCache[name])
      ensures name !in languageCache && name !in languages ==> LoadResult(name) == Failure(UnknownLanguage(name))
      ensures name !in languageCache && LoadResult(name).Success? ==>
        name in languages && InitOutcome() == Pass
          && ResolveLoader(languages[name]).Success?
          && var d := ResolveLoader(languages[name]).value;
             d.queries.Some? && Filled(d.queries.value.highlights)
      ensures languageCache.Keys <= CacheAfter(name).Keys
      ensures name in CacheAfter(name) <==> LoadResult(name).Success?
      ensures forall k :: k in languageCache ==> CacheAfter(name)[k] == languageCache[k]
    {
    }

    /** `loadLanguage(name)`. */
    method LoadLanguage(name: string) returns (r: Result<LanguageState, Error>)
      requires Valid()
      modifies this
      ensures Valid()
      ensures r == old(LoadResult(name))
      ensures languageCache == old(CacheAfter(name)) && parserInit == old(InitAfter(name))
      ensures languages == old(languages) && themes == old(themes)
    {
      if name in languageCache {
        return Success(languageCache[name]);
      }
      if name !in languages {
        return Failure(UnknownLanguage(name));
      }
      var loader := languages[name];
      var init := EnsureParser();
      if init.Fail? {
        return Failure(init.error);
      }
      var definition := ResolveLoader(loader);
      if definition.Failure? {
        return Failure(definition.error);
      }
      var state := LoadModule(backend, definition.value);
      if state.Failure? {
        return state;
      }
      languageCache := languageCache[name := state.value];
      return state;
    }

    /** What `highlight(code, languageName, options)` returns in the current state. */
    function HighlightResult(code: string, languageName: string, hopts: HighlightOptions): Result<string, Error>
      requires Valid()
      reads this
    {
      match GetTheme(hopts.theme)
      case Failure(e) => Failure(e)
      case Success(theme) =>
        var themeClass := ThemeClass(theme);
        var fallback := BuildPreBlock(EscapeHtml(code), themeClass, theme);
        match LoadResult(languageName)
        case Failure(e) => if hopts.strict then Failure(e) else Success(fallback)
        case Success(state) =>
          match backend.parse(state.parser, code)
          case None => Success(fallback)
          case Some(tree) =>
            var captures := backend.captures(state.highlightQuery, tree, code);
            Success(BuildPreBlock(RenderSpec(code, captures, theme), themeClass, theme))
    }

    /** `highlight(code, languageName, options)`. */
    method Highlight(code: string, languageName: string, hopts: HighlightOptions) returns (r: Result<string, Error>)
      requires Valid()
      modifies this
      ensures Valid()
      ensures r == old(HighlightResult(code, languageName, hopts))
      ensures languages == old(languages) && themes == old(themes)
      ensures old(GetTheme(hopts.theme)).Failure? ==> languageCache == old(languageCache) && parserInit == old(parserInit)
      ensures old(GetTheme(hopts.theme)).Success? ==>
        languageCache == old(CacheAfter(languageName)) && parserInit == old(InitAfter(languageName))
    {
      var found := GetTheme(hopts.theme);
      if found.Failure? {
        return Failure(found.error);
      }
      var theme := found.value;
      var themeClass := ThemeClass(theme);
      var state := LoadLanguage(languageName);
      if state.Failure? {
        if hopts.strict {
          return Failure(state.error);
        }
        return Success(BuildPreBlock(EscapeHtml(code), themeClass, theme));
      }
      var tree := backend.parse(state.value.parser, code);
      if tree.None? {
        return Success(BuildPreBlock(EscapeHtml(code), themeClass, theme));
      }
      var captures := backend.captures(state.value.highlightQuery, tree.value, code);
      var html := RenderHtmlFromCaptures(code, captures, theme);
      return Success(BuildPreBlock(html, themeClass, theme));
    }

    /** Outside strict mode `highlight` only fails when no theme can be found; a
        load failure then becomes the escaped code in a pre block, and in strict
        mode it is returned as it is. A missing tree falls back in both modes. */
    lemma HighlightPolicy(code: string, languageName: string, hopts: HighlightOptions)
      requires Valid()
      ensures HighlightResult(code, languageName, hopts).Failure? && !hopts.strict ==>
        HighlightResult(code, languageName, hopts).error == ConfigurationError
      ensures GetTheme(hopts.theme).Success? && LoadResult(languageName).Failure? ==>
        var theme := GetTheme(hopts.theme).value;
        HighlightResult(code, languageName, hopts) ==
          if hopts.strict then Failure(LoadResult(languageName).error)
          else Success(BuildPreBlock(EscapeHtml(code), ThemeClass(theme), theme))
      ensures GetTheme(hopts.theme).Success? && LoadResult(languageName).Success?
              && backend.parse(LoadResult(languageName).value.parser, code).None? ==>
        var theme := GetTheme(hopts.theme).value;
        HighlightResult(code, languageName, hopts) == Success(BuildPreBlock(EscapeHtml(code), ThemeClass(theme), theme))
    {
    }

    /** An unregistered language: the escaped code without spans, or in strict mode
        the unknown-language error. */
    lemma UnregisteredLanguage(code: string, languageName: string, hopts: HighlightOptions)
      requires Valid() && DefaultThemeName in themes
      requires languageName !in languages && languageName !in languageCache
      ensures var theme := GetTheme(hopts.theme).value;
        HighlightResult(code, languageName, hopts) ==
          if hopts.strict then Failure(UnknownLanguage(languageName))
          else Success(BuildPreBlock(EscapeHtml(code), ThemeClass(theme), theme))
    {
    }
  }
}
