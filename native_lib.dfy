/** The capture-name bookkeeping and the output framing of the native
    highlighter (src/lib.rs). The highlighter and the HTML renderer of
    tree-sitter are foreign: the rendered markup is a parameter. */
module NativeHighlight {
  import opened Wrappers
  import Strings
  import opened NativeTheme
  import Renderer

  predicate NoDuplicates(s: seq<string>) {
    forall i, j :: 0 <= i < j < |s| ==> s[i] != s[j]
  }

  /** The names `add_highlight_names` appends to `names`: each capture name not yet
      listed, at its first occurrence. */
  function Added(names: seq<string>, captureNames: seq<string>): seq<string>
    decreases |captureNames|
  {
    if captureNames == [] then names
    else
      var init := Added(names, captureNames[..|captureNames| - 1]);
      var name := captureNames[|captureNames| - 1];
      if name in init then init else init + [name]
  }

  /** The list keeps its old entries in front, gains every capture name, nothing
      else, and stays free of duplicates. */
  lemma {:induction false} AddedProperties(names: seq<string>, captureNames: seq<string>)
    ensures names <= Added(names, captureNames)
    ensures forall x :: x in Added(names, captureNames) <==> x in names || x in captureNames
    ensures NoDuplicates(names) ==> NoDuplicates(Added(names, captureNames))
    decreases |captureNames|
  {
    if captureNames != [] {
      var c := captureNames[..|captureNames| - 1];
      AddedProperties(names, c);
      assert forall x :: x in captureNames <==> x in c || x == captureNames[|captureNames| - 1];
    }
  }

  /** Adding names that are all listed already changes nothing. */
  lemma {:induction false} AddedListed(names: seq<string>, captureNames: seq<string>)
    requires forall x :: x in captureNames ==> x in names
    ensures Added(names, captureNames) == names
    decreases |captureNames|
  {
    if captureNames != [] {
      AddedListed(names, captureNames[..|captureNames| - 1]);
      assert captureNames[|captureNames| - 1] in captureNames;
    }
  }

  /** `add_highlight_names(config, highlight_names)`: push every capture name that
      is not yet in the list. */
  method AddHighlightNames(captureNames: seq<string>, names: seq<string>) returns (updated: seq<string>)
    ensures updated == Added(names, captureNames)
  {
    updated := names;
    for k := 0 to |captureNames|
      invariant updated == Added(names, captureNames[..k])
    {
      assert captureNames[..k + 1][..k] == captureNames[..k];
      if captureNames[k] !in updated {
        updated := updated + [captureNames[k]];
      }
    }
    assert captureNames[..|captureNames|] == captureNames;
  }

  /** `class="<name with . replaced by ->"`, as in the TypeScript renderer. */
  function ClassAttribute(name: string): string {
    Renderer.ClassAttribute(name)
  }

  /** `build_config_with_regex(config)`: the capture names without repeats, in
      first-occurrence order, and one class attribute per name. */
  method BuildConfigWithRegex(captureNames: seq<string>) returns (highlightNames: seq<string>, attrs: seq<string>)
    ensures highlightNames == Added([], captureNames)
    ensures NoDuplicates(highlightNames)
    ensures forall x :: x in highlightNames <==> x in captureNames
    ensures |attrs| == |highlightNames|
    ensures forall i :: 0 <= i < |attrs| ==> attrs[i] == ClassAttribute(highlightNames[i])
  {
    highlightNames := AddHighlightNames(captureNames, []);
    AddedProperties([], captureNames);
    attrs := seq(|highlightNames|, i requires 0 <= i < |highlightNames| => ClassAttribute(highlightNames[i]));
  }

  // ---------------------------------------------------------------- theme selection

  datatype BundledTheme = GithubDark | GithubLight | DefaultTheme

  /** `load_theme(theme)`: the three bundled names, and the default theme for any
      other name. */
  function LoadTheme(name: string): (t: BundledTheme)
    ensures t == GithubLight <==> name == "github-light"
    ensures t == GithubDark <==> name == "github-dark"
    ensures name != "github-dark" && name != "github-light" ==> t == DefaultTheme
  {
    match name
    case "github-dark" => GithubDark
    case "github-light" => GithubLight
    case "default" => DefaultTheme
    case _ => DefaultTheme
  }

  datatype Options = Options(theme: Option<string>)

  /** `options.and_then(|opt| opt.theme).unwrap_or("default")`. */
  function ThemeName(options: Option<Options>): (name: string)
    ensures options.None? || options.value.theme.None? ==> name == "default"
    ensures options.Some? && options.value.theme.Some? ==> name == options.value.theme.value
  {
    if options.Some? && options.value.theme.Some? then options.value.theme.value else "default"
  }

  /** The loaded themes, one per bundled name. */
  datatype Themes = Themes(githubDark: NativeThemeData, githubLight: NativeThemeData, default: NativeThemeData)

  function ThemeData(themes: Themes, t: BundledTheme): NativeThemeData {
    match t
    case GithubDark => themes.githubDark
    case GithubLight => themes.githubLight
    case DefaultTheme => themes.default
  }

  // ---------------------------------------------------------------- attributes and the pre block

  /** The attribute of one capture name: its class, and its colour when the theme
      has one for the name or one of its prefixes. */
  function CaptureAttribute(theme: NativeThemeData, name: string): (attr: string)
    ensures ClassAttribute(name) <= attr
    ensures Get(theme, name).None? <==> attr == ClassAttribute(name)
    ensures Get(theme, name).Some? ==>
      attr[|ClassAttribute(name)|..] == " style=\"color: " + Display(Get(theme, name).value) + "\""
  {
    match Get(theme, name)
    case Some(color) => ClassAttribute(name) + " style=\"color: " + Display(color) + "\""
    case None => ClassAttribute(name)
  }

  /** The attributes `highlight` hands to the renderer, one per capture name of the
      query, in order. */
  function HtmlAttrs(theme: NativeThemeData, captureNames: seq<string>): (attrs: seq<string>)
    ensures |attrs| == |captureNames|
    ensures forall i :: 0 <= i < |attrs| ==> attrs[i] == CaptureAttribute(theme, captureNames[i])
  {
    seq(|captureNames|, i requires 0 <= i < |captureNames| => CaptureAttribute(theme, captureNames[i]))
  }

  /** The background of the pre block: `ui.background` of the theme, else white,
      which prints as `#000000`. */
  function Background(theme: NativeThemeData): (color: string)
    ensures |color| == 7 && color[0] == '#'
    ensures Get(theme, "ui.background").None? ==> color == "#000000"
  {
    Display(match Get(theme, "ui.background") case Some(c) => c case None => White)
  }

  /** The framing of `highlight`: the class is the requested theme name as given,
      even when it fell back to the default theme. */
  function PreBlock(themeName: string, theme: NativeThemeData, html: string): string {
    "<pre class=\"treelight " + themeName + "\" style=\"background-color: " + Background(theme) + "\"><code>"
      + html + "</code></pre>"
  }

  /** `highlight(code, language, options)` once the renderer has produced `html`. */
  function Highlight(themes: Themes, options: Option<Options>, html: string): string {
    var name := ThemeName(options);
    PreBlock(name, ThemeData(themes, LoadTheme(name)), html)
  }

  /** Without options the default theme is used and named; an unknown name selects
      the default theme's colours but keeps its own name in the class. */
  lemma HighlightTheme(themes: Themes, options: Option<Options>, html: string)
    ensures options.None? ==> Highlight(themes, options, html) == PreBlock("default", themes.default, html)
    ensures options.Some? && options.value.theme.Some?
            && options.value.theme.value != "github-dark" && options.value.theme.value != "github-light" ==>
      Highlight(themes, options, html) == PreBlock(options.value.theme.value, themes.default, html)
  {
  }

  /** A theme without `ui.background` or `ui` gets a black background, since the
      white fallback prints as `#000000`. */
  lemma BackgroundFallback(theme: NativeThemeData)
    requires "ui.background" !in theme.styles && "ui" !in theme.styles
    ensures Background(theme) == "#000000"
  {
    var key := "ui.background";
    assert key[2] == '.' && forall j :: 2 < j < |key| ==> key[j] != '.';
    assert Strings.LastIndexOf(key, '.') == 2;
    assert key[..2] == "ui";
    assert Strings.LastIndexOf("ui", '.') == -1;
  }
}
