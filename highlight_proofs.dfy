/** What a successful `highlight` call contains outside its tags: the code,
    escaped, and nothing else, whichever of the render and the fallback produced
    it, as long as no theme name, colour or capture name holds a `>`. */
module HighlightProofs {
  import opened Wrappers
  import Strings
  import opened Html
  import opened Theme
  import opened Renderer
  import opened MarkupProofs
  import opened TreelightApi

  /** No colour of the styles contains `>`. */
  predicate ColorsTagFree(styles: Styles) {
    forall k :: k in styles ==> StyleTagFree(styles[k])
  }

  predicate StyleTagFree(style: ThemeStyle) {
    match style
    case Bare(color) => '>' !in color
    case Style(fg, bg) => (fg.Some? ==> '>' !in fg.value) && (bg.Some? ==> '>' !in bg.value)
  }

  /** No capture name contains `>`. */
  predicate NamesTagFree(captures: seq<Capture>) {
    forall i :: 0 <= i < |captures| ==> '>' !in captures[i].name
  }

  /** A colour looked up in tag-free styles is tag-free. */
  lemma ColorTagFree(theme: ThemeDefinition, key: string, channel: Channel)
    requires ColorsTagFree(theme.styles)
    ensures GetThemeColor(theme, key, channel).Some? ==> '>' !in GetThemeColor(theme, key, channel).value
  {
    ResolveNearest(theme.styles, key);
    if Resolve(theme.styles, key).Some? {
      var n :| Candidate(key, n) && Present(theme.styles, key[..n]) && Resolve(theme.styles, key) == Some(theme.styles[key[..n]])
        && forall m :: Candidate(key, m) && m > n ==> !Present(theme.styles, key[..m]);
      assert StyleTagFree(theme.styles[key[..n]]);
    }
  }

  /** The attribute of a tag-free name under tag-free colours is tag-free. */
  lemma AttributeTagFree(name: string, theme: ThemeDefinition)
    requires '>' !in name && ColorsTagFree(theme.styles)
    ensures '>' !in BuildAttribute(name, theme)
  {
    var cls := ClassName(name);
    assert '>' !in cls by {
      forall i | 0 <= i < |cls| ensures cls[i] != '>' {
        if name[i] != '.' {
          assert name[i] in name;
        }
      }
    }
    ColorTagFree(theme, name, Fg);
  }

  lemma NoTagEndOf(captures: seq<Capture>, theme: ThemeDefinition)
    requires NamesTagFree(captures) && ColorsTagFree(theme.styles)
    ensures NoTagEnd(captures, theme)
  {
    forall i | 0 <= i < |captures| ensures '>' !in BuildAttribute(captures[i].name, theme) {
      AttributeTagFree(captures[i].name, theme);
    }
  }

  /** The closing `</code></pre>` holds no text. */
  lemma StripPreClose(text: string)
    requires '<' !in text
    ensures Strip(text + PreClose) == text
  {
    StripPlain(text, PreClose);
    assert PreClose == "<" + "/code" + ">" + "</pre>";
    StripTagOf("/code", "</pre>");
    assert "</pre>" == "<" + "/pre" + ">" + "";
    StripTagOf("/pre", "");
  }

  lemma NotInConcat(a: string, b: string)
    requires '>' !in a && '>' !in b
    ensures '>' !in a + b
  {
  }

  /** The opening `<pre …><code>` holds no text when its class and colours are tag-free. */
  lemma StripPreOpen(themeClass: string, background: string, foreground: string, rest: string)
    requires '>' !in themeClass && '>' !in background && '>' !in foreground
    ensures Strip(PreOpen(themeClass, background, foreground) + rest) == Strip(rest)
  {
    var head := PreHead(themeClass, background, foreground);
    assert '>' !in head by {
      NotInConcat("pre class=\"treelight ", themeClass);
      NotInConcat("pre class=\"treelight " + themeClass, "\" style=\"background-color: ");
      NotInConcat("pre class=\"treelight " + themeClass + "\" style=\"background-color: ", background);
      NotInConcat("pre class=\"treelight " + themeClass + "\" style=\"background-color: " + background, "; color: ");
      NotInConcat("pre class=\"treelight " + themeClass + "\" style=\"background-color: " + background + "; color: ", foreground);
      NotInConcat("pre class=\"treelight " + themeClass + "\" style=\"background-color: " + background + "; color: " + foreground, "\"");
    }
    var code := "<code>";
    assert code == "<" + "code" + ">" + "";
    assert PreOpen(themeClass, background, foreground) + rest == "<" + head + ">" + (code + rest);
    StripTagOf(head, code + rest);
    assert code + rest == "<" + "code" + ">" + rest;
    StripTagOf("code", rest);
  }

  /** The pre block adds no text of its own. */
  lemma StripPreBlock(content: string, themeClass: string, theme: ThemeDefinition)
    requires '>' !in themeClass && ColorsTagFree(theme.styles)
    ensures Strip(BuildPreBlock(content, themeClass, theme)) == Strip(content + PreClose)
  {
    ColorTagFree(theme, "ui.background", Bg);
    ColorTagFree(theme, "ui.background", Fg);
    ColorTagFree(theme, "ui.foreground", Fg);
    var bg, fg := Background(theme), Foreground(theme);
    assert '>' !in bg && '>' !in fg;
    var open := PreOpen(themeClass, bg, fg);
    assert BuildPreBlock(content, themeClass, theme) == open + (content + PreClose);
    StripPreOpen(themeClass, bg, fg, content + PreClose);
  }

  lemma ThemeClassTagFree(theme: ThemeDefinition)
    requires theme.id.Some? ==> '>' !in theme.id.value
    ensures '>' !in ThemeClass(theme)
  {
    var r := ThemeClass(theme);
    if theme.id.Some? && Strings.CollapseSpaces(theme.id.value) != "" {
      forall i | 0 <= i < |r| ensures r[i] != '>' {
        assert r[i] == '-' || r[i] in theme.id.value;
      }
    } else {
      assert r == "github-dark";
    }
  }

  /** Every registered theme has a tag-free name and tag-free colours. */
  predicate ThemesTagFree(themes: map<string, ThemeDefinition>) {
    forall k :: k in themes ==> '>' !in k && ColorsTagFree(themes[k].styles)
  }

  /** Every capture the backend reports has a tag-free name. */
  ghost predicate BackendTagFree(backend: Backend) {
    forall query, tree, code :: NamesTagFree(backend.captures(query, tree, code))
  }

  /** A rendered block reads as the escaped code. */
  lemma RenderedBlockText(code: string, captures: seq<Capture>, theme: ThemeDefinition, themeClass: string)
    requires InBounds(captures, |code|) && NamesTagFree(captures)
    requires ColorsTagFree(theme.styles) && '>' !in themeClass
    ensures Strip(BuildPreBlock(RenderSpec(code, captures, theme), themeClass, theme)) == EscapeHtml(code)
  {
    NoTagEndOf(captures, theme);
    StripPreBlock(RenderSpec(code, captures, theme), themeClass, theme);
    TextContentBefore(code, captures, theme, PreClose);
    StripPreClose("");
    assert "" + PreClose == PreClose;
    assert EscapeHtml(code) + "" == EscapeHtml(code);
  }

  /** So does the fallback block. */
  lemma FallbackBlockText(code: string, theme: ThemeDefinition, themeClass: string)
    requires ColorsTagFree(theme.styles) && '>' !in themeClass
    ensures Strip(BuildPreBlock(EscapeHtml(code), themeClass, theme)) == EscapeHtml(code)
  {
    StripPreBlock(EscapeHtml(code), themeClass, theme);
    StripPreClose(EscapeHtml(code));
  }

  /** The text content of every successful `highlight` result is the escaped code:
      the render and the fallback differ only in their tags. */
  lemma HighlightText(t: Treelight, code: string, languageName: string, hopts: HighlightOptions)
    requires t.Valid() && ThemesTagFree(t.themes) && BackendTagFree(t.backend)
    ensures t.HighlightResult(code, languageName, hopts).Success? ==>
      Strip(t.HighlightResult(code, languageName, hopts).value) == EscapeHtml(code)
  {
    t.GetThemeFallback(hopts.theme);
    if t.GetTheme(hopts.theme).Success? {
      var theme := t.GetTheme(hopts.theme).value;
      assert theme.id.value in t.themes;
      ThemeClassTagFree(theme);
      var themeClass := ThemeClass(theme);
      FallbackBlockText(code, theme, themeClass);
      var load := t.LoadResult(languageName);
      if load.Success? && t.backend.parse(load.value.parser, code).Some? {
        var tree := t.backend.parse(load.value.parser, code).value;
        var captures := t.backend.captures(load.value.highlightQuery, tree, code);
        RenderedBlockText(code, captures, theme, themeClass);
      }
    }
  }
}
