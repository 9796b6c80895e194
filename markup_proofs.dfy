/** The shape of the markup `renderHtmlFromCaptures` produces (src/treelight.ts:60-144):
    every run of text, escaped, inside one span per open capture, and nothing of
    the source lost or reordered. */
module MarkupProofs {
  import opened Html
  import opened Theme
  import opened Renderer
  import opened SweepProofs

  function OpenTag(attr: string): string {
    "<span " + attr + ">"
  }

  const CloseTag := "</span>"

  lemma SpanTags(attr: string, inner: string)
    ensures Span(attr, inner) == OpenTag(attr) + inner + CloseTag
  {
  }

  /** The attribute of a name, or none. */
  function AttrOf(attrs: map<string, string>, name: string): string {
    if name in attrs then attrs[name] else ""
  }

  /** The opening tags for `stack`, `stack[0]` first (outermost). */
  function OpenTags(stack: seq<CaptureRef>, attrs: map<string, string>): string
    decreases |stack|
  {
    if stack == [] then "" else OpenTag(AttrOf(attrs, stack[0].name)) + OpenTags(stack[1..], attrs)
  }

  function CloseTags(n: nat): string {
    if n == 0 then "" else CloseTags(n - 1) + CloseTag
  }

  /** A run as markup: one span per stack entry around its escaped text. */
  function Piece(source: string, run: Run, attrs: map<string, string>): string
    requires run.from <= run.to <= |source|
  {
    OpenTags(run.stack, attrs) + EscapeHtml(source[run.from..run.to]) + CloseTags(|run.stack|)
  }

  function Layout(source: string, runs: seq<Run>, attrs: map<string, string>): string
    requires Within(runs, |source|)
  {
    if runs == [] then ""
    else Layout(source, runs[..|runs| - 1], attrs) + Piece(source, runs[|runs| - 1], attrs)
  }

  /** The source text the runs cover, in order. */
  function Text(source: string, runs: seq<Run>): string
    requires Within(runs, |source|)
  {
    if runs == [] then ""
    else
      var last := runs[|runs| - 1];
      Text(source, runs[..|runs| - 1]) + source[last.from..last.to]
  }

  // ---------------------------------------------------------------- every entry wraps

  /** The `continue` of `wrapText` is never taken: every name on a stack of the
      sweep has an attribute, and no attribute is empty. */
  lemma WrapSkipsNothing(source: string, captures: seq<Capture>, theme: ThemeDefinition)
    requires InBounds(captures, |source|)
    ensures forall r, j :: r in Runs(source, captures) && 0 <= j < |r.stack| ==>
      r.stack[j].name in AttrMap(captures, theme) && AttrMap(captures, theme)[r.stack[j].name] != ""
  {
    RunsCovered(source, captures);
    forall r, j | r in Runs(source, captures) && 0 <= j < |r.stack|
      ensures r.stack[j].name in AttrMap(captures, theme) && AttrMap(captures, theme)[r.stack[j].name] != ""
    {
      assert RunCovered(captures, r);
      assert r.stack[j].name in NamesOf(captures);
    }
  }

  /** Every entry of `stack` has a non-empty attribute. */
  predicate AllWrap(stack: seq<CaptureRef>, attrs: map<string, string>) {
    forall j :: 0 <= j < |stack| ==> stack[j].name in attrs && attrs[stack[j].name] != ""
  }

  /** When every entry has an attribute, `wrapText` nests the text in exactly
      `|stack|` spans, `stack[0]` outermost. */
  lemma {:induction false} WrapNests(inner: string, stack: seq<CaptureRef>, attrs: map<string, string>)
    requires AllWrap(stack, attrs)
    ensures Wrap(inner, stack, attrs) == OpenTags(stack, attrs) + inner + CloseTags(|stack|)
    decreases |stack|
  {
    if stack != [] {
      assert AllWrap(stack[1..], attrs) by {
        assert forall j :: 0 <= j < |stack| - 1 ==> stack[1..][j] == stack[j + 1];
      }
      WrapNests(inner, stack[1..], attrs);
      var a := attrs[stack[0].name];
      var opens, closes := OpenTags(stack[1..], attrs), CloseTags(|stack| - 1);
      SpanTags(a, opens + inner + closes);
      assert OpenTag(a) + (opens + inner + closes) + CloseTag == (OpenTag(a) + opens) + inner + (closes + CloseTag);
    } else {
      assert "" + inner + "" == inner;
    }
  }

  lemma NamedWraps(captures: seq<Capture>, theme: ThemeDefinition, stack: seq<CaptureRef>)
    requires Named(captures, stack)
    ensures AllWrap(stack, AttrMap(captures, theme))
  {
    forall j | 0 <= j < |stack| ensures stack[j].name in AttrMap(captures, theme) {
      assert stack[j].name in NamesOf(captures);
    }
  }

  lemma {:induction false} RenderRunsLayout(source: string, runs: seq<Run>, attrs: map<string, string>)
    requires Within(runs, |source|)
    requires forall r :: r in runs ==> r.from < r.to && AllWrap(r.stack, attrs)
    ensures RenderRuns(source, runs, attrs) == Layout(source, runs, attrs)
  {
    if runs != [] {
      var init := runs[..|runs| - 1];
      var last := runs[|runs| - 1];
      assert forall r :: r in init ==> r in runs;
      RenderRunsLayout(source, init, attrs);
      assert last in runs;
      WrapNests(EscapeHtml(source[last.from..last.to]), last.stack, attrs);
    }
  }

  lemma RunsNonEmpty(source: string, captures: seq<Capture>)
    requires InBounds(captures, |source|)
    ensures forall r :: r in Runs(source, captures) ==> r.from < r.to
  {
    var runs := Runs(source, captures);
    forall r | r in runs ensures r.from < r.to {
      var i :| 0 <= i < |runs| && runs[i] == r;
    }
  }

  /** `renderHtmlFromCaptures` lays out each run of the sweep as its escaped text in
      one span per open capture; with no captures that is the escaped source. */
  lemma RenderLayout(source: string, captures: seq<Capture>, theme: ThemeDefinition)
    requires InBounds(captures, |source|)
    ensures RenderSpec(source, captures, theme) == Layout(source, Runs(source, captures), AttrMap(captures, theme))
  {
    if |captures| == 0 {
      NoCaptureLayout(source, captures, theme);
    } else {
      var runs := Runs(source, captures);
      var attrs := AttrMap(captures, theme);
      RunsCovered(source, captures);
      RunsNonEmpty(source, captures);
      forall r | r in runs ensures AllWrap(r.stack, attrs) {
        NamedWraps(captures, theme, r.stack);
      }
      RenderRunsLayout(source, runs, attrs);
    }
  }

  /** With no captures the sweep has no events, and one unwrapped run covers the source. */
  lemma NoCaptureLayout(source: string, captures: seq<Capture>, theme: ThemeDefinition)
    requires |captures| == 0
    ensures RenderSpec(source, captures, theme) == Layout(source, Runs(source, captures), AttrMap(captures, theme))
  {
    assert EventsOf(captures) == [];
    assert SortEvents([]) == [];
    assert Sweep([]) == SweepState(0, [], []);
    var runs := Runs(source, captures);
    var attrs := AttrMap(captures, theme);
    if |source| == 0 {
      assert runs == [];
    } else {
      assert runs == [Run(0, |source|, [])];
      assert source[0..|source|] == source;
      assert Piece(source, runs[0], attrs) == EscapeHtml(source);
      assert runs[..0] == [];
    }
  }

  // ---------------------------------------------------------------- the text content

  /** The text content of markup: everything outside `<…>` tags. */
  function Strip(s: string): string
    decreases |s|
  {
    if s == [] then ""
    else if s[0] == '<' then StripTag(s[1..])
    else [s[0]] + Strip(s[1..])
  }

  /** The text content after an unclosed `<`. */
  function StripTag(s: string): string
    decreases |s|
  {
    if s == [] then ""
    else if s[0] == '>' then Strip(s[1..])
    else StripTag(s[1..])
  }

  lemma {:induction false} StripPlain(t: string, rest: string)
    requires '<' !in t
    ensures Strip(t + rest) == t + Strip(rest)
  {
    if t != [] {
      assert (t + rest)[1..] == t[1..] + rest;
      StripPlain(t[1..], rest);
    } else {
      assert t + rest == rest;
    }
  }

  lemma {:induction false} StripTagSkip(t: string, rest: string)
    requires '>' !in t
    ensures StripTag(t + ">" + rest) == Strip(rest)
  {
    if t != [] {
      assert (t + ">" + rest)[1..] == t[1..] + ">" + rest;
      StripTagSkip(t[1..], rest);
    } else {
      assert t + ">" + rest == ">" + rest;
      assert (">" + rest)[1..] == rest;
    }
  }

  /** A tag without `>` inside it contributes nothing to the text content. */
  lemma StripTagOf(t: string, rest: string)
    requires '>' !in t
    ensures Strip("<" + t + ">" + rest) == Strip(rest)
  {
    assert ("<" + t + ">" + rest)[1..] == t + ">" + rest;
    StripTagSkip(t, rest);
  }

  lemma Associate(x: string, y: string, z: string)
    ensures x + (y + z) == (x + y) + z
  {
  }

  /** No attribute contains `>`. */
  predicate TagFree(attrs: map<string, string>) {
    forall name :: name in attrs ==> '>' !in attrs[name]
  }

  lemma {:induction false} StripOpenTags(stack: seq<CaptureRef>, attrs: map<string, string>, rest: string)
    requires TagFree(attrs)
    ensures Strip(OpenTags(stack, attrs) + rest) == Strip(rest)
    decreases |stack|
  {
    if stack != [] {
      var a := AttrOf(attrs, stack[0].name);
      assert '>' !in "span " + a;
      var tail := OpenTags(stack[1..], attrs) + rest;
      assert OpenTag(a) == "<" + ("span " + a) + ">";
      assert OpenTags(stack, attrs) + rest == OpenTag(a) + tail;
      StripTagOf("span " + a, tail);
      StripOpenTags(stack[1..], attrs, rest);
    } else {
      assert "" + rest == rest;
    }
  }

  lemma {:induction false} StripCloseTags(n: nat, rest: string)
    ensures Strip(CloseTags(n) + rest) == Strip(rest)
  {
    if n > 0 {
      assert CloseTags(n) + rest == CloseTags(n - 1) + (CloseTag + rest);
      StripCloseTags(n - 1, CloseTag + rest);
      assert CloseTag + rest == "<" + "/span" + ">" + rest;
      StripTagOf("/span", rest);
    } else {
      assert "" + rest == rest;
    }
  }

  lemma StripPiece(source: string, run: Run, attrs: map<string, string>, rest: string)
    requires run.from <= run.to <= |source| && TagFree(attrs)
    ensures Strip(Piece(source, run, attrs) + rest) == EscapeHtml(source[run.from..run.to]) + Strip(rest)
  {
    var esc := EscapeHtml(source[run.from..run.to]);
    var opens, closes := OpenTags(run.stack, attrs), CloseTags(|run.stack|);
    assert Piece(source, run, attrs) + rest == opens + (esc + (closes + rest));
    StripOpenTags(run.stack, attrs, esc + (closes + rest));
    StripPlain(esc, closes + rest);
    StripCloseTags(|run.stack|, rest);
  }

  lemma {:induction false} StripLayout(source: string, runs: seq<Run>, attrs: map<string, string>, rest: string)
    requires Within(runs, |source|) && TagFree(attrs)
    ensures Strip(Layout(source, runs, attrs) + rest) == EscapeHtml(Text(source, runs)) + Strip(rest)
  {
    if runs != [] {
      var init := runs[..|runs| - 1];
      assert Within(init, |source|) by {
        assert forall i :: 0 <= i < |init| ==> init[i] == runs[i];
      }
      StripLayout(source, init, attrs, Piece(source, runs[|runs| - 1], attrs) + rest);
      StripLayoutStep(source, runs, attrs, rest);
    } else {
      assert "" + rest == rest;
    }
  }

  /** One step of `StripLayout`: the last run, given the text of the others. */
  lemma StripLayoutStep(source: string, runs: seq<Run>, attrs: map<string, string>, rest: string)
    requires Within(runs, |source|) && TagFree(attrs) && runs != []
    requires Within(runs[..|runs| - 1], |source|)
    requires
      var piece := Piece(source, runs[|runs| - 1], attrs);
      Strip(Layout(source, runs[..|runs| - 1], attrs) + (piece + rest))
        == EscapeHtml(Text(source, runs[..|runs| - 1])) + Strip(piece + rest)
    ensures Strip(Layout(source, runs, attrs) + rest) == EscapeHtml(Text(source, runs)) + Strip(rest)
  {
    var init := runs[..|runs| - 1];
    var last := runs[|runs| - 1];
    var piece := Piece(source, last, attrs);
    var before, text := Text(source, init), source[last.from..last.to];
    var layout := Layout(source, init, attrs);
    calc {
      Strip(Layout(source, runs, attrs) + rest);
      { assert Layout(source, runs, attrs) == layout + piece;
        Associate(layout, piece, rest); }
      Strip(layout + (piece + rest));
      EscapeHtml(before) + Strip(piece + rest);
      { StripPiece(source, last, attrs, rest); }
      EscapeHtml(before) + (EscapeHtml(text) + Strip(rest));
      { Associate(EscapeHtml(before), EscapeHtml(text), Strip(rest)); }
      (EscapeHtml(before) + EscapeHtml(text)) + Strip(rest);
      { EscapeConcat(before, text); }
      EscapeHtml(before + text) + Strip(rest);
      { assert Text(source, runs) == before + text; }
      EscapeHtml(Text(source, runs)) + Strip(rest);
    }
  }

  /** No attribute of the captures contains `>`: capture names and theme colours
      are plain identifiers and colour strings. */
  predicate NoTagEnd(captures: seq<Capture>, theme: ThemeDefinition) {
    forall i :: 0 <= i < |captures| ==> '>' !in BuildAttribute(captures[i].name, theme)
  }

  lemma NoTagEndFree(captures: seq<Capture>, theme: ThemeDefinition)
    requires NoTagEnd(captures, theme)
    ensures TagFree(AttrMap(captures, theme))
  {
    forall name | name in AttrMap(captures, theme) ensures '>' !in AttrMap(captures, theme)[name] {
      var i :| 0 <= i < |captures| && captures[i].name == name;
    }
  }

  lemma ChainLe(runs: seq<Run>, i: nat, j: nat)
    requires i < j < |runs| && Tiles(runs, runs[|runs| - 1].to)
    ensures runs[i].to <= runs[j].from
    decreases j - i
  {
    assert Adjacent(runs, i);
    if i + 1 < j {
      ChainLe(runs, i + 1, j);
    }
  }

  /** Runs that tile `[0, cursor)` spell out exactly the first `cursor` characters. */
  lemma {:induction false} TextTiles(source: string, runs: seq<Run>, cursor: nat)
    requires Tiles(runs, cursor) && cursor <= |source|
    ensures Within(runs, |source|) && Text(source, runs) == source[..cursor]
  {
    TilesWithin(runs, cursor, |source|);
    if runs != [] {
      var init := runs[..|runs| - 1];
      var last := runs[|runs| - 1];
      assert Tiles(init, last.from) by {
        if init != [] {
          assert Adjacent(runs, |runs| - 2);
          forall i | 0 <= i < |init| ensures init[i].to <= last.from {
            if i < |runs| - 1 {
              ChainLe(runs, i, |runs| - 1);
            }
          }
          forall i | 0 <= i < |init| - 1 ensures Adjacent(init, i) {
            assert Adjacent(runs, i);
          }
        }
      }
      TextTiles(source, init, last.from);
      assert source[..last.from] + source[last.from..cursor] == source[..cursor];
    }
  }

  /** Outside the tags, the render is exactly the escaped source: the runs cover
      the source once, in order, and every tag comes from a span. */
  lemma TextContent(source: string, captures: seq<Capture>, theme: ThemeDefinition)
    requires InBounds(captures, |source|) && NoTagEnd(captures, theme)
    ensures Strip(RenderSpec(source, captures, theme)) == EscapeHtml(source)
  {
    TextContentBefore(source, captures, theme, "");
    assert RenderSpec(source, captures, theme) + "" == RenderSpec(source, captures, theme);
    assert EscapeHtml(source) + "" == EscapeHtml(source);
  }

  /** The same with markup following the render: the render closes every tag it
      opens, so what follows is read as it would be on its own. */
  lemma TextContentBefore(source: string, captures: seq<Capture>, theme: ThemeDefinition, rest: string)
    requires InBounds(captures, |source|) && NoTagEnd(captures, theme)
    ensures Strip(RenderSpec(source, captures, theme) + rest) == EscapeHtml(source) + Strip(rest)
  {
    var runs := Runs(source, captures);
    var attrs := AttrMap(captures, theme);
    RenderLayout(source, captures, theme);
    TextTiles(source, runs, |source|);
    NoTagEndFree(captures, theme);
    StripLayout(source, runs, attrs, rest);
    assert source[..|source|] == source;
  }

  /** So unescaping the text content gives back the source. */
  lemma TextContentRoundTrip(source: string, captures: seq<Capture>, theme: ThemeDefinition)
    requires InBounds(captures, |source|) && NoTagEnd(captures, theme)
    ensures UnescapeHtml(Strip(RenderSpec(source, captures, theme))) == source
  {
    TextContent(source, captures, theme);
    UnescapeEscape(source);
  }
}
