/** The capture-to-markup renderer of src/treelight.ts: `buildAttribute`, `wrapText`
    and `renderHtmlFromCaptures`. */
module Renderer {
  import opened Wrappers
  import Strings
  import opened Html
  import opened Theme

  /** A query capture: a capture name and the offsets of its node. */
  datatype Capture = Capture(name: string, startIndex: nat, endIndex: nat)

  /** The per-capture reference carried by both events; `id` is the capture's index. */
  datatype CaptureRef = CaptureRef(id: nat, name: string)

  datatype EventType = Start | End

  datatype CaptureEvent = CaptureEvent(kind: EventType, pos: nat, capture: CaptureRef)

  /** Every offset lies inside the source text, as the parser guarantees. */
  predicate InBounds(captures: seq<Capture>, n: nat) {
    forall i :: 0 <= i < |captures| ==> captures[i].startIndex <= n && captures[i].endIndex <= n
  }

  // ---------------------------------------------------------------- attributes

  /** `name.replace(/\./g, '-')`. */
  function ClassName(name: string): (r: string)
    ensures |r| == |name| && '.' !in r
    ensures forall i :: 0 <= i < |name| && name[i] != '.' ==> r[i] == name[i]
  {
    Strings.ReplaceChar(name, '.', '-')
  }

  /** The foreground colour of a capture name, when JavaScript would find it truthy. */
  function ForegroundOf(theme: ThemeDefinition, name: string): Option<string> {
    var color := GetThemeColor(theme, name, Fg);
    if color.Some? && color.value != "" then color else None
  }

  function ClassAttribute(name: string): string {
    "class=\"" + ClassName(name) + "\""
  }

  /** `buildAttribute(name, theme)`. */
  function BuildAttribute(name: string, theme: ThemeDefinition): (r: string)
    ensures ClassAttribute(name) <= r && r != ""
    ensures ForegroundOf(theme, name).None? ==> r == ClassAttribute(name)
    ensures ForegroundOf(theme, name).Some? ==>
      r[|ClassAttribute(name)|..] == " style=\"color: " + ForegroundOf(theme, name).value + "\""
  {
    var color := ForegroundOf(theme, name);
    if color.Some? then ClassAttribute(name) + " style=\"color: " + color.value + "\""
    else ClassAttribute(name)
  }

  // ---------------------------------------------------------------- wrapping

  function Span(attr: string, inner: string): string {
    "<span " + attr + ">" + inner + "</span>"
  }

  /** `inner` wrapped in one span per stack entry whose attribute is present and
      non-empty, `stack[0]` outermost. */
  function Wrap(inner: string, stack: seq<CaptureRef>, attrs: map<string, string>): string
    decreases |stack|
  {
    if stack == [] then inner
    else
      var rest := Wrap(inner, stack[1..], attrs);
      var name := stack[0].name;
      if name in attrs && attrs[name] != "" then Span(attrs[name], rest) else rest
  }

  /** What `wrapText(text, stack, attrByCapture)` returns. */
  function Wrapped(text: string, stack: seq<CaptureRef>, attrs: map<string, string>): string {
    if text == "" then "" else Wrap(EscapeHtml(text), stack, attrs)
  }

  /** `wrapText`: escape the text, then wrap it from the innermost stack entry outwards. */
  method WrapText(text: string, stack: seq<CaptureRef>, attrs: map<string, string>) returns (output: string)
    ensures output == Wrapped(text, stack, attrs)
  {
    if text == "" {
      return "";
    }
    output := EscapeHtml(text);
    var i := |stack| - 1;
    while i >= 0
      invariant -1 <= i < |stack|
      invariant output == Wrap(EscapeHtml(text), stack[i + 1..], attrs)
    {
      assert stack[i..][1..] == stack[i + 1..];
      var name := stack[i].name;
      if !(name in attrs && attrs[name] != "") {
        i := i - 1;
        continue;
      }
      output := Span(attrs[name], output);
      i := i - 1;
    }
  }

  // ---------------------------------------------------------------- events

  function StartEvent(captures: seq<Capture>, i: nat): CaptureEvent
    requires i < |captures|
  {
    CaptureEvent(Start, captures[i].startIndex, CaptureRef(i, captures[i].name))
  }

  function EndEvent(captures: seq<Capture>, i: nat): CaptureEvent
    requires i < |captures|
  {
    CaptureEvent(End, captures[i].endIndex, CaptureRef(i, captures[i].name))
  }

  /** The event list in the order `forEach` pushes it: for each capture a start
      event, then an end event, both carrying the capture's index. */
  function EventsOf(captures: seq<Capture>): (r: seq<CaptureEvent>)
    ensures |r| == 2 * |captures|
    ensures forall i :: 0 <= i < |captures| ==>
      r[2 * i] == StartEvent(captures, i) && r[2 * i + 1] == EndEvent(captures, i)
    ensures forall e :: e in r ==>
      && e.capture.id < |captures|
      && (e == StartEvent(captures, e.capture.id) || e == EndEvent(captures, e.capture.id))
  {
    if captures == [] then []
    else
      var init := captures[..|captures| - 1];
      var n := |captures| - 1;
      assert forall i :: 0 <= i < n ==>
        StartEvent(init, i) == StartEvent(captures, i) && EndEvent(init, i) == EndEvent(captures, i);
      EventsOf(init) + [StartEvent(captures, n), EndEvent(captures, n)]
  }

  /** The sort comparator of `renderHtmlFromCaptures`: by position, and at equal
      positions an end event before a start event. */
  function Compare(a: CaptureEvent, b: CaptureEvent): int {
    if a.pos != b.pos then a.pos - b.pos
    else if a.kind == b.kind then 0
    else if a.kind == End then -1
    else 1
  }

  /** Insert `x` after every element that does not compare greater than it. */
  function Insert(x: CaptureEvent, sorted: seq<CaptureEvent>): (r: seq<CaptureEvent>)
    ensures multiset(r) == multiset(sorted) + multiset{x}
  {
    if sorted == [] then [x]
    else if Compare(x, sorted[0]) < 0 then [x] + sorted
    else
      assert sorted == [sorted[0]] + sorted[1..];
      [sorted[0]] + Insert(x, sorted[1..])
  }

  /** `events.sort(compare)`: the library sort, which is stable, modelled as an
      insertion sort that keeps elements that compare equal in their input order. */
  function SortEvents(events: seq<CaptureEvent>): (r: seq<CaptureEvent>)
    ensures multiset(r) == multiset(events)
  {
    if events == [] then []
    else
      assert events == events[..|events| - 1] + [events[|events| - 1]];
      Insert(events[|events| - 1], SortEvents(events[..|events| - 1]))
  }

  // ---------------------------------------------------------------- the sweep

  /** The topmost stack index holding capture `id`, or -1. */
  function TopmostIndex(stack: seq<CaptureRef>, id: nat): (r: int)
    ensures -1 <= r < |stack|
    ensures r >= 0 ==> stack[r].id == id && forall j :: r < j < |stack| ==> stack[j].id != id
    ensures r == -1 <==> forall j :: 0 <= j < |stack| ==> stack[j].id != id
  {
    if stack == [] then -1
    else if stack[|stack| - 1].id == id then |stack| - 1
    else TopmostIndex(stack[..|stack| - 1], id)
  }

  /** Removing the topmost entry of capture `id`; the rest keeps its order. */
  function RemoveTopmost(stack: seq<CaptureRef>, id: nat): (r: seq<CaptureRef>)
    ensures TopmostIndex(stack, id) == -1 ==> r == stack
    ensures TopmostIndex(stack, id) >= 0 ==>
      var k := TopmostIndex(stack, id);
      |r| == |stack| - 1 && (forall j :: 0 <= j < k ==> r[j] == stack[j])
        && forall j :: k <= j < |r| ==> r[j] == stack[j + 1]
  {
    var k := TopmostIndex(stack, id);
    if k == -1 then stack else stack[..k] + stack[k + 1..]
  }

  /** The removal loop of an end event: scan from the top, splice the first entry
      with the event's id out and stop. */
  method CloseCapture(stack: seq<CaptureRef>, id: nat) returns (r: seq<CaptureRef>)
    ensures r == RemoveTopmost(stack, id)
  {
    r := stack;
    var i := |stack| - 1;
    while i >= 0
      invariant -1 <= i < |stack|
      invariant forall j :: i < j < |stack| ==> stack[j].id != id
    {
      if stack[i].id == id {
        r := stack[..i] + stack[i + 1..];
        return;
      }
      i := i - 1;
    }
  }

  /** A run of text `[from, to)` flushed while `stack` was open. */
  datatype Run = Run(from: nat, to: nat, stack: seq<CaptureRef>)

  datatype SweepState = SweepState(cursor: nat, runs: seq<Run>, stack: seq<CaptureRef>)

  /** The runs are non-empty, adjacent, and cover `[0, cursor)` exactly. */
  predicate Tiles(runs: seq<Run>, cursor: nat) {
    && (runs == [] ==> cursor == 0)
    && (runs != [] ==> runs[0].from == 0 && runs[|runs| - 1].to == cursor)
    && (forall i :: 0 <= i < |runs| ==> runs[i].from < runs[i].to <= cursor)
    && (forall i :: 0 <= i < |runs| - 1 ==> Adjacent(runs, i))
  }

  predicate Adjacent(runs: seq<Run>, i: nat)
    requires i < |runs| - 1
  {
    runs[i].to == runs[i + 1].from
  }

  /** One iteration of the sweep loop. */
  function Step(st: SweepState, e: CaptureEvent): SweepState {
    var flushed :=
      if e.pos > st.cursor then SweepState(e.pos, st.runs + [Run(st.cursor, e.pos, st.stack)], st.stack)
      else st;
    if e.kind == Start then flushed.(stack := flushed.stack + [e.capture])
    else flushed.(stack := RemoveTopmost(flushed.stack, e.capture.id))
  }

  lemma AppendRun(runs: seq<Run>, cursor: nat, to: nat, stack: seq<CaptureRef>)
    requires Tiles(runs, cursor) && cursor < to
    ensures Tiles(runs + [Run(cursor, to, stack)], to)
  {
    var runs' := runs + [Run(cursor, to, stack)];
    assert forall i :: 0 <= i < |runs| ==> runs'[i] == runs[i];
    forall i | 0 <= i < |runs'| - 1 ensures Adjacent(runs', i) {
      if i < |runs| - 1 {
        assert Adjacent(runs, i);
      }
    }
  }

  lemma TilesWithin(runs: seq<Run>, cursor: nat, n: nat)
    requires Tiles(runs, cursor) && cursor <= n
    ensures Within(runs, n)
  {
  }

  lemma StepTiles(st: SweepState, e: CaptureEvent)
    requires Tiles(st.runs, st.cursor)
    ensures Tiles(Step(st, e).runs, Step(st, e).cursor)
    ensures Step(st, e).cursor == if e.pos > st.cursor then e.pos else st.cursor
  {
    if e.pos > st.cursor {
      AppendRun(st.runs, st.cursor, e.pos, st.stack);
    }
  }

  /** The state after sweeping `events` from cursor 0 with an empty stack; the cursor
      never decreases, so it ends at the largest position. */
  function Sweep(events: seq<CaptureEvent>): (st: SweepState)
    ensures Tiles(st.runs, st.cursor)
    ensures forall i :: 0 <= i < |events| ==> events[i].pos <= st.cursor
  {
    if events == [] then SweepState(0, [], [])
    else
      var init := events[..|events| - 1];
      var prev := Sweep(init);
      StepTiles(prev, events[|events| - 1]);
      assert forall i :: 0 <= i < |init| ==> init[i] == events[i];
      Step(prev, events[|events| - 1])
  }

  /** With every position at most `n`, the cursor stays at most `n`. */
  lemma {:induction false} SweepCursorBound(events: seq<CaptureEvent>, n: nat)
    requires forall e :: e in events ==> e.pos <= n
    ensures Sweep(events).cursor <= n
  {
    if events != [] {
      var init := events[..|events| - 1];
      assert forall e :: e in init ==> e in events;
      SweepCursorBound(init, n);
      StepTiles(Sweep(init), events[|events| - 1]);
    }
  }

  /** Every event of the sorted list lies inside the source. */
  lemma SortedEventsInBounds(captures: seq<Capture>, n: nat)
    requires InBounds(captures, n)
    ensures forall e :: e in SortEvents(EventsOf(captures)) ==> e.pos <= n
  {
    var events := EventsOf(captures);
    forall e | e in SortEvents(events) ensures e.pos <= n {
      assert e in multiset(SortEvents(events));
      assert e in events;
    }
  }

  predicate Within(runs: seq<Run>, n: nat) {
    forall i :: 0 <= i < |runs| ==> runs[i].from <= runs[i].to <= n
  }

  /** The runs of a render: those the sweep flushes, then the trailing text if any. */
  function Runs(source: string, captures: seq<Capture>): (runs: seq<Run>)
    requires InBounds(captures, |source|)
    ensures Tiles(runs, |source|) && Within(runs, |source|)
  {
    var events := SortEvents(EventsOf(captures));
    SortedEventsInBounds(captures, |source|);
    SweepCursorBound(events, |source|);
    Finish(Sweep(events), |source|)
  }

  /** The flush after the last event: the trailing text, if any, as one more run. */
  function Finish(last: SweepState, n: nat): (runs: seq<Run>)
    requires Tiles(last.runs, last.cursor) && last.cursor <= n
    ensures Tiles(runs, n) && Within(runs, n)
  {
    if last.cursor < n then
      AppendRun(last.runs, last.cursor, n, last.stack);
      var runs := last.runs + [Run(last.cursor, n, last.stack)];
      TilesWithin(runs, n, n);
      runs
    else
      TilesWithin(last.runs, last.cursor, n);
      last.runs
  }

  /** The markup of a list of runs: each run's text, escaped and wrapped. */
  function RenderRuns(source: string, runs: seq<Run>, attrs: map<string, string>): string
    requires Within(runs, |source|)
  {
    if runs == [] then ""
    else
      var last := runs[|runs| - 1];
      RenderRuns(source, runs[..|runs| - 1], attrs) + Wrapped(source[last.from..last.to], last.stack, attrs)
  }

  function NamesOf(captures: seq<Capture>): set<string> {
    set i | 0 <= i < |captures| :: captures[i].name
  }

  /** `attrByCapture`: the attribute of every capture name. */
  function AttrMap(captures: seq<Capture>, theme: ThemeDefinition): map<string, string> {
    map name | name in NamesOf(captures) :: BuildAttribute(name, theme)
  }

  /** What `renderHtmlFromCaptures(source, captures, theme)` returns. */
  function RenderSpec(source: string, captures: seq<Capture>, theme: ThemeDefinition): string
    requires InBounds(captures, |source|)
  {
    if |captures| == 0 then EscapeHtml(source)
    else RenderRuns(source, Runs(source, captures), AttrMap(captures, theme))
  }

  lemma AttrMapStep(captures: seq<Capture>, j: nat, theme: ThemeDefinition)
    requires j < |captures|
    ensures AttrMap(captures[..j + 1], theme) == AttrMap(captures[..j], theme)[captures[j].name := BuildAttribute(captures[j].name, theme)]
  {
    assert NamesOf(captures[..j + 1]) == NamesOf(captures[..j]) + {captures[j].name} by {
      assert forall i :: 0 <= i < j ==> captures[..j + 1][i] == captures[..j][i];
      assert captures[..j + 1][j] == captures[j];
    }
  }

  lemma EventsStep(captures: seq<Capture>, idx: nat)
    requires idx < |captures|
    ensures EventsOf(captures[..idx + 1]) == EventsOf(captures[..idx]) + [StartEvent(captures, idx), EndEvent(captures, idx)]
  {
    var c := captures[..idx + 1];
    assert c[..|c| - 1] == captures[..idx];
  }

  lemma SweepStep(events: seq<CaptureEvent>, k: nat)
    requires k < |events|
    ensures Sweep(events[..k + 1]) == Step(Sweep(events[..k]), events[k])
  {
    assert events[..k + 1][..k] == events[..k];
  }

  lemma RenderRunsStep(source: string, runs: seq<Run>, run: Run, attrs: map<string, string>)
    requires Within(runs, |source|) && run.from <= run.to <= |source|
    ensures Within(runs + [run], |source|)
    ensures RenderRuns(source, runs + [run], attrs) ==
      RenderRuns(source, runs, attrs) + Wrapped(source[run.from..run.to], run.stack, attrs)
  {
    assert (runs + [run])[..|runs|] == runs;
  }

  /** The render is the flushed runs followed by the trailing text. */
  lemma RenderSpecFinal(source: string, captures: seq<Capture>, theme: ThemeDefinition,
                        attrs: map<string, string>, last: SweepState)
    requires InBounds(captures, |source|) && |captures| > 0
    requires attrs == AttrMap(captures, theme) && last == Sweep(SortEvents(EventsOf(captures)))
    requires last.cursor <= |source| && Within(last.runs, |source|)
    ensures last.cursor < |source| ==>
      RenderSpec(source, captures, theme) ==
      RenderRuns(source, last.runs, attrs) + Wrapped(source[last.cursor..|source|], last.stack, attrs)
    ensures last.cursor == |source| ==> RenderSpec(source, captures, theme) == RenderRuns(source, last.runs, attrs)
  {
    if last.cursor < |source| {
      RenderRunsStep(source, last.runs, Run(last.cursor, |source|, last.stack), attrs);
    }
  }

  /** The first loop of `renderHtmlFromCaptures`: the attribute of each distinct
      capture name, computed once. */
  method BuildAttrByCapture(captures: seq<Capture>, theme: ThemeDefinition) returns (attrByCapture: map<string, string>)
    ensures attrByCapture == AttrMap(captures, theme)
  {
    attrByCapture := map[];
    for j := 0 to |captures|
      invariant attrByCapture == AttrMap(captures[..j], theme)
    {
      var name := captures[j].name;
      AttrMapStep(captures, j, theme);
      if name !in attrByCapture {
        attrByCapture := attrByCapture[name := BuildAttribute(name, theme)];
      }
    }
    assert captures[..|captures|] == captures;
  }

  /** The `forEach` loop of `renderHtmlFromCaptures`: a start and an end event per
      capture, both carrying its index. */
  method BuildEvents(captures: seq<Capture>) returns (events: seq<CaptureEvent>)
    ensures events == EventsOf(captures)
  {
    events := [];
    for idx := 0 to |captures|
      invariant events == EventsOf(captures[..idx])
    {
      var ref := CaptureRef(idx, captures[idx].name);
      EventsStep(captures, idx);
      events := events + [CaptureEvent(Start, captures[idx].startIndex, ref)];
      events := events + [CaptureEvent(End, captures[idx].endIndex, ref)];
    }
    assert captures[..|captures|] == captures;
  }

  /** The sweep loop of `renderHtmlFromCaptures`: flush the text before each event,
      wrapped in the open captures, then open or close the event's capture. */
  method SweepEvents(source: string, events: seq<CaptureEvent>, attrByCapture: map<string, string>)
    returns (html: string, cursor: nat, stack: seq<CaptureRef>)
    requires forall k :: 0 <= k < |events| ==> events[k].pos <= |source|
    ensures cursor == Sweep(events).cursor && stack == Sweep(events).stack
    ensures cursor <= |source| && Within(Sweep(events).runs, |source|)
    ensures html == RenderRuns(source, Sweep(events).runs, attrByCapture)
  {
    cursor := 0;
    html := "";
    stack := [];
    ghost var runs: seq<Run> := [];
    for k := 0 to |events|
      invariant SweepState(cursor, runs, stack) == Sweep(events[..k])
      invariant cursor <= |source| && Within(runs, |source|)
      invariant html == RenderRuns(source, runs, attrByCapture)
    {
      var event := events[k];
      SweepStep(events, k);
      if event.pos > cursor {
        var text := WrapText(source[cursor..event.pos], stack, attrByCapture);
        RenderRunsStep(source, runs, Run(cursor, event.pos, stack), attrByCapture);
        html := html + text;
        runs := runs + [Run(cursor, event.pos, stack)];
        cursor := event.pos;
      }
      if event.kind == Start {
        stack := stack + [event.capture];
      } else {
        stack := CloseCapture(stack, event.capture.id);
      }
    }
    assert events[..|events|] == events;
  }

  /** `renderHtmlFromCaptures`: build the attribute map and the events, sort the
      events, sweep them with a cursor and a stack of open captures, and flush the
      text after the last event. */
  method RenderHtmlFromCaptures(source: string, captures: seq<Capture>, theme: ThemeDefinition)
    returns (html: string)
    requires InBounds(captures, |source|)
    ensures html == RenderSpec(source, captures, theme)
  {
    if |captures| == 0 {
      return EscapeHtml(source);
    }
    var attrByCapture := BuildAttrByCapture(captures, theme);
    var events := BuildEvents(captures);
    events := SortEvents(events);
    SortedEventsInBounds(captures, |source|);
    assert forall k :: 0 <= k < |events| ==> events[k].pos <= |source| by {
      forall k | 0 <= k < |events| ensures events[k].pos <= |source| {
        assert events[k] in events;
      }
    }

    var cursor, stack;
    html, cursor, stack := SweepEvents(source, events, attrByCapture);
    RenderSpecFinal(source, captures, theme, attrByCapture, Sweep(events));
    if cursor < |source| {
      var text := WrapText(source[cursor..|source|], stack, attrByCapture);
      html := html + text;
    }
  }
}
