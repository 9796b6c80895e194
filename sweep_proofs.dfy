/** What the sweep of `renderHtmlFromCaptures` (src/treelight.ts:121-142) keeps on
    its stack: exactly the captures whose text is being emitted, outermost first. */
module SweepProofs {
  import opened Renderer
  import opened EventOrder

  // ---------------------------------------------------------------- stacks

  /** Every entry is a capture reference with that capture's name. */
  predicate Named(captures: seq<Capture>, stack: seq<CaptureRef>) {
    forall j :: 0 <= j < |stack| ==> stack[j].id < |captures| && stack[j].name == captures[stack[j].id].name
  }

  /** Capture `i` opens before capture `j`: an earlier start, or the same start
      and a smaller index. */
  predicate OpensBefore(captures: seq<Capture>, i: nat, j: nat) {
    && i < |captures| && j < |captures|
    && (captures[i].startIndex < captures[j].startIndex
        || (captures[i].startIndex == captures[j].startIndex && i < j))
  }

  /** The stack runs from the first-opened capture (outermost) to the last. */
  predicate Ordered(captures: seq<Capture>, stack: seq<CaptureRef>) {
    forall j1, j2 :: 0 <= j1 < j2 < |stack| ==> OpensBefore(captures, stack[j1].id, stack[j2].id)
  }

  /** The text `[from, to)` lies inside capture `c`, or `c` is zero-width (or
      reversed) and started at or before `from`: such a capture is never closed. */
  predicate Covers(c: Capture, from: nat, to: nat) {
    c.startIndex <= from && (to <= c.endIndex || c.endIndex <= c.startIndex)
  }

  /** A run's stack holds exactly the captures covering the run, in opening order. */
  predicate RunCovered(captures: seq<Capture>, run: Run) {
    && Named(captures, run.stack)
    && Ordered(captures, run.stack)
    && forall i :: 0 <= i < |captures| ==>
         (CaptureRef(i, captures[i].name) in run.stack <==> Covers(captures[i], run.from, run.to))
  }

  // ---------------------------------------------------------------- the sorted events

  /** The sorted event list of `captures`. */
  predicate EventsFor(captures: seq<Capture>, e: seq<CaptureEvent>) {
    StrictlySorted(e) && multiset(e) == multiset(EventsOf(captures))
  }

  lemma EventsMembers(captures: seq<Capture>, e: seq<CaptureEvent>)
    requires EventsFor(captures, e)
    ensures forall i :: 0 <= i < |captures| ==> StartEvent(captures, i) in e && EndEvent(captures, i) in e
    ensures forall x :: x in e ==>
      && x.capture.id < |captures|
      && (x == StartEvent(captures, x.capture.id) || x == EndEvent(captures, x.capture.id))
  {
    var ev := EventsOf(captures);
    forall i | 0 <= i < |captures| ensures StartEvent(captures, i) in e && EndEvent(captures, i) in e {
      assert ev[2 * i] in multiset(ev) && ev[2 * i + 1] in multiset(ev);
    }
    forall x | x in e
      ensures x.capture.id < |captures| && (x == StartEvent(captures, x.capture.id) || x == EndEvent(captures, x.capture.id))
    {
      assert x in multiset(ev);
    }
  }

  /** In a strictly sorted list, an element is among the first `k` iff it sorts
      before the `k`-th. */
  lemma PrefixIff(e: seq<CaptureEvent>, k: nat, x: CaptureEvent)
    requires StrictlySorted(e) && k < |e| && x in e
    ensures x in e[..k] <==> KeyLess(x, e[k])
  {
    var m :| 0 <= m < |e| && e[m] == x;
    if m < k {
      assert e[..k][m] == x;
      assert KeyLess(e[m], e[k]);
    } else {
      forall m' | 0 <= m' < k ensures e[m'] != x {
        assert KeyLess(e[m'], e[m]);
      }
      if m > k {
        assert KeyLess(e[k], e[m]);
        KeyLessAsymmetric(x, e[k]);
      }
    }
  }

  lemma PrefixExtend(e: seq<CaptureEvent>, k: nat, x: CaptureEvent)
    requires k < |e|
    ensures x in e[..k + 1] <==> x in e[..k] || x == e[k]
  {
    assert e[..k + 1] == e[..k] + [e[k]];
  }

  /** Before a flush from `a` to `b`, the first `k` events lie at or before `a`
      and the others at or after `b`. */
  predicate Split(e: seq<CaptureEvent>, k: nat, a: nat, b: nat) {
    && k <= |e|
    && (forall m :: 0 <= m < k ==> e[m].pos <= a)
    && (forall m :: k <= m < |e| ==> b <= e[m].pos)
  }

  lemma SplitMember(e: seq<CaptureEvent>, k: nat, a: nat, b: nat, x: CaptureEvent)
    requires Split(e, k, a, b) && a < b && x in e
    ensures x in e[..k] <==> x.pos <= a
    ensures x.pos <= a || b <= x.pos
  {
    var m :| 0 <= m < |e| && e[m] == x;
    if m < k {
      assert e[..k][m] == x;
    } else {
      forall m' | 0 <= m' < k ensures e[m'] != x {
      }
    }
  }

  // ---------------------------------------------------------------- the stack invariant

  /** Capture `i` is open after the first `k` events: its start has been seen, and
      its end has not been seen after it. */
  predicate Open(captures: seq<Capture>, e: seq<CaptureEvent>, k: nat, i: nat)
    requires i < |captures| && k <= |e|
  {
    && StartEvent(captures, i) in e[..k]
    && !(EndEvent(captures, i) in e[..k] && KeyLess(StartEvent(captures, i), EndEvent(captures, i)))
  }

  predicate StackInv(captures: seq<Capture>, e: seq<CaptureEvent>, k: nat, stack: seq<CaptureRef>)
    requires k <= |e|
  {
    && Named(captures, stack)
    && Ordered(captures, stack)
    && forall i :: 0 <= i < |captures| ==> (CaptureRef(i, captures[i].name) in stack <==> Open(captures, e, k, i))
  }

  lemma OrderedDistinct(captures: seq<Capture>, stack: seq<CaptureRef>)
    requires Ordered(captures, stack)
    ensures forall j1, j2 :: 0 <= j1 < j2 < |stack| ==> stack[j1].id != stack[j2].id
  {
    forall j1, j2 | 0 <= j1 < j2 < |stack| ensures stack[j1].id != stack[j2].id {
      assert OpensBefore(captures, stack[j1].id, stack[j2].id);
    }
  }

  /** Removing the topmost entry of an id that occurs at most once removes every
      entry with that id and keeps the rest, in order. */
  lemma RemoveKeeps(captures: seq<Capture>, stack: seq<CaptureRef>, id: nat)
    requires Named(captures, stack) && Ordered(captures, stack)
    ensures var r := RemoveTopmost(stack, id);
      Named(captures, r) && Ordered(captures, r) && forall x :: x in r <==> x in stack && x.id != id
  {
    var t := TopmostIndex(stack, id);
    if t >= 0 {
      RemoveFound(captures, stack, id, t);
    }
  }

  lemma RemoveFound(captures: seq<Capture>, stack: seq<CaptureRef>, id: nat, t: nat)
    requires Named(captures, stack) && Ordered(captures, stack)
    requires t == TopmostIndex(stack, id)
    ensures Named(captures, stack[..t] + stack[t + 1..]) && Ordered(captures, stack[..t] + stack[t + 1..])
    ensures forall x :: x in RemoveTopmost(stack, id) <==> x in stack && x.id != id
  {
    OrderedDistinct(captures, stack);
    RemoveOrdered(captures, stack, t);
    forall x ensures x in RemoveTopmost(stack, id) <==> x in stack && x.id != id {
      RemoveMember(stack, id, t, x);
    }
  }

  lemma RemoveOrdered(captures: seq<Capture>, stack: seq<CaptureRef>, t: nat)
    requires Named(captures, stack) && Ordered(captures, stack) && t < |stack|
    ensures Named(captures, stack[..t] + stack[t + 1..]) && Ordered(captures, stack[..t] + stack[t + 1..])
  {
    var r := stack[..t] + stack[t + 1..];
    assert forall j :: 0 <= j < |r| ==> r[j] == stack[if j < t then j else j + 1];
    forall j1, j2 | 0 <= j1 < j2 < |r| ensures OpensBefore(captures, r[j1].id, r[j2].id) {
      var k1 := if j1 < t then j1 else j1 + 1;
      var k2 := if j2 < t then j2 else j2 + 1;
      assert r[j1] == stack[k1] && r[j2] == stack[k2];
    }
  }

  lemma RemoveMember(stack: seq<CaptureRef>, id: nat, t: nat, x: CaptureRef)
    requires t == TopmostIndex(stack, id) && t < |stack|
    requires forall j1, j2 :: 0 <= j1 < j2 < |stack| ==> stack[j1].id != stack[j2].id
    ensures x in RemoveTopmost(stack, id) <==> x in stack && x.id != id
  {
    var r := RemoveTopmost(stack, id);
    assert r == stack[..t] + stack[t + 1..];
    if x in r {
      var j :| 0 <= j < |r| && r[j] == x;
      var j' := if j < t then j else j + 1;
      assert stack[j'] == x && j' != t;
    }
    if x in stack && x.id != id {
      var j :| 0 <= j < |stack| && stack[j] == x;
      assert j != t;
      assert r[if j < t then j else j - 1] == x;
    }
  }

  lemma StartStep(captures: seq<Capture>, e: seq<CaptureEvent>, k: nat, stack: seq<CaptureRef>)
    requires EventsFor(captures, e) && k < |e| && StackInv(captures, e, k, stack) && e[k].kind == Start
    ensures StackInv(captures, e, k + 1, stack + [e[k].capture])
  {
    EventsMembers(captures, e);
    var i0 := e[k].capture.id;
    assert e[k] in e;
    assert e[k] == StartEvent(captures, i0);
    var s' := stack + [e[k].capture];
    forall j | 0 <= j < |stack| ensures OpensBefore(captures, stack[j].id, i0) {
      var i := stack[j].id;
      assert stack[j] == CaptureRef(i, captures[i].name);
      assert stack[j] in stack;
      PrefixIff(e, k, StartEvent(captures, i));
    }
    assert Ordered(captures, s') by {
      forall j1, j2 | 0 <= j1 < j2 < |s'| ensures OpensBefore(captures, s'[j1].id, s'[j2].id) {
        if j2 < |stack| {
          assert s'[j1] == stack[j1] && s'[j2] == stack[j2];
        } else {
          assert s'[j1] == stack[j1];
        }
      }
    }
    forall i | 0 <= i < |captures|
      ensures CaptureRef(i, captures[i].name) in s' <==> Open(captures, e, k + 1, i)
    {
      PrefixExtend(e, k, StartEvent(captures, i));
      PrefixExtend(e, k, EndEvent(captures, i));
      if i == i0 {
        PrefixIff(e, k, StartEvent(captures, i));
        PrefixIff(e, k, EndEvent(captures, i));
        KeyLessAsymmetric(EndEvent(captures, i), StartEvent(captures, i));
      }
    }
  }

  lemma EndStep(captures: seq<Capture>, e: seq<CaptureEvent>, k: nat, stack: seq<CaptureRef>)
    requires EventsFor(captures, e) && k < |e| && StackInv(captures, e, k, stack) && e[k].kind == End
    ensures StackInv(captures, e, k + 1, RemoveTopmost(stack, e[k].capture.id))
  {
    EventsMembers(captures, e);
    var i0 := e[k].capture.id;
    assert e[k] in e;
    assert e[k] == EndEvent(captures, i0);
    RemoveKeeps(captures, stack, i0);
    var s' := RemoveTopmost(stack, i0);
    forall i | 0 <= i < |captures|
      ensures CaptureRef(i, captures[i].name) in s' <==> Open(captures, e, k + 1, i)
    {
      PrefixExtend(e, k, StartEvent(captures, i));
      PrefixExtend(e, k, EndEvent(captures, i));
      if i == i0 {
        PrefixIff(e, k, StartEvent(captures, i));
      }
    }
  }

  /** After the first `k` events: the stack invariant, the cursor at the last seen
      position, and every flushed run covered. */
  predicate SweptInv(captures: seq<Capture>, e: seq<CaptureEvent>, k: nat, st: SweepState)
    requires k <= |e|
  {
    && StackInv(captures, e, k, st.stack)
    && st.cursor == (if k == 0 then 0 else e[k - 1].pos)
    && forall r :: r in st.runs ==> RunCovered(captures, r)
  }

  lemma PosMonotone(e: seq<CaptureEvent>, i: nat, j: nat)
    requires StrictlySorted(e) && i <= j < |e|
    ensures e[i].pos <= e[j].pos
  {
    if i < j {
      assert KeyLess(e[i], e[j]);
    }
  }

  lemma FlushSplit(e: seq<CaptureEvent>, k: nat, a: nat)
    requires StrictlySorted(e) && k < |e| && a == (if k == 0 then 0 else e[k - 1].pos) && a < e[k].pos
    ensures Split(e, k, a, e[k].pos)
  {
    forall m | 0 <= m < k ensures e[m].pos <= a {
      PosMonotone(e, m, k - 1);
    }
    forall m | k <= m < |e| ensures e[k].pos <= e[m].pos {
      PosMonotone(e, k, m);
    }
  }

  lemma OpenCovers(captures: seq<Capture>, e: seq<CaptureEvent>, k: nat, a: nat, b: nat, i: nat)
    requires Split(e, k, a, b) && a < b && i < |captures|
    requires StartEvent(captures, i) in e && EndEvent(captures, i) in e
    ensures Open(captures, e, k, i) <==> Covers(captures[i], a, b)
  {
    SplitMember(e, k, a, b, StartEvent(captures, i));
    SplitMember(e, k, a, b, EndEvent(captures, i));
  }

  /** The run flushed before event `k` is covered. */
  lemma FlushCovered(captures: seq<Capture>, e: seq<CaptureEvent>, k: nat, st: SweepState)
    requires EventsFor(captures, e) && k < |e| && SweptInv(captures, e, k, st) && st.cursor < e[k].pos
    ensures RunCovered(captures, Run(st.cursor, e[k].pos, st.stack))
  {
    EventsMembers(captures, e);
    FlushSplit(e, k, st.cursor);
    forall i | 0 <= i < |captures|
      ensures Open(captures, e, k, i) <==> Covers(captures[i], st.cursor, e[k].pos)
    {
      OpenCovers(captures, e, k, st.cursor, e[k].pos, i);
    }
  }

  lemma {:induction false} SweepCovered(captures: seq<Capture>, e: seq<CaptureEvent>, k: nat)
    requires EventsFor(captures, e) && k <= |e|
    ensures SweptInv(captures, e, k, Sweep(e[..k]))
  {
    if k > 0 {
      SweepCovered(captures, e, k - 1);
      SweepStep(e, k - 1);
      SweptStep(captures, e, k - 1, Sweep(e[..k - 1]));
    }
  }

  /** One event keeps the sweep invariant. */
  lemma SweptStep(captures: seq<Capture>, e: seq<CaptureEvent>, j: nat, st: SweepState)
    requires EventsFor(captures, e) && j < |e| && SweptInv(captures, e, j, st)
    ensures SweptInv(captures, e, j + 1, Step(st, e[j]))
  {
    if j > 0 {
      PosMonotone(e, j - 1, j);
    }
    if e[j].pos > st.cursor {
      FlushCovered(captures, e, j, st);
    }
    if e[j].kind == Start {
      StartStep(captures, e, j, st.stack);
    } else {
      EndStep(captures, e, j, st.stack);
    }
  }

  /** The trailing run after the last event is covered. */
  lemma TrailCovered(captures: seq<Capture>, e: seq<CaptureEvent>, st: SweepState, n: nat)
    requires EventsFor(captures, e) && SweptInv(captures, e, |e|, st)
    requires (forall m :: 0 <= m < |e| ==> e[m].pos <= st.cursor) && st.cursor < n
    ensures RunCovered(captures, Run(st.cursor, n, st.stack))
  {
    EventsMembers(captures, e);
    assert e[..|e|] == e;
    forall i | 0 <= i < |captures|
      ensures Open(captures, e, |e|, i) <==> Covers(captures[i], st.cursor, n)
    {
      var s := StartEvent(captures, i);
      var m :| 0 <= m < |e| && e[m] == s;
      var t := EndEvent(captures, i);
      var m' :| 0 <= m' < |e| && e[m'] == t;
    }
  }

  lemma SortedEventsFor(captures: seq<Capture>)
    ensures EventsFor(captures, SortedEvents(captures))
  {
    EventsInCaptureOrder(captures);
    SortSorted(EventsOf(captures));
  }

  /** Every run of a render is covered: the spans around a run's text are exactly
      those of the captures whose range contains it (plus the zero-width captures
      opened at or before it), outermost first in opening order. */
  lemma RunsCovered(source: string, captures: seq<Capture>)
    requires InBounds(captures, |source|)
    ensures forall r :: r in Runs(source, captures) ==> RunCovered(captures, r)
  {
    var e := SortedEvents(captures);
    SortedEventsFor(captures);
    SortedEventsInBounds(captures, |source|);
    SweepCursorBound(e, |source|);
    SweepCovered(captures, e, |e|);
    assert e[..|e|] == e;
    var st := Sweep(e);
    if st.cursor < |source| {
      TrailCovered(captures, e, st, |source|);
    }
  }

  /** A zero-width capture is never closed: it wraps every later run, the trailing
      text included. */
  lemma ZeroWidthStaysOpen(source: string, captures: seq<Capture>, i: nat)
    requires InBounds(captures, |source|) && i < |captures|
    requires captures[i].endIndex == captures[i].startIndex
    ensures forall r :: r in Runs(source, captures) && captures[i].startIndex <= r.from ==>
      CaptureRef(i, captures[i].name) in r.stack
  {
    RunsCovered(source, captures);
  }

  /** A capture with a positive width wraps exactly the runs inside its range. */
  lemma NestedCapture(source: string, captures: seq<Capture>, i: nat)
    requires InBounds(captures, |source|) && i < |captures|
    requires captures[i].startIndex < captures[i].endIndex
    ensures forall r :: r in Runs(source, captures) ==>
      (CaptureRef(i, captures[i].name) in r.stack <==>
        captures[i].startIndex <= r.from && r.to <= captures[i].endIndex)
  {
    RunsCovered(source, captures);
  }
}
