/** The order `renderHtmlFromCaptures` puts its events in (src/treelight.ts:101-119):
    the comparator plus the stability of `Array.prototype.sort` amount to a strict
    order on (position, end before start, capture index). */
module EventOrder {
  import opened Renderer

  function Rank(kind: EventType): nat {
    if kind == End then 0 else 1
  }

  /** The full sort key: position, then end before start, then capture index. */
  predicate KeyLess(a: CaptureEvent, b: CaptureEvent) {
    || a.pos < b.pos
    || (a.pos == b.pos && Rank(a.kind) < Rank(b.kind))
    || (a.pos == b.pos && a.kind == b.kind && a.capture.id < b.capture.id)
  }

  predicate StrictlySorted(s: seq<CaptureEvent>) {
    forall i, j :: 0 <= i < j < |s| ==> KeyLess(s[i], s[j])
  }

  /** Events that the comparator calls equal already stand in capture order. */
  predicate TiesInCaptureOrder(s: seq<CaptureEvent>) {
    forall i, j :: 0 <= i < j < |s| && Compare(s[i], s[j]) == 0 ==> s[i].capture.id < s[j].capture.id
  }

  lemma KeyLessAsymmetric(a: CaptureEvent, b: CaptureEvent)
    ensures !(KeyLess(a, b) && KeyLess(b, a))
  {
  }

  /** Inserting after every element that does not compare greater keeps the list
      strictly sorted, provided the new element comes after its ties. */
  lemma {:induction false} InsertSorted(x: CaptureEvent, s: seq<CaptureEvent>)
    requires StrictlySorted(s)
    requires forall y :: y in s && Compare(y, x) == 0 ==> y.capture.id < x.capture.id
    ensures StrictlySorted(Insert(x, s))
  {
    if s == [] {
    } else if Compare(x, s[0]) < 0 {
      InsertFront(x, s);
    } else {
      var t := s[1..];
      assert forall y :: y in t ==> y in s;
      InsertSorted(x, t);
      InsertBehind(x, s, Insert(x, t));
    }
  }

  lemma InsertFront(x: CaptureEvent, s: seq<CaptureEvent>)
    requires StrictlySorted(s) && s != [] && Compare(x, s[0]) < 0
    ensures StrictlySorted([x] + s)
  {
    forall y | y in s ensures KeyLess(x, y) {
      var j :| 0 <= j < |s| && s[j] == y;
      if j > 0 {
        assert KeyLess(s[0], s[j]);
      }
    }
    ConsSorted(x, s);
  }

  lemma InsertBehind(x: CaptureEvent, s: seq<CaptureEvent>, ins: seq<CaptureEvent>)
    requires StrictlySorted(s) && s != [] && Compare(x, s[0]) >= 0
    requires Compare(s[0], x) == 0 ==> s[0].capture.id < x.capture.id
    requires StrictlySorted(ins) && multiset(ins) == multiset(s[1..]) + multiset{x}
    ensures StrictlySorted([s[0]] + ins)
  {
    var t := s[1..];
    forall y | y in ins ensures KeyLess(s[0], y) {
      assert y in multiset(ins);
      if y != x {
        assert y in t;
        var j :| 0 <= j < |t| && t[j] == y;
        assert s[j + 1] == y;
      }
    }
    ConsSorted(s[0], ins);
  }

  lemma ConsSorted(h: CaptureEvent, t: seq<CaptureEvent>)
    requires StrictlySorted(t) && forall y :: y in t ==> KeyLess(h, y)
    ensures StrictlySorted([h] + t)
  {
    var r := [h] + t;
    assert forall j :: 1 <= j < |r| ==> r[j] == t[j - 1] && t[j - 1] in t;
  }

  /** The stable sort of a list whose ties stand in capture order is strictly sorted. */
  lemma {:induction false} SortSorted(events: seq<CaptureEvent>)
    requires TiesInCaptureOrder(events)
    ensures StrictlySorted(SortEvents(events))
  {
    if events != [] {
      var init := events[..|events| - 1];
      var x := events[|events| - 1];
      assert forall i :: 0 <= i < |init| ==> init[i] == events[i];
      SortSorted(init);
      forall y | y in SortEvents(init) && Compare(y, x) == 0 ensures y.capture.id < x.capture.id {
        assert y in multiset(SortEvents(init));
        var i :| 0 <= i < |init| && init[i] == y;
        assert events[i] == y;
      }
      InsertSorted(x, SortEvents(init));
    }
  }

  /** The pushed events: ties (same position and type) only occur between
      different captures, and then in index order. */
  lemma {:induction false} EventsInCaptureOrder(captures: seq<Capture>)
    ensures TiesInCaptureOrder(EventsOf(captures))
  {
    if captures != [] {
      var init := captures[..|captures| - 1];
      var n := |captures| - 1;
      EventsInCaptureOrder(init);
      var prev := EventsOf(init);
      var ev := EventsOf(captures);
      assert ev == prev + [StartEvent(captures, n), EndEvent(captures, n)];
      forall i, j | 0 <= i < j < |ev| && Compare(ev[i], ev[j]) == 0
        ensures ev[i].capture.id < ev[j].capture.id
      {
        if j < |prev| {
          assert ev[i] == prev[i] && ev[j] == prev[j];
        } else if i < |prev| {
          assert ev[i] == prev[i] && prev[i] in prev;
        }
      }
    }
  }

  /** The events in the order the sweep visits them. */
  function SortedEvents(captures: seq<Capture>): seq<CaptureEvent> {
    SortEvents(EventsOf(captures))
  }

  /** The sorted list is a permutation of the pushed events, its positions never
      decrease, at one position every end event precedes every start event, and
      events of one type at one position keep capture order. */
  lemma SortedOrder(captures: seq<Capture>)
    ensures var e := SortedEvents(captures);
      && |e| == 2 * |captures|
      && multiset(e) == multiset(EventsOf(captures))
      && StrictlySorted(e)
      && (forall i, j :: 0 <= i < j < |e| ==> e[i].pos <= e[j].pos)
      && (forall i, j :: 0 <= i < j < |e| && e[i].pos == e[j].pos && e[j].kind == End ==> e[i].kind == End)
      && (forall i, j :: 0 <= i < j < |e| && e[i].pos == e[j].pos && e[i].kind == e[j].kind ==>
            e[i].capture.id < e[j].capture.id)
  {
    var e := SortedEvents(captures);
    assert multiset(e) == multiset(EventsOf(captures)) && StrictlySorted(e) by {
      EventsInCaptureOrder(captures);
      SortSorted(EventsOf(captures));
    }
    assert |e| == 2 * |captures| by {
      assert |multiset(e)| == |e|;
      assert |multiset(EventsOf(captures))| == |EventsOf(captures)|;
    }
    SortedConsequences(e);
  }

  lemma SortedConsequences(e: seq<CaptureEvent>)
    requires StrictlySorted(e)
    ensures forall i, j :: 0 <= i < j < |e| ==> e[i].pos <= e[j].pos
    ensures forall i, j :: 0 <= i < j < |e| && e[i].pos == e[j].pos && e[j].kind == End ==> e[i].kind == End
    ensures forall i, j :: 0 <= i < j < |e| && e[i].pos == e[j].pos && e[i].kind == e[j].kind ==>
      e[i].capture.id < e[j].capture.id
  {
    assert forall i, j :: 0 <= i < j < |e| ==> KeyLess(e[i], e[j]);
  }
}
