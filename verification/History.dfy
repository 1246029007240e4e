/**
 Back and forward navigation, one history per pane. A history is a timeline with a
 cursor: the entries before it, the current location, and the entries after it.
 */
module Histories {
  import opened Wrappers

  datatype S3Location = S3Location(profileId: string, bucket: Option<string>, prefix: string)

  datatype PaneHistory = PaneHistory(back: seq<S3Location>, forward: seq<S3Location>, last: Option<S3Location>)

  datatype Pane = Pane(id: string, location: Option<S3Location>)

  const EMPTY := PaneHistory([], [], None)

  // ------------------------------------------------------------------------
  // One history
  // ------------------------------------------------------------------------

  /** A location change seen from outside. */
  function Observe(h: PaneHistory, location: Option<S3Location>): PaneHistory {
    if h.last == location then h
    else if h.last.Some? then PaneHistory(h.back + [h.last.value], [], location)
    else h.(last := location)
  }

  function Back(h: PaneHistory): PaneHistory {
    if h.back == [] then h
    else
      var target := h.back[|h.back| - 1];
      PaneHistory(h.back[..|h.back| - 1], if h.last.Some? then h.forward + [h.last.value] else h.forward, Some(target))
  }

  function Forward(h: PaneHistory): PaneHistory {
    if h.forward == [] then h
    else
      var target := h.forward[|h.forward| - 1];
      PaneHistory(if h.last.Some? then h.back + [h.last.value] else h.back, h.forward[..|h.forward| - 1], Some(target))
  }

  function Reversed(s: seq<S3Location>): (r: seq<S3Location>)
    ensures |r| == |s|
  {
    if s == [] then [] else [s[|s| - 1]] + Reversed(s[..|s| - 1])
  }

  function Current(h: PaneHistory): seq<S3Location> {
    if h.last.Some? then [h.last.value] else []
  }

  /** Every location the pane can reach by going back and forward, oldest first. */
  function Timeline(h: PaneHistory): seq<S3Location> {
    h.back + Current(h) + Reversed(h.forward)
  }

  /** With no current location there is nothing to go forward to. */
  predicate Reachable(h: PaneHistory) {
    h.last.None? ==> h.forward == []
  }

  lemma ReversedPush(s: seq<S3Location>, x: S3Location)
    ensures Reversed(s + [x]) == [x] + Reversed(s)
  {
    assert (s + [x])[..|s|] == s;
  }

  /** Going back moves the cursor one step left and leaves the timeline alone. */
  lemma BackMovesCursor(h: PaneHistory)
    requires Reachable(h) && h.back != []
    ensures Timeline(Back(h)) == Timeline(h) && |Back(h).back| == |h.back| - 1 && Reachable(Back(h))
    ensures Back(h).last == Some(Timeline(h)[|h.back| - 1])
  {
    var init, target := h.back[..|h.back| - 1], h.back[|h.back| - 1];
    assert h.back == init + [target];
    if h.last.Some? {
      ReversedPush(h.forward, h.last.value);
      var later := Reversed(h.forward);
      assert init + [target] + ([h.last.value] + later) == (init + [target]) + [h.last.value] + later;
    }
  }

  /** Going forward moves the cursor one step right and leaves the timeline alone. */
  lemma ForwardMovesCursor(h: PaneHistory)
    requires Reachable(h) && h.forward != []
    ensures Timeline(Forward(h)) == Timeline(h) && |Forward(h).back| == |h.back| + 1 && Reachable(Forward(h))
    ensures Forward(h).last == Some(Timeline(h)[|h.back| + 1])
  {
    var rest := h.forward[..|h.forward| - 1];
    var target := h.forward[|h.forward| - 1];
    assert Reversed(h.forward) == [target] + Reversed(rest);
    var later := Reversed(rest);
    assert h.back + [h.last.value] + ([target] + later) == (h.back + [h.last.value]) + [target] + later;
  }

  /** A new location cuts the timeline after the cursor and becomes its end. */
  lemma NavigateTruncates(h: PaneHistory, location: S3Location)
    requires Reachable(h) && h.last != Some(location)
    ensures var h' := Observe(h, Some(location));
      && Reachable(h')
      && Timeline(h') == Timeline(h)[..|h.back| + |Current(h)|] + [location]
      && h'.forward == [] && h'.last == Some(location)
  {
    assert Timeline(h)[..|h.back| + |Current(h)|] == h.back + Current(h);
  }

  /** Leaving every location keeps the way back, and going back then returns to where the pane was. */
  lemma LeaveThenBack(h: PaneHistory)
    requires Reachable(h) && h.last.Some?
    ensures var h' := Observe(h, None);
      Reachable(h') && Timeline(h') == h.back + [h.last.value] && Back(h') == h.(forward := [])
  {
  }

  // ------------------------------------------------------------------------
  // Several steps
  // ------------------------------------------------------------------------

  function BackSteps(h: PaneHistory, n: nat): PaneHistory {
    if n == 0 then h else Back(BackSteps(h, n - 1))
  }

  function ForwardSteps(h: PaneHistory, n: nat): PaneHistory {
    if n == 0 then h else Forward(ForwardSteps(h, n - 1))
  }

  lemma BackThenForward(h: PaneHistory)
    requires h.last.Some? && h.back != []
    ensures Forward(Back(h)) == h
  {
    assert h.back == h.back[..|h.back| - 1] + [h.back[|h.back| - 1]];
    assert (h.forward + [h.last.value])[..|h.forward|] == h.forward;
  }

  lemma {:induction false} BackStepsShape(h: PaneHistory, n: nat)
    requires n <= |h.back|
    ensures BackSteps(h, n).back == h.back[..|h.back| - n]
    ensures n > 0 || h.last.Some? ==> BackSteps(h, n).last.Some?
    ensures |BackSteps(h, n).forward| == |h.forward| + if h.last.Some? || n == 0 then n else n - 1
  {
    if n == 0 {
    } else {
      BackStepsShape(h, n - 1);
    }
  }

  /** One step of the round trip: the last step back is undone by the first step forward. */
  lemma LastStepBackUndone(h: PaneHistory, n: nat)
    requires h.last.Some? && 0 < n <= |h.back|
    ensures Forward(BackSteps(h, n)) == BackSteps(h, n - 1)
  {
    BackStepsShape(h, n - 1);
    BackThenForward(BackSteps(h, n - 1));
  }

  lemma ForwardOnce(start: PaneHistory, m: nat, mid: PaneHistory, end: PaneHistory)
    requires m > 0 && ForwardSteps(start, m - 1) == mid && Forward(mid) == end
    ensures ForwardSteps(start, m) == end
  {
  }

  /** After n steps back, m steps forward leave n - m steps back. */
  lemma {:induction false} ForwardUndoesBack(h: PaneHistory, n: nat, m: nat)
    requires h.last.Some? && m <= n <= |h.back|
    ensures ForwardSteps(BackSteps(h, n), m) == BackSteps(h, n - m)
  {
    if m == 0 {
    } else {
      ForwardUndoesBack(h, n, m - 1);
      LastStepBackUndone(h, n - m + 1);
      ForwardOnce(BackSteps(h, n), m, BackSteps(h, n - m + 1), BackSteps(h, n - m));
    }
  }

  lemma {:induction false} ForwardStepsKeepLocated(h: PaneHistory, n: nat)
    requires h.last.Some?
    ensures ForwardSteps(h, n).last.Some?
  {
    if n == 0 {
    } else {
      ForwardStepsKeepLocated(h, n - 1);
    }
  }

  /** Going back n steps and forward n steps restores the history exactly when the pane had a location. */
  lemma RoundTripExact(h: PaneHistory, n: nat)
    requires 0 < n <= |h.back|
    ensures ForwardSteps(BackSteps(h, n), n) == h <==> h.last.Some?
  {
    if h.last.Some? {
      ForwardUndoesBack(h, n, n);
    } else {
      BackStepsShape(h, n);
      ForwardStepsKeepLocated(BackSteps(h, n), n);
    }
  }

  // ------------------------------------------------------------------------
  // The tracker
  // ------------------------------------------------------------------------

  function HistoryOf(histories: map<string, PaneHistory>, id: string): PaneHistory {
    if id in histories then histories[id] else EMPTY
  }

  /** The histories after the callback has looked at these panes, in order. */
  function ObserveAll(histories: map<string, PaneHistory>, panes: seq<Pane>): map<string, PaneHistory> {
    if panes == [] then histories
    else
      var before, pane := ObserveAll(histories, panes[..|panes| - 1]), panes[|panes| - 1];
      before[pane.id := Observe(HistoryOf(before, pane.id), pane.location)]
  }

  function Relocate(panes: seq<Pane>, id: string, location: Option<S3Location>): (r: seq<Pane>)
    ensures |r| == |panes|
    ensures forall n | 0 <= n < |panes| :: r[n] == if panes[n].id == id then Pane(id, location) else panes[n]
  {
    seq(|panes|, n requires 0 <= n < |panes| => if panes[n].id == id then Pane(id, location) else panes[n])
  }

  lemma {:induction false} UntouchedHistory(histories: map<string, PaneHistory>, panes: seq<Pane>, id: string)
    requires forall n | 0 <= n < |panes| :: panes[n].id != id
    ensures var after := ObserveAll(histories, panes);
      (id in after <==> id in histories) && (id in histories ==> after[id] == histories[id])
  {
    if panes == [] {
    } else {
      UntouchedHistory(histories, panes[..|panes| - 1], id);
    }
  }

  /** With distinct panes, each history is observed once. */
  lemma {:induction false} ObservedOnce(histories: map<string, PaneHistory>, panes: seq<Pane>, n: nat)
    requires n < |panes| && forall i, j | 0 <= i < j < |panes| :: panes[i].id != panes[j].id
    ensures var after := ObserveAll(histories, panes);
      panes[n].id in after && after[panes[n].id] == Observe(HistoryOf(histories, panes[n].id), panes[n].location)
  {
    var last := |panes| - 1;
    if n == last {
      UntouchedHistory(histories, panes[..last], panes[last].id);
    } else {
      ObservedOnce(histories, panes[..last], n);
    }
  }

  lemma {:induction false} ObserveAllKeepsReachable(histories: map<string, PaneHistory>, panes: seq<Pane>)
    requires forall id | id in histories :: Reachable(histories[id])
    ensures forall id | id in ObserveAll(histories, panes) :: Reachable(ObserveAll(histories, panes)[id])
  {
    if panes == [] {
    } else {
      ObserveAllKeepsReachable(histories, panes[..|panes| - 1]);
    }
  }

  class HistoryTracker {
    var panes: seq<Pane>
    var histories: map<string, PaneHistory>
    var inFlight: bool

    /** Between calls, every tracked pane shows the location its history ends on. */
    ghost predicate Valid()
      reads this
    {
      && !inFlight
      && (forall m, n | 0 <= m < n < |panes| :: panes[m].id != panes[n].id)
      && (forall id | id in histories :: Reachable(histories[id]))
      && (forall n | 0 <= n < |panes| && panes[n].id in histories :: histories[panes[n].id].last == panes[n].location)
    }

    constructor (panes: seq<Pane>)
      requires forall m, n | 0 <= m < n < |panes| :: panes[m].id != panes[n].id
      ensures Valid() && this.panes == panes && histories == map[]
    {
      this.panes := panes;
      histories := map[];
      inFlight := false;
    }

    /** The subscription callback. */
    method OnPanesChanged()
      modifies this`histories
      ensures histories == if inFlight then old(histories) else ObserveAll(old(histories), panes)
    {
      if inFlight {
        return;
      }
      for n := 0 to |panes|
        invariant histories == ObserveAll(old(histories), panes[..n])
      {
        assert panes[..n + 1][..n] == panes[..n];
        var pane := panes[n];
        var h := HistoryOf(histories, pane.id);
        if h.last != pane.location {
          if h.last.Some? {
            h := PaneHistory(h.back + [h.last.value], [], h.last);
          }
          h := h.(last := pane.location);
        }
        histories := histories[pane.id := h];
      }
      assert panes[..|panes|] == panes;
    }

    /** The panes change, and the store tells its subscriber. */
    method SetPanes(newPanes: seq<Pane>)
      modifies this`panes, this`histories
      ensures panes == newPanes
      ensures histories == if inFlight then old(histories) else ObserveAll(old(histories), panes)
    {
      panes := newPanes;
      OnPanesChanged();
    }

    /**
     Any change that does not come from the history itself: panes navigate, open and
     close. A pane that stays where it was keeps its history whole.
     */
    method Change(newPanes: seq<Pane>)
      requires Valid() && forall m, n | 0 <= m < n < |newPanes| :: newPanes[m].id != newPanes[n].id
      modifies this`panes, this`histories
      ensures Valid()
      ensures panes == newPanes
      ensures forall n | 0 <= n < |panes| ::
        && panes[n].id in histories
        && histories[panes[n].id] == Observe(HistoryOf(old(histories), panes[n].id), panes[n].location)
      ensures forall n | 0 <= n < |panes| && panes[n].id in old(histories) ::
        old(histories)[panes[n].id].last == panes[n].location ==> histories[panes[n].id] == old(histories)[panes[n].id]
      ensures forall n | 0 <= n < |panes| && panes[n].id !in old(histories) ::
        histories[panes[n].id] == PaneHistory([], [], panes[n].location)
      ensures forall other | other in old(histories) && (forall n | 0 <= n < |panes| :: panes[n].id != other) ::
        other in histories && histories[other] == old(histories)[other]
      ensures forall other | other in histories && (forall n | 0 <= n < |panes| :: panes[n].id != other) ::
        other in old(histories)
    {
      ghost var before := histories;
      SetPanes(newPanes);
      ObserveAllKeepsReachable(before, panes);
      forall n | 0 <= n < |panes|
        ensures panes[n].id in histories
        ensures histories[panes[n].id] == Observe(HistoryOf(before, panes[n].id), panes[n].location)
      {
        ObservedOnce(before, panes, n);
      }
      forall other | forall n | 0 <= n < |panes| :: panes[n].id != other
        ensures (other in histories <==> other in before) && (other in before ==> histories[other] == before[other])
      {
        UntouchedHistory(before, panes, other);
      }
    }

    /** Swaps the three panels of one history, then shows its location without recording the move. */
    method GoBack(id: string) returns (moved: bool)
      requires Valid()
      modifies this
      ensures Valid()
      ensures moved <==> HistoryOf(old(histories), id).back != []
      ensures moved ==> histories == old(histories)[id := Back(old(histories)[id])]
      ensures moved ==> panes == Relocate(old(panes), id, histories[id].last)
      ensures !moved ==> histories == old(histories) && panes == old(panes)
    {
      if id !in histories || histories[id].back == [] {
        return false;
      }
      var h := histories[id];
      var target := h.back[|h.back| - 1];
      h := h.(back := h.back[..|h.back| - 1]);
      if h.last.Some? {
        h := h.(forward := h.forward + [h.last.value]);
      }
      h := h.(last := Some(target));
      histories := histories[id := h];
      inFlight := true;
      SetPanes(Relocate(panes, id, Some(target)));
      inFlight := false;
      return true;
    }

    method GoForward(id: string) returns (moved: bool)
      requires Valid()
      modifies this
      ensures Valid()
      ensures moved <==> HistoryOf(old(histories), id).forward != []
      ensures moved ==> histories == old(histories)[id := Forward(old(histories)[id])]
      ensures moved ==> panes == Relocate(old(panes), id, histories[id].last)
      ensures !moved ==> histories == old(histories) && panes == old(panes)
    {
      if id !in histories || histories[id].forward == [] {
        return false;
      }
      var h := histories[id];
      var target := h.forward[|h.forward| - 1];
      h := h.(forward := h.forward[..|h.forward| - 1]);
      if h.last.Some? {
        h := h.(back := h.back + [h.last.value]);
      }
      h := h.(last := Some(target));
      histories := histories[id := h];
      inFlight := true;
      SetPanes(Relocate(panes, id, Some(target)));
      inFlight := false;
      return true;
    }

    method CanBack(id: string) returns (can: bool)
      requires Valid()
      ensures can <==> HistoryOf(histories, id).back != []
    {
      can := id in histories && histories[id].back != [];
    }

    method CanForward(id: string) returns (can: bool)
      requires Valid()
      ensures can <==> HistoryOf(histories, id).forward != []
    {
      can := id in histories && histories[id].forward != [];
    }
  }
}
