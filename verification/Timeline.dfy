/** The transitions worth reading in a device's observations (`scan_events`). */
module Timeline {
  import opened Wrappers
  import opened Records
  import opened History

  datatype EventKind =
    | FirstRecorded
    | WentQuiet
    | AnsweredAgain(diff: ObservationDiff)
    | ChangedSince(diff: ObservationDiff)

  datatype Event = Event(runId: nat, when: int, kind: EventKind)

  datatype ScanCoverage = ScanCoverage(scans: nat, answered: nat, lastRunId: Option<nat>, lastPresent: Option<bool>)

  // ---------------------------------------------------------------- what is reported where

  /** The last sighting among the first `n` observations. */
  function LastSighting(obs: seq<Observation>, n: nat): (r: Option<nat>)
    requires n <= |obs|
    ensures r.Some? ==> r.value < n && obs[r.value].present && forall j :: r.value < j < n ==> !obs[j].present
    ensures r.None? ==> forall j :: 0 <= j < n ==> !obs[j].present
  {
    if n == 0 then None else if obs[n - 1].present then Some(n - 1) else LastSighting(obs, n - 1)
  }

  predicate IsFirstSighting(obs: seq<Observation>, i: nat)
    requires i < |obs|
  {
    obs[i].present && forall j :: 0 <= j < i ==> !obs[j].present
  }

  predicate StartsSilence(obs: seq<Observation>, i: nat)
    requires i < |obs|
  {
    !obs[i].present && (i > 0 ==> obs[i - 1].present)
  }

  predicate EndsSilence(obs: seq<Observation>, i: nat)
    requires i < |obs|
  {
    obs[i].present && i > 0 && !obs[i - 1].present && exists j :: 0 <= j < i && obs[j].present
  }

  /** The last sighting before `i` differs from the sighting at `i`. */
  predicate DiffersFromLast(obs: seq<Observation>, i: nat)
    requires i < |obs|
  {
    obs[i].present && exists j :: 0 <= j < i && obs[j].present && (forall k :: j < k < i ==> !obs[k].present) && Changed(Diff(obs[j], obs[i]))
  }

  function EventAt(obs: seq<Observation>, i: nat): Option<EventKind>
    requires i < |obs|
  {
    var last := LastSighting(obs, i);
    if !obs[i].present then
      if i == 0 || obs[i - 1].present then Some(WentQuiet) else None
    else if last.None? then Some(FirstRecorded)
    else
      var diff := Diff(obs[last.value], obs[i]);
      if !obs[i - 1].present then Some(AnsweredAgain(diff))
      else if Changed(diff) then Some(ChangedSince(diff))
      else None
  }

  /** An event is reported exactly at these four transitions, and it says which. */
  lemma EventsAreTheTransitions(obs: seq<Observation>, i: nat)
    requires i < |obs|
    ensures EventAt(obs, i).Some? <==>
      IsFirstSighting(obs, i) || StartsSilence(obs, i) || EndsSilence(obs, i) || DiffersFromLast(obs, i)
    ensures EventAt(obs, i) == Some(FirstRecorded) <==> IsFirstSighting(obs, i)
    ensures EventAt(obs, i) == Some(WentQuiet) <==> StartsSilence(obs, i)
    ensures EventAt(obs, i).Some? && EventAt(obs, i).value.AnsweredAgain? <==> EndsSilence(obs, i)
    ensures EventAt(obs, i).Some? && EventAt(obs, i).value.ChangedSince? <==> DiffersFromLast(obs, i) && !EndsSilence(obs, i)
  {
    var last := LastSighting(obs, i);
    if obs[i].present && last.Some? {
      assert DiffersFromLast(obs, i) <==> Changed(Diff(obs[last.value], obs[i])) by {
        forall j | 0 <= j < i && obs[j].present && (forall k :: j < k < i ==> !obs[k].present) ensures j == last.value {
        }
      }
    }
  }

  function EventsUpTo(obs: seq<Observation>, n: nat): seq<Event>
    requires n <= |obs|
  {
    if n == 0 then []
    else
      EventsUpTo(obs, n - 1)
      + match EventAt(obs, n - 1)
        case Some(kind) => [Event(obs[n - 1].runId, obs[n - 1].observedAt, kind)]
        case None => []
  }

  function Sightings(obs: seq<Observation>, n: nat): nat
    requires n <= |obs|
  {
    if n == 0 then 0 else Sightings(obs, n - 1) + if obs[n - 1].present then 1 else 0
  }

  function PresentAmong(obs: seq<Observation>, n: nat): set<int>
    requires n <= |obs|
  {
    set i | 0 <= i < n && obs[i].present
  }

  lemma {:induction false} SightingsCount(obs: seq<Observation>, n: nat)
    requires n <= |obs|
    ensures Sightings(obs, n) == |PresentAmong(obs, n)|
  {
    if n == 0 {
      assert PresentAmong(obs, 0) == {};
    } else {
      SightingsCount(obs, n - 1);
      assert PresentAmong(obs, n) == PresentAmong(obs, n - 1) + if obs[n - 1].present then {n - 1} else {};
    }
  }

  /** What an event of each kind at observation `i` must find there. */
  ghost predicate KindFits(obs: seq<Observation>, i: nat, kind: EventKind)
    requires i < |obs|
  {
    match kind
    case FirstRecorded => IsFirstSighting(obs, i)
    case WentQuiet => StartsSilence(obs, i)
    case AnsweredAgain(d) => EndsSilence(obs, i) && SinceLast(obs, i, d)
    case ChangedSince(d) => DiffersFromLast(obs, i) && !EndsSilence(obs, i) && SinceLast(obs, i, d)
  }

  /** `d` is the difference between the last sighting before `i` and the one at `i`. */
  ghost predicate SinceLast(obs: seq<Observation>, i: nat, d: ObservationDiff)
    requires i < |obs|
  {
    exists j :: 0 <= j < i && obs[j].present && (forall k :: j < k < i ==> !obs[k].present) && d == Diff(obs[j], obs[i])
  }

  /**
   * The events tell exactly the transitions among the first `n` observations, each once and in
   * order; `at` holds where each happened.
   */
  ghost predicate Tells(events: seq<Event>, obs: seq<Observation>, n: nat, at: seq<nat>)
    requires n <= |obs|
  {
    && |at| == |events|
    && (forall k :: 0 <= k < |at| ==> at[k] < n)
    && (forall k, l :: 0 <= k < l < |at| ==> at[k] < at[l])
    && (forall k :: 0 <= k < |at| ==>
      events[k].runId == obs[at[k]].runId && events[k].when == obs[at[k]].observedAt && KindFits(obs, at[k], events[k].kind))
    && (forall i :: 0 <= i < n && (IsFirstSighting(obs, i) || StartsSilence(obs, i) || EndsSilence(obs, i) || DiffersFromLast(obs, i)) ==> i in at)
  }

  lemma EventFits(obs: seq<Observation>, i: nat)
    requires i < |obs| && EventAt(obs, i).Some?
    ensures KindFits(obs, i, EventAt(obs, i).value)
  {
    EventsAreTheTransitions(obs, i);
    var last := LastSighting(obs, i);
    if obs[i].present && last.Some? {
      assert SinceLast(obs, i, Diff(obs[last.value], obs[i]));
    }
  }

  lemma TellsOneMore(events: seq<Event>, obs: seq<Observation>, n: nat, at: seq<nat>, e: Event)
    requires n < |obs| && Tells(events, obs, n, at)
    requires e.runId == obs[n].runId && e.when == obs[n].observedAt && KindFits(obs, n, e.kind)
    ensures Tells(events + [e], obs, n + 1, at + [n])
  {
    var more := at + [n];
    assert more[|at|] == n && forall k :: 0 <= k < |at| ==> more[k] == at[k];
    forall i | 0 <= i < n + 1 && (IsFirstSighting(obs, i) || StartsSilence(obs, i) || EndsSilence(obs, i) || DiffersFromLast(obs, i))
      ensures i in more
    {
      if i < n {
        assert i in at;
      }
    }
  }

  lemma {:induction false} EventsTell(obs: seq<Observation>, n: nat) returns (at: seq<nat>)
    requires n <= |obs|
    ensures Tells(EventsUpTo(obs, n), obs, n, at)
  {
    if n == 0 {
      at := [];
    } else {
      at := EventsTell(obs, n - 1);
      EventsAreTheTransitions(obs, n - 1);
      match EventAt(obs, n - 1) {
        case Some(kind) =>
          EventFits(obs, n - 1);
          TellsOneMore(EventsUpTo(obs, n - 1), obs, n - 1, at, Event(obs[n - 1].runId, obs[n - 1].observedAt, kind));
          at := at + [n - 1];
        case None =>
          assert EventsUpTo(obs, n - 1) + [] == EventsUpTo(obs, n - 1);
      }
    }
  }

  /** `scan_events`, on a device's observations, oldest first. */
  method ScanEvents(obs: seq<Observation>) returns (events: seq<Event>, coverage: ScanCoverage)
    ensures events == EventsUpTo(obs, |obs|)
    ensures exists at :: Tells(events, obs, |obs|, at)
    ensures coverage.scans == |obs| && coverage.answered == |PresentAmong(obs, |obs|)|
    ensures obs == [] ==> coverage.lastRunId.None? && coverage.lastPresent.None?
    ensures obs != [] ==> coverage.lastRunId == Some(obs[|obs| - 1].runId) && coverage.lastPresent == Some(obs[|obs| - 1].present)
  {
    events := [];
    var lastPresent: Option<Observation>, previous: Option<Observation>, answered := None, None, 0;
    for i := 0 to |obs|
      invariant events == EventsUpTo(obs, i) && answered == Sightings(obs, i)
      invariant previous == if i == 0 then None else Some(obs[i - 1])
      invariant lastPresent == match LastSighting(obs, i) { case None => None case Some(j) => Some(obs[j]) }
    {
      var observation := obs[i];
      if !observation.present {
        if previous.None? || previous.value.present {
          events := events + [Event(observation.runId, observation.observedAt, WentQuiet)];
        }
        previous := Some(observation);
        continue;
      }
      answered := answered + 1;
      if lastPresent.None? {
        events := events + [Event(observation.runId, observation.observedAt, FirstRecorded)];
      } else {
        var diff := Diff(lastPresent.value, observation);
        var returned := previous.Some? && !previous.value.present;
        if returned || Changed(diff) {
          events := events + [Event(observation.runId, observation.observedAt, if returned then AnsweredAgain(diff) else ChangedSince(diff))];
        }
      }
      lastPresent := Some(observation);
      previous := Some(observation);
    }
    ghost var at := EventsTell(obs, |obs|);
    SightingsCount(obs, |obs|);
    var last := if obs == [] then None else Some(obs[|obs| - 1]);
    coverage := ScanCoverage(|obs|, answered, if last.Some? then Some(last.value.runId) else None, if last.Some? then Some(last.value.present) else None);
  }

  // ---------------------------------------------------------------- the timeline replays

  function DiffOf(kind: EventKind): Option<ObservationDiff> {
    match kind
    case AnsweredAgain(d) => Some(d)
    case ChangedSince(d) => Some(d)
    case _ => None
  }

  /** The fields after applying every reported difference, in order. */
  function ReplayFields(start: FieldValues, events: seq<Event>): FieldValues {
    if events == [] then start
    else
      var before := ReplayFields(start, events[..|events| - 1]);
      match DiffOf(events[|events| - 1].kind)
      case Some(d) => ApplyFields(before, d.fields)
      case None => before
  }

  function ReplayPorts(start: set<(string, nat)>, events: seq<Event>): set<(string, nat)> {
    if events == [] then start
    else
      var before := ReplayPorts(start, events[..|events| - 1]);
      match DiffOf(events[|events| - 1].kind)
      case Some(d) => ApplyPorts(before, d)
      case None => before
  }

  lemma ReplayOneMore(start: FieldValues, open: set<(string, nat)>, events: seq<Event>, e: Event)
    ensures ReplayFields(start, events + [e]) == match DiffOf(e.kind) {
      case Some(d) => ApplyFields(ReplayFields(start, events), d.fields)
      case None => ReplayFields(start, events)
    }
    ensures ReplayPorts(open, events + [e]) == match DiffOf(e.kind) {
      case Some(d) => ApplyPorts(ReplayPorts(open, events), d)
      case None => ReplayPorts(open, events)
    }
  {
    assert (events + [e])[..|events|] == events;
  }

  lemma {:induction false} NoSightingNoReplay(obs: seq<Observation>, n: nat, start: FieldValues, open: set<(string, nat)>)
    requires n <= |obs| && LastSighting(obs, n).None?
    ensures ReplayFields(start, EventsUpTo(obs, n)) == start && ReplayPorts(open, EventsUpTo(obs, n)) == open
  {
    if n > 0 {
      NoSightingNoReplay(obs, n - 1, start, open);
      ReplayOneMore(start, open, EventsUpTo(obs, n - 1), Event(obs[n - 1].runId, obs[n - 1].observedAt, WentQuiet));
      assert EventsUpTo(obs, n - 1) + [] == EventsUpTo(obs, n - 1);
    }
  }

  lemma UnchangedKeepsFields(before: Observation, after: Observation)
    requires !Changed(Diff(before, after))
    ensures Fields(before) == Fields(after)
    ensures before.ports.Some? && after.ports.Some? ==> OpenKeys(before.ports.value) == OpenKeys(after.ports.value)
  {
    DiffCarriesFields(before, after);
    if before.ports.Some? && after.ports.Some? {
      DiffCarriesPorts(before, after);
    }
  }

  /** One more observation after a sighting keeps the replay in step. */
  lemma ReplayStep(obs: seq<Observation>, i: nat, start: FieldValues, open: set<(string, nat)>)
    requires i < |obs| && LastSighting(obs, i).Some?
    ensures LastSighting(obs, i + 1).Some?
    ensures ReplayFields(start, EventsUpTo(obs, i)) == Fields(obs[LastSighting(obs, i).value]) ==>
      ReplayFields(start, EventsUpTo(obs, i + 1)) == Fields(obs[LastSighting(obs, i + 1).value])
    ensures var was, now := obs[LastSighting(obs, i).value].ports, obs[LastSighting(obs, i + 1).value].ports;
      was.Some? && now.Some? && ReplayPorts(open, EventsUpTo(obs, i)) == OpenKeys(was.value) ==>
      ReplayPorts(open, EventsUpTo(obs, i + 1)) == OpenKeys(now.value)
  {
    var before, after := obs[LastSighting(obs, i).value], obs[i];
    var events := EventsUpTo(obs, i);
    assert events + [] == events;
    match EventAt(obs, i) {
      case Some(kind) => ReplayOneMore(start, open, events, Event(after.runId, after.observedAt, kind));
      case None =>
    }
    if after.present {
      DiffCarriesFields(before, after);
      if before.ports.Some? && after.ports.Some? {
        DiffCarriesPorts(before, after);
      }
      if EventAt(obs, i).None? {
        UnchangedKeepsFields(before, after);
      }
    }
  }

  lemma {:induction false} FieldsReplay(obs: seq<Observation>, n: nat, first: nat)
    requires first < n <= |obs| && IsFirstSighting(obs, first)
    ensures LastSighting(obs, n).Some?
    ensures ReplayFields(Fields(obs[first]), EventsUpTo(obs, n)) == Fields(obs[LastSighting(obs, n).value])
  {
    var i, start := n - 1, Fields(obs[first]);
    if i == first {
      NoSightingNoReplay(obs, i, start, {});
      ReplayOneMore(start, {}, EventsUpTo(obs, i), Event(obs[i].runId, obs[i].observedAt, FirstRecorded));
    } else {
      FieldsReplay(obs, i, first);
      ReplayStep(obs, i, start, {});
    }
  }

  lemma {:induction false} PortsReplay(obs: seq<Observation>, n: nat, first: nat)
    requires first < n <= |obs| && IsFirstSighting(obs, first)
    requires forall i :: 0 <= i < n && obs[i].present ==> obs[i].ports.Some?
    ensures LastSighting(obs, n).Some?
    ensures ReplayPorts(OpenKeys(obs[first].ports.value), EventsUpTo(obs, n)) == OpenKeys(obs[LastSighting(obs, n).value].ports.value)
  {
    var i, start, open := n - 1, Fields(obs[first]), OpenKeys(obs[first].ports.value);
    if i == first {
      NoSightingNoReplay(obs, i, start, open);
      ReplayOneMore(start, open, EventsUpTo(obs, i), Event(obs[i].runId, obs[i].observedAt, FirstRecorded));
    } else {
      PortsReplay(obs, i, first);
      ReplayStep(obs, i, start, open);
    }
  }

  /**
   * Applying the reported differences in order to the first sighting gives the last sighting:
   * its fields always, its open ports when every sighting checked ports. Nothing that changed
   * goes unreported, whatever happened while the device was silent.
   */
  lemma TimelineReplays(obs: seq<Observation>, n: nat, first: nat)
    requires first < n <= |obs| && IsFirstSighting(obs, first)
    ensures LastSighting(obs, n).Some?
    ensures ReplayFields(Fields(obs[first]), EventsUpTo(obs, n)) == Fields(obs[LastSighting(obs, n).value])
    ensures (forall i :: 0 <= i < n && obs[i].present ==> obs[i].ports.Some?) ==>
      ReplayPorts(OpenKeys(obs[first].ports.value), EventsUpTo(obs, n)) == OpenKeys(obs[LastSighting(obs, n).value].ports.value)
  {
    FieldsReplay(obs, n, first);
    if forall i :: 0 <= i < n && obs[i].present ==> obs[i].ports.Some? {
      PortsReplay(obs, n, first);
    }
  }
}
