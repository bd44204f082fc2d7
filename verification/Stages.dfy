/**
 `deriveStages` of `frontend/lib/stages.ts`: one pass over the event stream that attributes each event
 to a stage by an "open stage" cursor, and drives a small status automaton per stage.
 */
module Stages {
  import opened Wrappers
  import opened Sums
  import Text
  import Urls

  datatype Event = Event(
    ts: string, eventType: string, level: Option<string>, step: Option<string>, duration: Option<int>)

  datatype Status = Running | Ok | Warn | Error | Pending | Skipped

  datatype Stage = Stage(
    key: string, name: string, status: Status, duration: Option<int>, ts: string, details: seq<Event>)

  const STAGE_ORDER: seq<(string, string)> := [
    ("parse", "Parse & normalize"),
    ("auto_close_pre", "Auto-close check"),
    ("dedup", "RAG retrieve (similar cases)"),
    ("enrich", "Enrichment"),
    ("decision", "Decision gate"),
    ("l1", "L1 triage"),
    ("l2", "L2 analysis"),
    ("hunt", "Threat hunt"),
    ("forensics", "Forensics"),
    ("synthesis", "Manager & gate"),
    ("complete", "Pipeline complete")]

  /** First index of a canonical key from `i` on; the length when the key is not canonical. */
  function IndexFrom(key: string, i: nat): (n: nat)
    requires i <= |STAGE_ORDER|
    ensures i <= n <= |STAGE_ORDER|
    ensures n < |STAGE_ORDER| ==> STAGE_ORDER[n].0 == key
    ensures forall k | i <= k < n :: STAGE_ORDER[k].0 != key
    decreases |STAGE_ORDER| - i
  {
    if i == |STAGE_ORDER| || STAGE_ORDER[i].0 == key then i else IndexFrom(key, i + 1)
  }

  predicate Canonical(key: string) { IndexFrom(key, 0) < |STAGE_ORDER| }

  function LabelFor(key: string): string {
    if Canonical(key) then STAGE_ORDER[IndexFrom(key, 0)].1 else key
  }

  /** The sort rank: canonical position, 99 for an unknown stage. */
  function Rank(key: string): nat {
    if Canonical(key) then IndexFrom(key, 0) else 99
  }

  // ---------------------------------------------------------------------------------------
  // Events
  // ---------------------------------------------------------------------------------------

  datatype Kind = IsRunning | IsDone | IsFailed | IsSkipped | IsDetail(warns: bool)

  function LevelOf(e: Event): string {
    if e.level.None? || e.level.value == "" then "info" else e.level.value
  }

  function KindOf(e: Event): Kind {
    var level := LevelOf(e);
    if level == "running" then IsRunning
    else if level == "ok" && (Text.EndsWith(e.eventType, "_done") || e.step == Some("complete")) then IsDone
    else if level == "error" && (Text.EndsWith(e.eventType, "_failed") || e.eventType == "pipeline_failed") then
      IsFailed
    else if Text.EndsWith(e.eventType, "_skipped") then IsSkipped
    else IsDetail(level == "warn")
  }

  /** `e.step || openKey || "misc"` */
  function KeyOf(e: Event, open: Option<string>): string {
    if e.step.Some? && e.step.value != "" then e.step.value
    else if open.Some? && open.value != "" then open.value
    else "misc"
  }

  function OpenAfter(e: Event, open: Option<string>): Option<string> {
    var key := KeyOf(e, open);
    match KindOf(e)
    case IsRunning => Some(key)
    case IsDone => if open == Some(key) then None else open
    case IsFailed => if open == Some(key) then None else open
    case _ => open
  }

  /** The open stage after a stream of events. */
  function Open(events: seq<Event>): Option<string> {
    if events == [] then None else OpenAfter(events[|events| - 1], Open(events[..|events| - 1]))
  }

  /** The one stage the last event of a stream belongs to. */
  function LastKey(events: seq<Event>): string
    requires events != []
  {
    KeyOf(events[|events| - 1], Open(events[..|events| - 1]))
  }

  /** The events of one stage, in order. */
  function Own(events: seq<Event>, key: string): seq<Event> {
    if events == [] then []
    else
      var n := |events| - 1;
      Own(events[..n], key) + if LastKey(events) == key then [events[n]] else []
  }

  /** The stages that occur, by first event. */
  function Present(events: seq<Event>): seq<string> {
    if events == [] then []
    else
      var before := Present(events[..|events| - 1]);
      if LastKey(events) in before then before else before + [LastKey(events)]
  }

  // ---------------------------------------------------------------------------------------
  // Kinds and attribution, told from the events alone
  // ---------------------------------------------------------------------------------------

  /** Which events open, close, fail and skip; a missing or empty level is "info". */
  lemma KindIff(e: Event)
    ensures KindOf(e).IsRunning? <==> e.level == Some("running")
    ensures KindOf(e).IsDone? <==>
            && e.level == Some("ok")
            && (e.step == Some("complete") || exists front: string :: e.eventType == front + "_done")
    ensures KindOf(e).IsFailed? <==>
            e.level == Some("error") && exists front: string :: e.eventType == front + "_failed"
    ensures KindOf(e).IsSkipped? <==>
            && !KindOf(e).IsRunning? && !KindOf(e).IsDone? && !KindOf(e).IsFailed?
            && exists front: string :: e.eventType == front + "_skipped"
    ensures KindOf(e).IsDetail? ==> (KindOf(e).warns <==> e.level == Some("warn"))
  {
    hide Text.EndsWith, LevelOf;
    Urls.EndsWithIff(e.eventType, "_done");
    Urls.EndsWithIff(e.eventType, "_failed");
    Urls.EndsWithIff(e.eventType, "_skipped");
    LevelsDiffer();
    LevelIs(e);
    assert "pipeline_failed" == "pipeline" + "_failed";
  }

  lemma LevelIs(e: Event)
    ensures LevelOf(e) == "running" <==> e.level == Some("running")
    ensures LevelOf(e) == "ok" <==> e.level == Some("ok")
    ensures LevelOf(e) == "error" <==> e.level == Some("error")
    ensures LevelOf(e) == "warn" <==> e.level == Some("warn")
  {
    LevelsDiffer();
  }

  lemma LevelsDiffer()
    ensures "running" != "ok" && "running" != "error" && "ok" != "error" && "info" != "running" && "info" != "ok"
    ensures "info" != "error" && "info" != "warn" && "warn" != "running" && "warn" != "ok" && "warn" != "error"
  {
    assert |"running"| == 7 && |"ok"| == 2 && |"error"| == 5 && |"info"| == 4 && |"warn"| == 4;
    assert "info"[0] == 'i' && "warn"[0] == 'w';
  }

  /** The stage event `j` belongs to. */
  function StageAt(events: seq<Event>, j: nat): string
    requires j < |events|
  {
    LastKey(events[..j + 1])
  }

  /** No step of its own. */
  predicate Stepless(e: Event) { e.step == None || e.step == Some("") }

  predicate Runs(e: Event) { e.level == Some("running") }

  /** Ends the stage `key` if that stage is open: a closing event of that step, or of none. */
  predicate Closes(e: Event, key: string) {
    && (KindOf(e).IsDone? || KindOf(e).IsFailed?)
    && (Stepless(e) || e.step == Some(key))
  }

  lemma AtPosition(events: seq<Event>, j: nat)
    requires j < |events|
    ensures StageAt(events, j) == KeyOf(events[j], Open(events[..j]))
    ensures Open(events[..j + 1]) == OpenAfter(events[j], Open(events[..j]))
  {
    assert events[..j + 1][..j] == events[..j];
    assert events[..j + 1][j] == events[j];
  }

  lemma KeyIsNotEmpty(e: Event, open: Option<string>)
    ensures KeyOf(e, open) != ""
  {
    assert |"misc"| == 4;
  }

  lemma RunningOpens(e: Event, open: Option<string>)
    ensures Runs(e) ==> OpenAfter(e, open) == Some(KeyOf(e, open))
  {
    hide KeyOf;
  }

  /** What one event does to an open stage that is not replaced. */
  lemma OpenStep(e: Event, open: Option<string>)
    requires !Runs(e)
    ensures open.Some? && open.value != "" ==> OpenAfter(e, open) == if Closes(e, open.value) then None else open
    ensures open.None? ==> OpenAfter(e, open) == None
  {
    KindIff(e);
    hide LevelOf;
  }

  /** A stage opened at `i` is open until something runs or closes it. */
  lemma {:induction false} StaysOpen(events: seq<Event>, i: nat, n: nat)
    requires i < n <= |events| && Runs(events[i])
    requires forall m | i < m < n :: !Runs(events[m]) && !Closes(events[m], StageAt(events, i))
    ensures Open(events[..n]) == Some(StageAt(events, i)) && StageAt(events, i) != ""
    decreases n
  {
    hide Runs, Closes, KeyOf, Open, OpenAfter, LastKey, KindOf;
    AtPosition(events, i);
    KeyIsNotEmpty(events[i], Open(events[..i]));
    if n == i + 1 {
      RunningOpens(events[i], Open(events[..i]));
    } else {
      StaysOpen(events, i, n - 1);
      AtPosition(events, n - 1);
      OpenStep(events[n - 1], Open(events[..n - 1]));
    }
  }

  /** Once nothing is open, nothing is open until something runs. */
  lemma {:induction false} StaysClosed(events: seq<Event>, c: nat, n: nat)
    requires c <= n <= |events| && Open(events[..c]) == None
    requires forall m | c <= m < n :: !Runs(events[m])
    ensures Open(events[..n]) == None
    decreases n
  {
    hide Runs, Closes, KeyOf, Open, OpenAfter, LastKey, KindOf;
    if n > c {
      StaysClosed(events, c, n - 1);
      AtPosition(events, n - 1);
      OpenStep(events[n - 1], Open(events[..n - 1]));
    }
  }

  /** An event with a step belongs to that step. */
  lemma StepDecides(events: seq<Event>, j: nat)
    requires j < |events| && !Stepless(events[j])
    ensures StageAt(events, j) == events[j].step.value
  {
    AtPosition(events, j);
  }

  /** An event without a step belongs to the stage that ran last, as long as nothing closed it. */
  lemma OpenStageTakes(events: seq<Event>, i: nat, j: nat)
    requires i < j < |events| && Runs(events[i]) && Stepless(events[j])
    requires forall m | i < m < j :: !Runs(events[m]) && !Closes(events[m], StageAt(events, i))
    ensures StageAt(events, j) == StageAt(events, i)
  {
    StaysOpen(events, i, j);
    AtPosition(events, j);
  }

  /** Without a running event before it, an event without a step belongs to "misc". */
  lemma NothingRanIsMisc(events: seq<Event>, j: nat)
    requires j < |events| && Stepless(events[j])
    requires forall m | 0 <= m < j :: !Runs(events[m])
    ensures StageAt(events, j) == "misc"
  {
    assert events[..0] == [];
    StaysClosed(events, 0, j);
    AtPosition(events, j);
  }

  /** So does one whose latest running stage was closed since, at `c` for the first time. */
  lemma ClosedIsMisc(events: seq<Event>, i: nat, c: nat, j: nat)
    requires i < c < j < |events| && Runs(events[i]) && Stepless(events[j])
    requires forall m | i < m < j :: !Runs(events[m])
    requires Closes(events[c], StageAt(events, i))
    ensures StageAt(events, j) == "misc"
  {
    hide Runs, Closes, KeyOf, Open, OpenAfter, LastKey, KindOf, Stepless;
    var first := FirstClosing(events, StageAt(events, i), i, c);
    StaysOpen(events, i, first);
    AtPosition(events, first);
    OpenStep(events[first], Open(events[..first]));
    StaysClosed(events, first + 1, j);
    AtPosition(events, j);
    SteplessKey(events[j]);
  }

  lemma SteplessKey(e: Event)
    requires Stepless(e)
    ensures KeyOf(e, None) == "misc"
  {}

  lemma {:induction false} FirstClosing(events: seq<Event>, key: string, i: nat, c: nat) returns (first: nat)
    requires i < c < |events| && Closes(events[c], key)
    ensures i < first <= c && Closes(events[first], key)
    ensures forall m | i < m < first :: !Closes(events[m], key)
    decreases c
  {
    hide Closes;
    if m :| i < m < c && Closes(events[m], key) {
      first := FirstClosing(events, key, i, m);
    } else {
      first := c;
    }
  }

  /** The events of a stage are exactly those attributed to it, in the order of the stream. */
  lemma {:induction false} OwnIsByStage(events: seq<Event>, key: string) returns (at: seq<nat>)
    ensures |at| == |Own(events, key)| && forall i, j | 0 <= i < j < |at| :: at[i] < at[j]
    ensures forall i | 0 <= i < |at| ::
              at[i] < |events| && StageAt(events, at[i]) == key && Own(events, key)[i] == events[at[i]]
    ensures forall j | 0 <= j < |events| && StageAt(events, j) == key :: j in at
    decreases |events|
  {
    hide LastKey, Own, StageAt;
    if events == [] {
      at := [];
      NoEvents(key);
    } else {
      var n := |events| - 1;
      var early := OwnIsByStage(events[..n], key);
      LastStage(events, key);
      forall j | 0 <= j < n ensures StageAt(events[..n], j) == StageAt(events, j) {
        StageInPrefix(events, n, j);
      }
      at := early + if StageAt(events, n) == key then [n] else [];
    }
  }

  lemma NoEvents(key: string)
    ensures Own([], key) == []
  {}

  lemma LastStage(events: seq<Event>, key: string)
    requires events != []
    ensures var n := |events| - 1;
            Own(events, key) == Own(events[..n], key) + if StageAt(events, n) == key then [events[n]] else []
  {
    assert events[..|events|] == events;
    hide LastKey;
  }

  lemma StageInPrefix(events: seq<Event>, n: nat, j: nat)
    requires j < n <= |events|
    ensures StageAt(events[..n], j) == StageAt(events, j)
  {
    assert events[..n][..j + 1] == events[..j + 1];
  }

  // ---------------------------------------------------------------------------------------
  // The status automaton, on the events of one stage only
  // ---------------------------------------------------------------------------------------

  function NextStatus(s: Status, kind: Kind): Status {
    match kind
    case IsRunning => if s.Pending? || s.Skipped? then Running else s
    case IsDone => if s.Warn? then Warn else Ok
    case IsFailed => Error
    case IsSkipped => if s.Pending? then Skipped else s
    case IsDetail(warns) => if warns && !s.Error? then Warn else s
  }

  function StatusOf(own: seq<Event>): Status {
    if own == [] then Pending else NextStatus(StatusOf(own[..|own| - 1]), KindOf(own[|own| - 1]))
  }

  /** The duration of the last closing event that carries one. */
  function DurationOf(own: seq<Event>): Option<int> {
    if own == [] then None
    else
      var e := own[|own| - 1];
      if (KindOf(e).IsDone? || KindOf(e).IsFailed?) && e.duration.Some? then e.duration
      else DurationOf(own[..|own| - 1])
  }

  function DetailsOf(own: seq<Event>): seq<Event> {
    if own == [] then []
    else
      var e := own[|own| - 1];
      DetailsOf(own[..|own| - 1]) + if KindOf(e).IsDetail? then [e] else []
  }

  /** The whole stage as a function of its own events. */
  function StageOf(key: string, own: seq<Event>): Stage {
    Stage(key, LabelFor(key), StatusOf(own), DurationOf(own), if own == [] then "" else own[0].ts, DetailsOf(own))
  }

  /** Once a stage warns, only a failure changes its status. */
  lemma {:induction false} WarnOnlyLeavesToError(own: seq<Event>, n: nat)
    requires n <= |own| && StatusOf(own[..n]).Warn?
    ensures (forall k | n <= k < |own| :: !KindOf(own[k]).IsFailed?) ==> StatusOf(own).Warn?
    decreases |own|
  {
    if n < |own| {
      var m := |own| - 1;
      assert own[..m][..n] == own[..n];
      WarnOnlyLeavesToError(own[..m], n);
      assert forall k | n <= k < m :: own[..m][k] == own[k];
    } else {
      assert own[..n] == own;
    }
  }

  // What the automaton computes, by the positions of the events.

  /** A failure, and no completion since. */
  ghost predicate Failing(own: seq<Event>) {
    exists f | 0 <= f < |own| :: KindOf(own[f]).IsFailed? && forall m | f < m < |own| :: !KindOf(own[m]).IsDone?
  }

  /** A warning raised while not failing, and no failure since. */
  ghost predicate Warning(own: seq<Event>) {
    exists w | 0 <= w < |own| ::
      && KindOf(own[w]) == IsDetail(true) && !Failing(own[..w])
      && forall m | w < m < |own| :: !KindOf(own[m]).IsFailed?
  }

  lemma FailingSnoc(own: seq<Event>, e: Event)
    ensures Failing(own + [e]) <==> KindOf(e).IsFailed? || (Failing(own) && !KindOf(e).IsDone?)
  {
    hide KindOf;
    var more := own + [e];
    if KindOf(e).IsFailed? {
      assert KindOf(more[|own|]).IsFailed?;
    }
    if Failing(own) && !KindOf(e).IsDone? {
      var f :| 0 <= f < |own| && KindOf(own[f]).IsFailed? && forall m | f < m < |own| :: !KindOf(own[m]).IsDone?;
      assert KindOf(more[f]).IsFailed?;
    }
    if Failing(more) && !KindOf(e).IsFailed? {
      var f :| 0 <= f < |more| && KindOf(more[f]).IsFailed? && forall m | f < m < |more| :: !KindOf(more[m]).IsDone?;
      assert f < |own| && own[f] == more[f];
      assert !KindOf(more[|own|]).IsDone?;
      forall m | f < m < |own| ensures !KindOf(own[m]).IsDone? { assert own[m] == more[m]; }
    }
  }

  lemma WarningSnoc(own: seq<Event>, e: Event)
    ensures Warning(own + [e]) <==>
            (KindOf(e) == IsDetail(true) && !Failing(own)) || (Warning(own) && !KindOf(e).IsFailed?)
  {
    hide KindOf, Failing;
    var more := own + [e];
    assert more[..|own|] == own;
    if KindOf(e) == IsDetail(true) && !Failing(own) {
      assert KindOf(more[|own|]) == IsDetail(true) && !Failing(more[..|own|]);
    }
    if Warning(own) && !KindOf(e).IsFailed? {
      var w :| 0 <= w < |own| && KindOf(own[w]) == IsDetail(true) && !Failing(own[..w])
               && forall m | w < m < |own| :: !KindOf(own[m]).IsFailed?;
      assert more[..w] == own[..w] && KindOf(more[w]) == IsDetail(true);
    }
    if Warning(more) {
      var w :| 0 <= w < |more| && KindOf(more[w]) == IsDetail(true) && !Failing(more[..w])
               && forall m | w < m < |more| :: !KindOf(more[m]).IsFailed?;
      if w < |own| {
        assert more[..w] == own[..w] && KindOf(own[w]) == IsDetail(true);
        assert !KindOf(more[|own|]).IsFailed?;
        forall m | w < m < |own| ensures !KindOf(own[m]).IsFailed? { assert own[m] == more[m]; }
      }
    }
  }

  /** Some event of the stage completes, runs or skips it. */
  predicate Completes(own: seq<Event>) { exists k | 0 <= k < |own| :: KindOf(own[k]).IsDone? }
  predicate Started(own: seq<Event>) { exists k | 0 <= k < |own| :: KindOf(own[k]).IsRunning? }
  predicate SkippedOver(own: seq<Event>) { exists k | 0 <= k < |own| :: KindOf(own[k]).IsSkipped? }

  lemma OccursSnoc(own: seq<Event>, e: Event)
    ensures Completes(own + [e]) <==> Completes(own) || KindOf(e).IsDone?
    ensures Started(own + [e]) <==> Started(own) || KindOf(e).IsRunning?
    ensures SkippedOver(own + [e]) <==> SkippedOver(own) || KindOf(e).IsSkipped?
  {
    hide KindOf;
    var more := own + [e];
    assert more[|own|] == e && forall k | 0 <= k < |own| :: more[k] == own[k];
  }

  /**
   The status of a stage, by its events: failing, else warning, else completed, else running, else
   skipped, else pending.
   */
  lemma {:induction false} StatusIs(own: seq<Event>)
    ensures StatusOf(own) ==
            if Failing(own) then Error else if Warning(own) then Warn else if Completes(own) then Ok
            else if Started(own) then Running else if SkippedOver(own) then Skipped else Pending
    ensures !(Failing(own) && Warning(own))
    decreases |own|
  {
    if own != [] {
      var front, e := own[..|own| - 1], own[|own| - 1];
      StatusIs(front);
      assert own == front + [e];
      FailingSnoc(front, e);
      WarningSnoc(front, e);
      OccursSnoc(front, e);
      hide KindOf, Failing, Warning, Completes, Started, SkippedOver;
    }
  }

  /** The duration of a stage is that of its last closing event that has one. */
  lemma {:induction false} DurationIs(own: seq<Event>)
    ensures DurationOf(own).Some? <==>
            exists k | 0 <= k < |own| :: (KindOf(own[k]).IsDone? || KindOf(own[k]).IsFailed?) && own[k].duration.Some?
    ensures DurationOf(own).Some? ==>
            exists k | 0 <= k < |own| ::
              && (KindOf(own[k]).IsDone? || KindOf(own[k]).IsFailed?) && own[k].duration == DurationOf(own)
              && forall m | k < m < |own| && (KindOf(own[m]).IsDone? || KindOf(own[m]).IsFailed?) ::
                   own[m].duration.None?
    decreases |own|
  {
    hide KindOf;
    if own != [] {
      var n := |own| - 1;
      DurationIs(own[..n]);
      assert forall k | 0 <= k < n :: own[..n][k] == own[k];
    }
  }

  /** The details of a stage are its events that neither run, close, fail nor skip it. */
  lemma {:induction false} DetailsAre(own: seq<Event>)
    ensures forall e :: multiset(DetailsOf(own))[e] == if KindOf(e).IsDetail? then multiset(own)[e] else 0
    decreases |own|
  {
    hide KindOf;
    if own != [] {
      var n := |own| - 1;
      DetailsAre(own[..n]);
      assert own == own[..n] + [own[n]];
    }
  }

  // ---------------------------------------------------------------------------------------
  // Attribution
  // ---------------------------------------------------------------------------------------

  lemma {:induction false} PresentIsExact(events: seq<Event>, key: string)
    ensures Distinct(Present(events))
    ensures key in Present(events) <==> Own(events, key) != []
    decreases |events|
  {
    hide KeyOf, Open, OpenAfter;
    if events != [] {
      var n := |events| - 1;
      PresentIsExact(events[..n], key);
    }
  }

  /** Each event belongs to exactly one stage: together the stages hold the stream, event for event. */
  lemma {:induction false} EventsAreShared(events: seq<Event>)
    ensures Union(Present(events), key => multiset(Own(events, key))) == multiset(events)
    decreases |events|
  {
    hide Own, KindOf, KeyOf, Open, Present, OpenAfter;
    if events == [] {
      NothingShared();
    } else {
      var n := |events| - 1;
      var early, e := events[..n], events[n];
      EventsAreShared(early);
      assert early + [e] == events;
      var key := KeyOf(e, Open(early));
      StageGrows(early, e);
      var f, g := (k: string) => multiset(Own(early, k)), (k: string) => multiset(Own(events, k));
      PresentGrows(early, key, f);
      UnionGrowsAt(Present(events), f, g, key, multiset{e});
    }
  }

  /** What one more event does to the stages: its own stage gains it, and appears if it was new. */
  lemma StageGrows(early: seq<Event>, e: Event)
    ensures var events, key := early + [e], KeyOf(e, Open(early));
            && (forall k :: Own(events, k) == if k == key then Own(early, k) + [e] else Own(early, k))
            && Present(events) == (if key in Present(early) then Present(early) else Present(early) + [key])
            && (key !in Present(early) ==> Own(early, key) == [])
            && key in Present(events) && Distinct(Present(events))
  {
    hide Own, KindOf, KeyOf, Open, Present, OpenAfter;
    var key := KeyOf(e, Open(early));
    OwnAfter(early, e);
    LoopState(early, e);
    PresentIsExact(early, key);
    PresentIsExact(early + [e], key);
  }

  /** A stage without events adds nothing to a union. */
  lemma PresentGrows(early: seq<Event>, key: string, f: string -> multiset<Event>)
    requires key !in Present(early) ==> f(key) == multiset{}
    ensures var keys := Present(early);
            Union(if key in keys then keys else keys + [key], f) == Union(keys, f)
  {
    UnionSnoc(Present(early), key, f);
    hide Present, Union;
  }

  /** No detail is lost or shown twice: together the stages hold the details of the stream. */
  lemma {:induction false} DetailsAreShared(events: seq<Event>)
    ensures Union(Present(events), key => multiset(DetailsOf(Own(events, key)))) == multiset(DetailsOf(events))
    decreases |events|
  {
    hide Own, KindOf, KeyOf, DetailsOf, Open, Present, StatusOf, DurationOf, NextStatus, OpenAfter;
    NothingShared();
    if events != [] {
      var n := |events| - 1;
      var early, e := events[..n], events[n];
      DetailsAreShared(early);
      assert early + [e] == events;
      var key := KeyOf(e, Open(early));
      StageGrows(early, e);
      OwnSnoc(Own(early, key), e);
      OwnSnoc(early, e);
      var f, g := (k: string) => multiset(DetailsOf(Own(early, k))), (k: string) => multiset(DetailsOf(Own(events, k)));
      PresentGrows(early, key, f);
      UnionGrowsAt(Present(events), f, g, key, if KindOf(e).IsDetail? then multiset{e} else multiset{});
    }
  }

  lemma NothingShared()
    ensures Present([]) == [] && DetailsOf([]) == []
  {}

  /** The details of a stage keep the order of the stream. */
  ghost predicate Subsequence(a: seq<Event>, b: seq<Event>) {
    a == [] || (b != [] && Subsequence(if a[|a| - 1] == b[|b| - 1] then a[..|a| - 1] else a, b[..|b| - 1]))
  }

  lemma {:induction false} DetailsKeepOrder(events: seq<Event>, key: string)
    ensures Subsequence(DetailsOf(Own(events, key)), events)
    decreases |events|
  {
    hide Own, KindOf, KeyOf, DetailsOf, Open, Present, Subsequence, StatusOf, DurationOf, NextStatus;
    if events == [] {
      NoDetails(key);
    } else {
      var n := |events| - 1;
      DetailsKeepOrder(events[..n], key);
      var before, after := Own(events[..n], key), Own(events, key);
      OwnAfter(events[..n], events[n]);
      assert events[..n] + [events[n]] == events;
      OwnSnoc(before, events[n]);
      SubsequenceSnoc(DetailsOf(before), events[..n], events[n]);
      assert DetailsOf(before) + [] == DetailsOf(before);
    }
  }

  lemma NoDetails(key: string)
    ensures Subsequence(DetailsOf(Own([], key)), [])
  {}

  lemma SubsequenceSnoc(a: seq<Event>, b: seq<Event>, e: Event)
    requires Subsequence(a, b)
    ensures Subsequence(a, b + [e]) && Subsequence(a + [e], b + [e])
  {
    assert (b + [e])[..|b|] == b && (a + [e])[..|a|] == a;
    if a != [] && a[|a| - 1] == e {
      DropLast(a, b);
    }
  }

  lemma {:induction false} DropLast(a: seq<Event>, b: seq<Event>)
    requires a != [] && Subsequence(a, b)
    ensures Subsequence(a[..|a| - 1], b)
    decreases |b|
  {
    var a', b' := a[..|a| - 1], b[..|b| - 1];
    if a[|a| - 1] == b[|b| - 1] {
      if a' != [] && a'[|a'| - 1] == b[|b| - 1] {
        DropLast(a', b');
      }
    } else {
      DropLast(a, b');
      if a' != [] && a'[|a'| - 1] == b[|b| - 1] {
        DropLast(a', b');
      }
    }
  }

  // ---------------------------------------------------------------------------------------
  // The fold over a mutable map
  // ---------------------------------------------------------------------------------------

  /** The map of the loop holds exactly the stages of the prefix read so far. */
  ghost predicate Tracks(events: seq<Event>, stages: map<string, Stage>) {
    && (forall key :: key in stages <==> key in Present(events))
    && (forall key | key in stages :: stages[key] == StageOf(key, Own(events, key)))
  }

  /** What the loop body does to the entry of the event's stage. */
  function Updated(st: Stage, e: Event): Stage {
    match KindOf(e)
    case IsRunning => if st.status.Pending? || st.status.Skipped? then st.(status := Running) else st
    case IsDone =>
      st.(status := if st.status.Warn? then Warn else Ok,
          duration := if e.duration.Some? then e.duration else st.duration)
    case IsFailed => st.(status := Error, duration := if e.duration.Some? then e.duration else st.duration)
    case IsSkipped => if st.status.Pending? then st.(status := Skipped) else st
    case IsDetail(warns) =>
      st.(status := if warns && !st.status.Error? then Warn else st.status, details := st.details + [e])
  }

  lemma OwnSnoc(own: seq<Event>, e: Event)
    ensures StatusOf(own + [e]) == NextStatus(StatusOf(own), KindOf(e))
    ensures DurationOf(own + [e]) ==
            if (KindOf(e).IsDone? || KindOf(e).IsFailed?) && e.duration.Some? then e.duration else DurationOf(own)
    ensures DetailsOf(own + [e]) == DetailsOf(own) + if KindOf(e).IsDetail? then [e] else []
  {
    assert (own + [e])[..|own|] == own;
  }

  /** One loop step on a stage; `ts` is that of the stage's first event. */
  lemma UpdatedIsStageOf(key: string, own: seq<Event>, e: Event, ts: string)
    requires own != [] ==> ts == own[0].ts
    requires own == [] ==> ts == e.ts
    ensures Updated(StageOf(key, own).(ts := ts), e) == StageOf(key, own + [e])
  {
    OwnSnoc(own, e);
    hide KindOf, LabelFor, StatusOf, DurationOf, DetailsOf;
    assert (own + [e])[0].ts == ts;
  }

  /** The entry the loop works on: the stored stage, or a blank one stamped with the event's time. */
  function Entry(stages: map<string, Stage>, key: string, e: Event): Stage {
    if key in stages then stages[key] else Stage(key, LabelFor(key), Pending, None, e.ts, [])
  }

  lemma EntryUpdates(key: string, own: seq<Event>, stages: map<string, Stage>, e: Event)
    requires key in stages <==> own != []
    requires key in stages ==> stages[key] == StageOf(key, own)
    ensures Updated(Entry(stages, key, e), e) == StageOf(key, own + [e])
  {
    var ts := if own == [] then e.ts else own[0].ts;
    UpdatedIsStageOf(key, own, e, ts);
    NoEventsYet(key);
    hide Updated, LabelFor, StatusOf, DurationOf, DetailsOf;
  }

  lemma TracksStep(events: seq<Event>, stages: map<string, Stage>, e: Event)
    requires Tracks(events, stages)
    ensures var key := KeyOf(e, Open(events));
            Tracks(events + [e], stages[key := Updated(Entry(stages, key, e), e)])
  {
    hide StageOf, Updated, Entry, Own, Present, Open, KeyOf;
    var key := KeyOf(e, Open(events));
    OwnAfter(events, e);
    PresentIsExact(events, key);
    EntryUpdates(key, Own(events, key), stages, e);
  }

  lemma NoEventsYet(key: string)
    ensures forall ts :: StageOf(key, []).(ts := ts) == Stage(key, LabelFor(key), Pending, None, ts, [])
  {}

  lemma OwnAfter(events: seq<Event>, e: Event)
    ensures var more, key := events + [e], KeyOf(e, Open(events));
            && (forall k :: Own(more, k) == if k == key then Own(events, k) + [e] else Own(events, k))
            && (forall k :: k in Present(more) <==> k == key || k in Present(events))
  {
    var more := events + [e];
    assert more[..|events|] == events;
    forall k ensures Own(more, k) == if k == KeyOf(e, Open(events)) then Own(events, k) + [e] else Own(events, k) {
      assert Own(events, k) + [] == Own(events, k);
    }
  }

  lemma NothingYet(stages: map<string, Stage>)
    requires stages == map[]
    ensures Tracks([], stages) && Present([]) == [] && Open([]) == None
  {}

  lemma TracksKeys(events: seq<Event>, stages: map<string, Stage>, key: string)
    requires Tracks(events, stages)
    ensures key in stages <==> key in Present(events)
  {}

  lemma LoopState(events: seq<Event>, e: Event)
    ensures Open(events + [e]) == OpenAfter(e, Open(events))
    ensures var key := KeyOf(e, Open(events));
            Present(events + [e]) == if key in Present(events) then Present(events) else Present(events) + [key]
  {
    assert (events + [e])[..|events|] == events;
  }

  /** What one loop step does to the map, the order of the stages and the open stage. */
  lemma FoldStep(events: seq<Event>, stages: map<string, Stage>, e: Event)
    requires Tracks(events, stages)
    ensures var key := KeyOf(e, Open(events));
            && Tracks(events + [e], stages[key := Updated(Entry(stages, key, e), e)])
            && Open(events + [e]) == OpenAfter(e, Open(events))
            && Present(events + [e]) == if key in stages then Present(events) else Present(events) + [key]
  {
    hide Tracks, Updated, Entry, Present, Open, KeyOf, OpenAfter;
    TracksStep(events, stages, e);
    LoopState(events, e);
    TracksKeys(events, stages, KeyOf(e, Open(events)));
  }

  method Fold(events: seq<Event>) returns (stages: map<string, Stage>, order: seq<string>)
    ensures Tracks(events, stages) && order == Present(events)
  {
    hide Tracks, StageOf, Updated, Entry, Own, Present, Open, KeyOf, OpenAfter, LastKey, KindOf, LabelFor, STAGE_ORDER;
    stages, order := map[], [];
    var open: Option<string> := None;
    assert events[..0] == [];
    NothingYet(stages);
    for n := 0 to |events|
      invariant Tracks(events[..n], stages) && order == Present(events[..n]) && open == Open(events[..n])
    {
      var e := events[n];
      ghost var before := events[..n];
      var key := KeyOf(e, open);
      FoldStep(before, stages, e);
      assert events[..n + 1] == before + [e];
      if key !in stages {
        order := order + [key];
      }
      stages := stages[key := Updated(Entry(stages, key, e), e)];
      open := OpenAfter(e, open);
    }
    assert events[..|events|] == events;
  }

  // ---------------------------------------------------------------------------------------
  // The order of the result
  // ---------------------------------------------------------------------------------------

  /** Stable insertion by rank, as one step of a stable sort. */
  function Insert(keys: seq<string>, x: string): seq<string> {
    if keys == [] || Rank(keys[|keys| - 1]) <= Rank(x) then keys + [x]
    else Insert(keys[..|keys| - 1], x) + [keys[|keys| - 1]]
  }

  /** `list.sort(...)` by rank. */
  function SortedByRank(keys: seq<string>): seq<string> {
    if keys == [] then [] else Insert(SortedByRank(keys[..|keys| - 1]), keys[|keys| - 1])
  }

  /** The stages outside the canonical order. */
  function Unknown(keys: seq<string>): seq<string> {
    if keys == [] then []
    else
      var n := |keys| - 1;
      Unknown(keys[..n]) + if Canonical(keys[n]) then [] else [keys[n]]
  }

  predicate RanksAscend(keys: seq<string>) {
    forall i, j | 0 <= i < j < |keys| :: Rank(keys[i]) <= Rank(keys[j])
  }

  lemma UnknownSnoc(keys: seq<string>, x: string)
    ensures Unknown(keys + [x]) == Unknown(keys) + if Canonical(x) then [] else [x]
  {
    assert (keys + [x])[..|keys|] == keys;
  }

  lemma RankBelow99(x: string)
    ensures Rank(x) <= 99 && (Rank(x) < 99 ==> Canonical(x))
  {}

  lemma {:induction false} InsertAdds(keys: seq<string>, x: string)
    ensures multiset(Insert(keys, x)) == multiset(keys) + multiset{x}
    decreases |keys|
  {
    hide Rank;
    if keys != [] && Rank(keys[|keys| - 1]) > Rank(x) {
      InsertAdds(keys[..|keys| - 1], x);
      assert keys == keys[..|keys| - 1] + [keys[|keys| - 1]];
    }
  }

  lemma {:induction false} InsertKeepsUnknown(keys: seq<string>, x: string)
    ensures Unknown(Insert(keys, x)) == Unknown(keys) + if Canonical(x) then [] else [x]
    decreases |keys|
  {
    hide Rank, Unknown, Canonical;
    if keys == [] || Rank(keys[|keys| - 1]) <= Rank(x) {
      UnknownSnoc(keys, x);
    } else {
      var front, last := keys[..|keys| - 1], keys[|keys| - 1];
      InsertKeepsUnknown(front, x);
      UnknownSnoc(Insert(front, x), last);
      UnknownSnoc(front, last);
      assert keys == front + [last];
      RankBelow99(x);
      RankBelow99(last);
    }
  }

  lemma {:induction false} InsertKeepsOrder(keys: seq<string>, x: string)
    requires RanksAscend(keys)
    ensures RanksAscend(Insert(keys, x))
    decreases |keys|
  {
    hide Rank;
    if keys != [] && Rank(keys[|keys| - 1]) > Rank(x) {
      var front, last := keys[..|keys| - 1], keys[|keys| - 1];
      InsertKeepsOrder(front, x);
      InsertAdds(front, x);
      var inserted := Insert(front, x);
      hide Insert;
      forall i | 0 <= i < |inserted| ensures Rank(inserted[i]) <= Rank(last) {
        assert inserted[i] in multiset(inserted);
        assert inserted[i] in multiset(front) + multiset{x};
      }
    }
  }

  lemma NothingToSort(keys: seq<string>)
    requires keys == []
    ensures RanksAscend(keys)
  {}

  /** The result is in canonical order, has the same stages, and keeps the order of the unknown ones. */
  lemma {:induction false} SortIsCanonical(keys: seq<string>)
    ensures RanksAscend(SortedByRank(keys))
    ensures multiset(SortedByRank(keys)) == multiset(keys)
    ensures Unknown(SortedByRank(keys)) == Unknown(keys)
    decreases |keys|
  {
    hide Rank, Canonical, Unknown, Insert, RanksAscend;
    if keys == [] {
      assert SortedByRank(keys) == keys;
      NothingToSort(keys);
    } else {
      var n := |keys| - 1;
      SortIsCanonical(keys[..n]);
      UnknownSnoc(keys[..n], keys[n]);
      InsertKeepsOrder(SortedByRank(keys[..n]), keys[n]);
      InsertAdds(SortedByRank(keys[..n]), keys[n]);
      InsertKeepsUnknown(SortedByRank(keys[..n]), keys[n]);
      assert keys == keys[..n] + [keys[n]];
    }
  }

  lemma RankIsPosition(n: nat)
    requires n < |STAGE_ORDER|
    ensures Canonical(STAGE_ORDER[n].0) && Rank(STAGE_ORDER[n].0) == n
  {
    CanonicalKeysDiffer(IndexFrom(STAGE_ORDER[n].0, 0), n);
  }

  /** Whatever precedes a canonical stage in the result is a canonical stage that precedes it in the order. */
  lemma CanonicalFirst(keys: seq<string>, i: nat, j: nat, m: nat)
    requires i < j < |SortedByRank(keys)| && m < |STAGE_ORDER| && SortedByRank(keys)[j] == STAGE_ORDER[m].0
    ensures exists n | 0 <= n <= m :: SortedByRank(keys)[i] == STAGE_ORDER[n].0
  {
    SortIsCanonical(keys);
    RankIsPosition(m);
    hide SortedByRank, IndexFrom;
    var x := SortedByRank(keys)[i];
    RankBelow99(x);
    assert Rank(x) <= m;
    assert x == STAGE_ORDER[IndexFrom(x, 0)].0;
  }

  function CanonicalKeys(n: nat): seq<string>
    requires n <= |STAGE_ORDER|
  {
    seq(n, i requires 0 <= i < n => STAGE_ORDER[i].0)
  }

  /** The keys of the result. */
  function ResultKeys(events: seq<Event>, includePending: bool): seq<string> {
    if includePending then CanonicalKeys(|STAGE_ORDER|) + Unknown(Present(events))
    else SortedByRank(Present(events))
  }

  /** `list` shows, for each key, the automaton run over that stage's own events. */
  ghost predicate Shows(events: seq<Event>, list: seq<Stage>, keys: seq<string>) {
    && |list| == |keys|
    && forall i | 0 <= i < |list| :: list[i] == StageOf(keys[i], Own(events, keys[i]))
  }

  /** The other fields of what is shown: key, label, and the time of the stage's first event. */
  lemma ShownFields(events: seq<Event>, list: seq<Stage>, keys: seq<string>, i: nat)
    requires Shows(events, list, keys) && i < |keys|
    ensures list[i].key == keys[i]
    ensures forall n | 0 <= n < |STAGE_ORDER| && keys[i] == STAGE_ORDER[n].0 :: list[i].name == STAGE_ORDER[n].1
    ensures (forall n | 0 <= n < |STAGE_ORDER| :: keys[i] != STAGE_ORDER[n].0) ==> list[i].name == keys[i]
    ensures list[i].status == StatusOf(Own(events, keys[i])) && list[i].duration == DurationOf(Own(events, keys[i]))
    ensures list[i].details == DetailsOf(Own(events, keys[i]))
    ensures list[i].ts == if Own(events, keys[i]) == [] then "" else Own(events, keys[i])[0].ts
  {
    hide Own, StatusOf, DurationOf, DetailsOf;
    forall n | 0 <= n < |STAGE_ORDER| && keys[i] == STAGE_ORDER[n].0 ensures LabelFor(keys[i]) == STAGE_ORDER[n].1 {
      CanonicalLabel(n);
    }
  }

  /** The forward-looking list: all canonical stages, then the unknown ones that occurred. */
  method WithPending(events: seq<Event>, stages: map<string, Stage>, order: seq<string>) returns (list: seq<Stage>)
    requires Tracks(events, stages) && order == Present(events)
    ensures Shows(events, list, CanonicalKeys(|STAGE_ORDER|) + Unknown(order))
  {
    hide StageOf, Own, Present, Canonical, LabelFor, Shows, Tracks, CanonicalKeys, Unknown;
    list := [];
    ShowsNothing(events);
    for n := 0 to |STAGE_ORDER|
      invariant Shows(events, list, CanonicalKeys(n))
    {
      var (key, name) := STAGE_ORDER[n];
      CanonicalLabel(n);
      ghost var listed := list;
      list := list + [if key in stages then stages[key] else Stage(key, name, Pending, None, "", [])];
      Tracked(events, stages, key);
      NextCanonical(n);
      ShowsSnoc(events, listed, CanonicalKeys(n), key);
    }
    ghost var canonical := CanonicalKeys(|STAGE_ORDER|);
    NoneUnknown(order, canonical);
    for n := 0 to |order|
      invariant Shows(events, list, canonical + Unknown(order[..n]))
    {
      NextUnknown(order, n, canonical);
      Tracked(events, stages, order[n]);
      if !Canonical(order[n]) {
        ShowsSnoc(events, list, canonical + Unknown(order[..n]), order[n]);
        list := list + [stages[order[n]]];
      }
    }
    assert order[..|order|] == order;
  }

  lemma ShowsNothing(events: seq<Event>)
    ensures Shows(events, [], CanonicalKeys(0))
  {}

  lemma ShowsSnoc(events: seq<Event>, list: seq<Stage>, keys: seq<string>, key: string)
    requires Shows(events, list, keys)
    ensures Shows(events, list + [StageOf(key, Own(events, key))], keys + [key])
  {
    hide StageOf, Own;
  }

  /** The map entry of a stage, or a blank one, is the automaton run over its events. */
  lemma Tracked(events: seq<Event>, stages: map<string, Stage>, key: string)
    requires Tracks(events, stages)
    ensures key in stages <==> key in Present(events)
    ensures StageOf(key, Own(events, key)) ==
            if key in stages then stages[key] else Stage(key, LabelFor(key), Pending, None, "", [])
  {
    PresentIsExact(events, key);
    BlankStage(key);
    hide StageOf, Own, Present, LabelFor;
  }

  lemma NextCanonical(n: nat)
    requires n < |STAGE_ORDER|
    ensures CanonicalKeys(n + 1) == CanonicalKeys(n) + [STAGE_ORDER[n].0]
  {}

  lemma NoneUnknown(order: seq<string>, canonical: seq<string>)
    ensures canonical + Unknown(order[..0]) == canonical
  {}

  lemma NextUnknown(order: seq<string>, n: nat, canonical: seq<string>)
    requires n < |order|
    ensures canonical + Unknown(order[..n + 1]) ==
            if Canonical(order[n]) then canonical + Unknown(order[..n])
            else canonical + Unknown(order[..n]) + [order[n]]
  {
    hide Canonical, Unknown;
    assert order[..n + 1] == order[..n] + [order[n]];
    UnknownSnoc(order[..n], order[n]);
    assert Unknown(order[..n]) + [] == Unknown(order[..n]);
  }

  lemma BlankStage(key: string)
    ensures StageOf(key, []) == Stage(key, LabelFor(key), Pending, None, "", [])
  {}

  /** `deriveStages`: every stage of the result is the automaton run over its own events. */
  method DeriveStages(events: seq<Event>, includePending: bool) returns (list: seq<Stage>)
    ensures Shows(events, list, ResultKeys(events, includePending))
  {
    var stages, order := Fold(events);
    hide Shows, Tracks, Present, SortedByRank, CanonicalKeys, Unknown;
    if includePending {
      list := WithPending(events, stages, order);
    } else {
      list := Arranged(events, stages, order, SortedByRank(order));
    }
  }

  /** All the details a result shows. */
  ghost function ShownDetails(list: seq<Stage>): multiset<Event> {
    if list == [] then multiset{} else ShownDetails(list[..|list| - 1]) + multiset(list[|list| - 1].details)
  }

  lemma {:induction false} ShownIsUnion(events: seq<Event>, list: seq<Stage>, keys: seq<string>)
    requires Shows(events, list, keys)
    ensures ShownDetails(list) == Union(keys, key => multiset(DetailsOf(Own(events, key))))
    decreases |list|
  {
    hide Own, DetailsOf, LabelFor, StatusOf, DurationOf;
    if list != [] {
      ShownIsUnion(events, list[..|list| - 1], keys[..|keys| - 1]);
    }
  }

  /** The result of `deriveStages`, in either form, shows every detail of the stream exactly once. */
  lemma ResultKeepsDetails(events: seq<Event>, includePending: bool, list: seq<Stage>)
    requires Shows(events, list, ResultKeys(events, includePending))
    ensures ShownDetails(list) == multiset(DetailsOf(events))
  {
    hide Shows, Own, DetailsOf, Present, SortedByRank, Unknown, Distinct, ShownDetails, Union, CanonicalKeys;
    var f := (key: string) => multiset(DetailsOf(Own(events, key)));
    ShownIsUnion(events, list, ResultKeys(events, includePending));
    DetailsAreShared(events);
    PresentIsExact(events, "");
    forall key | f(key) != multiset{} ensures key in Present(events) {
      PresentIsExact(events, key);
      NothingShared();
    }
    if includePending {
      PendingKeys(Present(events));
      UnionOfSameKeys(Present(events), ResultKeys(events, true), f);
    } else {
      UnionSorted(Present(events), f);
    }
  }

  lemma {:induction false} UnionInsert(keys: seq<string>, x: string, f: string -> multiset<Event>)
    ensures Union(Insert(keys, x), f) == Union(keys, f) + f(x)
    decreases |keys|
  {
    hide Rank;
    if keys == [] || Rank(keys[|keys| - 1]) <= Rank(x) {
      UnionSnoc(keys, x, f);
    } else {
      var front, last := keys[..|keys| - 1], keys[|keys| - 1];
      UnionInsert(front, x, f);
      UnionSnoc(Insert(front, x), last, f);
    }
  }

  lemma {:induction false} UnionSorted(keys: seq<string>, f: string -> multiset<Event>)
    ensures Union(SortedByRank(keys), f) == Union(keys, f)
    decreases |keys|
  {
    hide Insert;
    if keys != [] {
      UnionSorted(keys[..|keys| - 1], f);
      UnionInsert(SortedByRank(keys[..|keys| - 1]), keys[|keys| - 1], f);
    }
  }

  /** The forward-looking keys are distinct and leave no stage out. */
  lemma PendingKeys(keys: seq<string>)
    requires Distinct(keys)
    ensures Distinct(CanonicalKeys(|STAGE_ORDER|) + Unknown(keys))
    ensures forall key | key in keys :: key in CanonicalKeys(|STAGE_ORDER|) + Unknown(keys)
  {
    UnknownKeys(keys);
    CanonicalDistinct();
    hide Canonical, Unknown, CanonicalKeys;
    DistinctConcat(CanonicalKeys(|STAGE_ORDER|), Unknown(keys));
    forall key | key in keys ensures key in CanonicalKeys(|STAGE_ORDER|) + Unknown(keys) {
      assert Canonical(key) || key in Unknown(keys);
    }
  }

  lemma {:induction false} UnknownKeys(keys: seq<string>)
    requires Distinct(keys)
    ensures Distinct(Unknown(keys))
    ensures forall key :: key in Unknown(keys) <==> key in keys && !Canonical(key)
    decreases |keys|
  {
    hide Canonical;
    if keys != [] {
      UnknownKeys(keys[..|keys| - 1]);
      assert keys == keys[..|keys| - 1] + [keys[|keys| - 1]];
    }
  }

  lemma CanonicalDistinct()
    ensures Distinct(CanonicalKeys(|STAGE_ORDER|))
    ensures forall key :: key in CanonicalKeys(|STAGE_ORDER|) <==> Canonical(key)
  {
    var all := CanonicalKeys(|STAGE_ORDER|);
    forall i, j | 0 <= i < j < |all| ensures all[i] != all[j] {
      if all[i] == all[j] { CanonicalKeysDiffer(i, j); }
    }
    forall key ensures key in all <==> Canonical(key) {
      if Canonical(key) { assert all[IndexFrom(key, 0)] == key; }
      if i :| 0 <= i < |all| && all[i] == key { assert STAGE_ORDER[i].0 == key; }
    }
  }

  method Arranged(events: seq<Event>, stages: map<string, Stage>, order: seq<string>, keys: seq<string>)
      returns (list: seq<Stage>)
    requires Tracks(events, stages) && order == Present(events) && keys == SortedByRank(order)
    ensures Shows(events, list, keys)
  {
    SortIsCanonical(order);
    hide StageOf, Own, Present, SortedByRank, RanksAscend, Unknown;
    list := [];
    for n := 0 to |keys|
      invariant Shows(events, list, keys[..n])
    {
      assert keys[n] in multiset(keys);
      list := list + [stages[keys[n]]];
    }
    assert keys[..|keys|] == keys;
  }

  lemma CanonicalLabel(n: nat)
    requires n < |STAGE_ORDER|
    ensures Canonical(STAGE_ORDER[n].0) && LabelFor(STAGE_ORDER[n].0) == STAGE_ORDER[n].1
  {
    CanonicalKeysDiffer(IndexFrom(STAGE_ORDER[n].0, 0), n);
  }

  lemma CanonicalKeysDiffer(i: nat, j: nat)
    requires i <= j < |STAGE_ORDER| && STAGE_ORDER[i].0 == STAGE_ORDER[j].0
    ensures i == j
  {
    assert |"parse"| == 5 && |"auto_close_pre"| == 14 && |"dedup"| == 5 && |"enrich"| == 6 && |"decision"| == 8;
    assert |"l1"| == 2 && |"l2"| == 2 && |"hunt"| == 4 && |"forensics"| == 9 && |"synthesis"| == 9 && |"complete"| == 8;
    assert "parse"[0] == 'p' && "dedup"[0] == 'd' && "decision"[0] == 'd' && "complete"[0] == 'c';
    assert "l1"[1] == '1' && "l2"[1] == '2' && "forensics"[0] == 'f' && "synthesis"[0] == 's';
  }
}
