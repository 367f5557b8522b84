/**
 What every run of the negotiation keeps, and when negotiating again changes nothing.
 */
module UvcProofs {
  import opened Machine
  import opened UvcNegotiation

  // The invariant of the device.

  ghost predicate Lists(a: seq<nat>, interval: nat) {
    exists k :: 0 <= k < IntervalCount(a) && a[k] == interval
  }

  /** The indices of a control block name a format and one of its frames. */
  predicate NamesEntry(t: Tables, c: StreamingControl)
    requires ValidTables(t)
  {
    && 1 <= c.bFormatIndex <= |t.formats|
    && 1 <= c.bFrameIndex <= FrameCount(t.formats[c.bFormatIndex - 1].frames)
  }

  function FormatOf(t: Tables, c: StreamingControl): FormatInfo
    requires ValidTables(t) && NamesEntry(t, c)
  {
    t.formats[c.bFormatIndex - 1]
  }

  function FrameOf(t: Tables, c: StreamingControl): FrameInfo
    requires ValidTables(t) && NamesEntry(t, c)
  {
    FormatOf(t, c).frames[c.bFrameIndex - 1]
  }

  /** A control block that offers one entry of the tables: nothing in it is free but entry and interval. */
  ghost predicate ValidControl(t: Tables, c: StreamingControl)
    requires ValidTables(t)
  {
    && NamesEntry(t, c)
    && Lists(FrameOf(t, c).intervals, c.dwFrameInterval)
    && c.dwMaxVideoFrameSize == MaxFrameSize(t, FormatOf(t, c).fcc, FrameOf(t, c))
    && c == StreamingControl(1, c.bFormatIndex, c.bFrameIndex, c.dwFrameInterval, 0, 0, 0, 0, 0,
                             c.dwMaxVideoFrameSize, 512, 0, 3, 1, 0, 1)
  }

  /** The current format is the one of the committed entry. */
  predicate ShowsCommitted(t: Tables, s: State)
    requires ValidTables(t) && NamesEntry(t, s.commit)
  {
    && s.fcc == Some(FormatOf(t, s.commit).fcc)
    && s.width == FrameOf(t, s.commit).width && s.height == FrameOf(t, s.commit).height
  }

  ghost predicate Consistent(t: Tables, s: State)
    requires ValidTables(t)
  {
    && ValidControl(t, s.probe) && ValidControl(t, s.commit)
    && (s.fcc.Some? ==> ShowsCommitted(t, s))
  }

  /** A DATA event turns a valid block into the valid block of the chosen entry, whatever the host sent. */
  lemma NegotiatedIsValid(t: Tables, target: StreamingControl, ctrl: StreamingControl)
    requires ValidTables(t) && ValidControl(t, target)
    ensures ValidControl(t, Negotiated(t, target, ctrl))
    ensures FormatOf(t, Negotiated(t, target, ctrl)) == ChosenFormat(t, ctrl)
    ensures FrameOf(t, Negotiated(t, target, ctrl)) == ChosenFrame(t, ctrl)
  {
  }

  /** The blocks reported for GET_MIN, GET_DEF and GET_MAX, and those of the initial state. */
  lemma OffersAreValid(t: Tables)
    requires ValidTables(t)
    ensures Filled(t, 0, 0).Some? && ValidControl(t, Filled(t, 0, 0).value)
    ensures Filled(t, -1, -1).Some? && ValidControl(t, Filled(t, -1, -1).value)
    ensures var last := Filled(t, -1, -1).value;
            && last.bFormatIndex == |t.formats| && last.bFrameIndex == FrameCount(FormatOf(t, last).frames)
  {
    assert FrameOf(t, Filled(t, 0, 0).value).intervals[0] == Filled(t, 0, 0).value.dwFrameInterval;
    assert FrameOf(t, Filled(t, -1, -1).value).intervals[0] == Filled(t, -1, -1).value.dwFrameInterval;
  }

  lemma ProbeIsConsistent(t: Tables, s: State, ctrl: StreamingControl)
    requires ValidTables(t) && Consistent(t, s)
    ensures Consistent(t, s.(probe := Negotiated(t, s.probe, ctrl)))
  {
    NegotiatedIsValid(t, s.probe, ctrl);
    hide ValidControl, FormatOf, FrameOf, NamesEntry, Negotiated, ValidTables;
  }

  lemma CommitIsConsistent(t: Tables, s: State, ctrl: StreamingControl)
    requires ValidTables(t) && Consistent(t, s)
    ensures Consistent(t, s.(commit := Negotiated(t, s.commit, ctrl), fcc := Some(ChosenFormat(t, ctrl).fcc),
                             width := ChosenFrame(t, ctrl).width, height := ChosenFrame(t, ctrl).height))
  {
    NegotiatedIsValid(t, s.commit, ctrl);
    hide ValidControl, FormatOf, FrameOf, NamesEntry, Negotiated, ChosenFormat, ChosenFrame, ValidTables;
  }

  lemma SelectionIsFree(t: Tables, s: State, control: int)
    requires ValidTables(t) && Consistent(t, s)
    ensures Consistent(t, s.(control := control))
  {
  }

  lemma StepIsConsistent(t: Tables, s: State, e: Event)
    requires ValidTables(t) && Consistent(t, s)
    ensures Consistent(t, After(t, s, e))
  {
    hide Consistent, Negotiated, ChosenFormat, ChosenFrame, Selected, ValidTables;
    match e
    case Setup(req) =>
      SelectionIsFree(t, s, Selected(req));
    case Data(ctrl) =>
      ProbeIsConsistent(t, s, ctrl);
      CommitIsConsistent(t, s, ctrl);
    case Other =>
  }

  lemma {:induction false} RunsAreConsistent(t: Tables, s: State, events: seq<Event>)
    requires ValidTables(t) && Consistent(t, s)
    ensures Consistent(t, Run(t, s, events))
    decreases |events|
  {
    hide Consistent, After, ValidTables;
    if events != [] {
      var n := |events| - 1;
      RunsAreConsistent(t, s, events[..n]);
      StepIsConsistent(t, Run(t, s, events[..n]), events[n]);
    }
  }

  /** In every reachable state both controls are valid, and a committed format is that of the committed entry. */
  lemma AlwaysConsistent(t: Tables, events: seq<Event>)
    requires ValidTables(t)
    ensures Consistent(t, Run(t, Initial(t), events))
  {
    OffersAreValid(t);
    RunsAreConsistent(t, Initial(t), events);
  }

  // Which control a DATA event reaches.

  /** Event k is the last SETUP event before position n. */
  predicate IsLatestSetup(events: seq<Event>, k: int, n: nat)
    requires n <= |events|
  {
    0 <= k < n && events[k].Setup? && forall j :: k < j < n ==> !events[j].Setup?
  }

  lemma {:induction false} LatestSetupDecides(t: Tables, s: State, events: seq<Event>, k: nat)
    requires ValidTables(t)
    requires IsLatestSetup(events, k, |events|)
    ensures Run(t, s, events).control == Selected(events[k].req)
    decreases |events|
  {
    var n := |events| - 1;
    if k < n {
      assert IsLatestSetup(events[..n], k, n);
      LatestSetupDecides(t, s, events[..n], k);
      assert !events[n].Setup?;
    }
    hide Selected, Negotiated, ChosenFormat, ChosenFrame;
  }

  lemma {:induction false} NoSetupSelectsNothing(t: Tables, s: State, events: seq<Event>)
    requires ValidTables(t)
    requires forall j :: 0 <= j < |events| ==> !events[j].Setup?
    ensures Run(t, s, events).control == s.control
    decreases |events|
  {
    hide Negotiated, ChosenFormat, ChosenFrame, ValidTables;
    if events != [] {
      var n := |events| - 1;
      NoSetupSelectsNothing(t, s, events[..n]);
      assert !events[n].Setup?;
    }
  }

  /**
   A DATA event changes only the control chosen by the latest SETUP event, or nothing at all when that was not
   a streaming SET_CUR request.
   */
  lemma DataChangesOnlyTheSelected(t: Tables, events: seq<Event>, k: nat, ctrl: StreamingControl)
    requires ValidTables(t)
    requires IsLatestSetup(events, k, |events|)
    ensures var req := events[k].req;
            var before := Run(t, Initial(t), events);
            var after := Run(t, Initial(t), events + [Data(ctrl)]);
            && (!(IsStreaming(req) && req.bRequest == 0x01) ==> after == before)
            && (IsStreaming(req) && req.bRequest == 0x01 && Selector(req) == VS_PROBE_CONTROL ==>
                  after == before.(probe := Negotiated(t, before.probe, ctrl)))
            && (IsStreaming(req) && req.bRequest == 0x01 && Selector(req) == VS_COMMIT_CONTROL ==>
                  && after.commit == Negotiated(t, before.commit, ctrl)
                  && ShowsCommitted(t, after)
                  && after == before.(commit := after.commit, fcc := after.fcc, width := after.width,
                                      height := after.height))
  {
    LatestSetupDecides(t, Initial(t), events, k);
    AlwaysConsistent(t, events);
    var before := Run(t, Initial(t), events);
    NegotiatedIsValid(t, before.commit, ctrl);
    hide Run, Initial, Negotiated, ChosenFormat, ChosenFrame, ValidTables, FormatOf, FrameOf;
    AppendStep(t, Initial(t), events, Data(ctrl));
  }

  lemma AppendStep(t: Tables, s: State, events: seq<Event>, e: Event)
    requires ValidTables(t)
    ensures Run(t, s, events + [e]) == After(t, Run(t, s, events), e)
  {
  }

  // When a format is current.

  /** Event i is the data of a commit request. */
  ghost predicate IsCommit(events: seq<Event>, i: nat) {
    && i < |events| && events[i].Data?
    && exists k :: IsLatestSetup(events, k, i) && Selected(events[k].req) == VS_COMMIT_CONTROL
  }

  lemma {:induction false} LatestSetup(events: seq<Event>) returns (k: int)
    ensures -1 <= k < |events|
    ensures k == -1 ==> forall j :: 0 <= j < |events| ==> !events[j].Setup?
    ensures k >= 0 ==> IsLatestSetup(events, k, |events|)
  {
    k := |events| - 1;
    while k >= 0 && !events[k].Setup?
      invariant -1 <= k < |events|
      invariant forall j :: k < j < |events| ==> !events[j].Setup?
    {
      k := k - 1;
    }
  }

  lemma CommitIsSelected(t: Tables, events: seq<Event>, i: nat)
    requires ValidTables(t)
    requires i < |events| && events[i].Data?
    ensures IsCommit(events, i) <==> Run(t, Initial(t), events[..i]).control == VS_COMMIT_CONTROL
  {
    var k := LatestSetup(events[..i]);
    if k == -1 {
      NoSetupSelectsNothing(t, Initial(t), events[..i]);
      assert forall j :: 0 <= j < i ==> events[j] == events[..i][j];
    } else {
      assert IsLatestSetup(events, k, i);
      LatestSetupDecides(t, Initial(t), events[..i], k);
      forall j | IsLatestSetup(events, j, i)
        ensures j == k
      {
        assert j <= k && k <= j;
      }
    }
    hide Run, Initial, Selected;
  }

  lemma CommitStaysInPrefix(events: seq<Event>, n: nat, i: nat)
    requires i < n <= |events|
    ensures IsCommit(events[..n], i) <==> IsCommit(events, i)
  {
  }

  ghost predicate EverCommitted(events: seq<Event>) {
    exists i :: 0 <= i < |events| && IsCommit(events, i)
  }

  lemma EverCommittedTurn(events: seq<Event>)
    requires events != []
    ensures var n := |events| - 1;
            EverCommitted(events) <==> EverCommitted(events[..n]) || IsCommit(events, n)
  {
    var n := |events| - 1;
    forall i | 0 <= i < n
      ensures IsCommit(events[..n], i) <==> IsCommit(events, i)
    {
      CommitStaysInPrefix(events, n, i);
    }
    hide IsCommit;
  }

  /** A format is current exactly when the host has committed at least once. */
  lemma {:induction false} CurrentOnceCommitted(t: Tables, events: seq<Event>)
    requires ValidTables(t)
    ensures Run(t, Initial(t), events).fcc.Some? <==> EverCommitted(events)
    decreases |events|
  {
    if events != [] {
      var n := |events| - 1;
      var before := Run(t, Initial(t), events[..n]);
      assert Run(t, Initial(t), events) == After(t, before, events[n]);
      assert IsCommit(events, n) ==> events[n].Data?;
      if events[n].Data? {
        CommitIsSelected(t, events, n);
      }
      hide *;
      CurrentOnceCommitted(t, events[..n]);
      FormatAfter(t, before, events[n]);
      EverCommittedTurn(events);
    }
  }

  lemma FormatAfter(t: Tables, s: State, e: Event)
    requires ValidTables(t)
    ensures After(t, s, e).fcc.Some? <==> s.fcc.Some? || (e.Data? && s.control == VS_COMMIT_CONTROL)
  {
  }

  // Negotiating again.

  function IntervalFor(a: seq<nat>, request: nat): nat
    requires ValidIntervals(a)
  {
    a[Pick(a, request)]
  }

  predicate Reached(a: seq<nat>, request: nat) {
    exists k :: 0 <= k < IntervalCount(a) && a[k] >= request
  }

  /** Before any interval that is longer than the last one, the last one is listed already. */
  predicate LastComesFirst(a: seq<nat>)
    requires ValidIntervals(a)
  {
    forall j :: 0 <= j < IntervalCount(a) && a[j] > a[IntervalCount(a) - 1] ==> a[IntervalCount(a) - 1] in a[..j]
  }

  predicate Increasing(a: seq<nat>) {
    forall j, k :: 0 <= j < k < IntervalCount(a) ==> a[j] < a[k]
  }

  /** Negotiating an interval again keeps it exactly when the request was in reach or the list ends well. */
  lemma IntervalSettlesExactly(a: seq<nat>, request: nat)
    requires ValidIntervals(a)
    ensures IntervalFor(a, IntervalFor(a, request)) == IntervalFor(a, request)
            <==> Reached(a, request) || LastComesFirst(a)
  {
    var n := IntervalCount(a);
    var k := Pick(a, request);
    var m := Pick(a, a[k]);
    if Reached(a, request) {
      var j :| 0 <= j < n && a[j] >= request;
      assert j >= k;
      assert a[k] >= request;
      assert m <= k;
    } else {
      assert k == n - 1;
      assert a[m] >= a[k];
      if a[m] == a[k] {
        assert a[..m + 1][m] == a[k];
        assert forall j :: 0 <= j < n && a[j] > a[k] ==> m < j && a[..j][m] == a[k];
      } else {
        assert a[k] !in a[..m];
      }
    }
  }

  /** In an increasing list the shortest interval that is not below the request is taken, else the longest. */
  lemma IncreasingTakesNearest(a: seq<nat>, request: nat, k: nat)
    requires ValidIntervals(a) && Increasing(a) && k < IntervalCount(a)
    ensures a[k] >= request ==> request <= IntervalFor(a, request) <= a[k]
    ensures !Reached(a, request) ==> a[k] <= IntervalFor(a, request) < request
    ensures IntervalFor(a, a[k]) == a[k]
  {
    var p := Pick(a, request);
    var q := Pick(a, a[k]);
    assert q == k;
  }

  lemma SameEntry(t: Tables, c: StreamingControl)
    requires ValidTables(t) && NamesEntry(t, c)
    ensures ChosenFormat(t, c) == FormatOf(t, c) && ChosenFrame(t, c) == FrameOf(t, c)
    ensures Chosen(t, c)
            == Choice(c.bFormatIndex, c.bFrameIndex, IntervalFor(FrameOf(t, c).intervals, c.dwFrameInterval))
  {
  }

  lemma NegotiatedInterval(t: Tables, target: StreamingControl, ctrl: StreamingControl)
    requires ValidTables(t)
    ensures Negotiated(t, target, ctrl).dwFrameInterval
            == IntervalFor(ChosenFrame(t, ctrl).intervals, ctrl.dwFrameInterval)
  {
  }

  /** Sending the stored block back through a DATA event changes nothing exactly under the same condition. */
  lemma NegotiationSettlesExactly(t: Tables, target: StreamingControl, ctrl: StreamingControl)
    requires ValidTables(t) && ValidControl(t, target)
    ensures var stored := Negotiated(t, target, ctrl);
            var a := ChosenFrame(t, ctrl).intervals;
            Negotiated(t, stored, stored) == stored <==> Reached(a, ctrl.dwFrameInterval) || LastComesFirst(a)
  {
    var stored := Negotiated(t, target, ctrl);
    NegotiatedIsValid(t, target, ctrl);
    NegotiatedInterval(t, target, ctrl);
    IntervalSettlesExactly(ChosenFrame(t, ctrl).intervals, ctrl.dwFrameInterval);
    SameEntry(t, stored);
    NegotiatedFields(t, stored, stored);
    hide Negotiated, Chosen, ChosenFormat, ChosenFrame, FormatOf, FrameOf, IntervalFor, Reached, LastComesFirst,
      ValidTables, Lists, MaxFrameSize;
  }

  /** With a longer interval before the last one a request above both does not settle. */
  lemma SettlingCanFail()
    ensures var a := [30, 10, 0];
            && IntervalCount(a) == 2 && ValidIntervals(a)
            && IntervalFor(a, 40) == 10 && IntervalFor(a, 10) == 30
  {
  }

  /** Every frame of the tables lists its intervals in increasing order. */
  predicate IncreasingTables(t: Tables)
    requires ValidTables(t)
  {
    forall f, r :: 0 <= f < |t.formats| && 0 <= r < FrameCount(t.formats[f].frames) ==>
      Increasing(t.formats[f].frames[r].intervals)
  }

  /** A valid block, for instance one the device reported, is accepted as it is and replaces the stored one. */
  lemma ValidIsAccepted(t: Tables, target: StreamingControl, c: StreamingControl)
    requires ValidTables(t) && IncreasingTables(t)
    requires ValidControl(t, target) && ValidControl(t, c)
    ensures Negotiated(t, target, c) == c
  {
    var a := FrameOf(t, c).intervals;
    var k :| 0 <= k < IntervalCount(a) && a[k] == c.dwFrameInterval;
    IncreasingTakesNearest(a, 0, k);
    SameEntry(t, c);
    NegotiatedFields(t, target, c);
    hide Negotiated, Chosen, ChosenFormat, ChosenFrame, FormatOf, FrameOf, IntervalFor, ValidTables, Lists,
      MaxFrameSize, IncreasingTables;
  }

  /**
   Probe, read back, commit: in any reachable state the host that commits the block it was shown gets exactly that
   block, and the device shows the format of its entry.
   */
  lemma HandshakeAgrees(t: Tables, events: seq<Event>, ctrl: StreamingControl, probe: Request, get: Request,
                        commit: Request)
    requires ValidTables(t) && IncreasingTables(t)
    requires Selected(probe) == VS_PROBE_CONTROL && Selected(commit) == VS_COMMIT_CONTROL
    requires IsStreaming(get) && get.bRequest == 0x81 && Selector(get) == VS_PROBE_CONTROL
    ensures var probed := Run(t, Initial(t), events + [Setup(probe)] + [Data(ctrl)]);
            var shown := probed.probe;
            var done := Run(t, Initial(t), events + [Setup(probe)] + [Data(ctrl)] + [Setup(get)] + [Setup(commit)]
                            + [Data(shown)]);
            && Reply(t, probed, get) == Response(34, Control(shown))
            && ValidControl(t, shown)
            && FormatOf(t, shown) == ChosenFormat(t, ctrl) && FrameOf(t, shown) == ChosenFrame(t, ctrl)
            && done.probe == shown && done.commit == shown && ShowsCommitted(t, done)
  {
    var s := Initial(t);
    var e1 := events + [Setup(probe)];
    var e2 := e1 + [Data(ctrl)];
    var e3 := e2 + [Setup(get)];
    var e4 := e3 + [Setup(commit)];
    AppendStep(t, s, events, Setup(probe));
    AppendStep(t, s, e1, Data(ctrl));
    AppendStep(t, s, e2, Setup(get));
    AppendStep(t, s, e3, Setup(commit));
    var shown := Run(t, s, e2).probe;
    AppendStep(t, s, e4, Data(shown));
    AlwaysConsistent(t, e1);
    AlwaysConsistent(t, e2);
    AlwaysConsistent(t, e4);
    NegotiatedIsValid(t, Run(t, s, e1).probe, ctrl);
    ValidIsAccepted(t, Run(t, s, e4).commit, shown);
    SameEntry(t, shown);
    hide Run, Initial, Negotiated, Chosen, ChosenFormat, ChosenFrame, FormatOf, FrameOf, ValidTables, ValidControl,
      NamesEntry, IncreasingTables, Selected, IsStreaming, Filled;
  }

  /** The requests of section 4.3.1.1 that a host sends to interface 1, with the interface's higher byte free. */
  lemma HostRequestsSelect(wIndex: bv16)
    requires wIndex & 0xFF == 1
    ensures Selected(Request(0x21, 0x01, 0x0100, wIndex)) == VS_PROBE_CONTROL
    ensures Selected(Request(0x21, 0x01, 0x0200, wIndex)) == VS_COMMIT_CONTROL
    ensures Selected(Request(0xA1, 0x81, 0x0100, wIndex)) == 0
    ensures IsStreaming(Request(0xA1, 0x81, 0x0100, wIndex))
    ensures Selector(Request(0xA1, 0x81, 0x0100, wIndex)) == VS_PROBE_CONTROL
  {
  }

  // The tables of the program.

  const DEMO_FRAMES: seq<FrameInfo> := [
    FrameInfo(640, 480, [666666, 10000000, 50000000, 0]),
    FrameInfo(1280, 720, [50000000, 0]),
    FrameInfo(0, 0, [0])]

  function DemoTables(videoinSelect: bool, imageSize: nat): Tables {
    Tables([FormatInfo(Yuyv, DEMO_FRAMES), FormatInfo(Mjpeg, DEMO_FRAMES)], videoinSelect, imageSize)
  }

  lemma DemoLists()
    ensures IntervalCount([666666, 10000000, 50000000, 0]) == 3 && IntervalCount([50000000, 0]) == 1
    ensures FrameCount(DEMO_FRAMES) == 2 && |DEMO_FRAMES| == 3
  {
  }

  /** The tables of the program meet everything the results above ask of tables. */
  lemma DemoTablesAreGood(videoinSelect: bool, imageSize: nat)
    ensures ValidTables(DemoTables(videoinSelect, imageSize))
    ensures IncreasingTables(DemoTables(videoinSelect, imageSize))
  {
    DemoLists();
    hide IntervalCount, FrameCount;
    var t := DemoTables(videoinSelect, imageSize);
    assert ValidIntervals(DEMO_FRAMES[0].intervals) && ValidIntervals(DEMO_FRAMES[1].intervals);
    assert Increasing(DEMO_FRAMES[0].intervals) && Increasing(DEMO_FRAMES[1].intervals);
    assert ValidFrames(DEMO_FRAMES);
    assert t.formats[0].frames == DEMO_FRAMES && t.formats[1].frames == DEMO_FRAMES;
  }
}
