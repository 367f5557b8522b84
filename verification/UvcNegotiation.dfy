/**
 The probe and commit negotiation of the video gadget (section 4.3.1.1 of the USB Video Class 1.1
 specification), for any format tables: what each request does to the device, as functions.
 */
module UvcNegotiation {
  import opened Machine

  // Format tables.  As in the program, lists of frames end at a frame of width 0 and lists of
  // intervals at an interval of 0.

  datatype Fcc = Yuyv | Mjpeg

  datatype FrameInfo = FrameInfo(width: nat, height: nat, intervals: seq<nat>)

  datatype FormatInfo = FormatInfo(fcc: Fcc, frames: seq<FrameInfo>)

  /** What does not change while events are processed: the tables, the source of the pictures, the picture size. */
  datatype Tables = Tables(formats: seq<FormatInfo>, videoinSelect: bool, imageSize: nat)

  /** The number of entries before the terminator. */
  function FrameCount(frames: seq<FrameInfo>): (n: nat)
    ensures n <= |frames|
    ensures n < |frames| ==> frames[n].width == 0
    ensures forall k :: 0 <= k < n ==> frames[k].width != 0
  {
    if frames == [] || frames[0].width == 0 then 0 else 1 + FrameCount(frames[1..])
  }

  function IntervalCount(intervals: seq<nat>): (n: nat)
    ensures n <= |intervals|
    ensures n < |intervals| ==> intervals[n] == 0
    ensures forall k :: 0 <= k < n ==> intervals[k] != 0
  {
    if intervals == [] || intervals[0] == 0 then 0 else 1 + IntervalCount(intervals[1..])
  }

  /** At least one interval, and a terminator. */
  predicate ValidIntervals(a: seq<nat>) {
    0 < IntervalCount(a) < |a| && forall k :: 0 <= k < |a| ==> a[k] < TWO_TO_THE_32
  }

  predicate ValidFrames(frames: seq<FrameInfo>) {
    && 0 < FrameCount(frames) < |frames| && FrameCount(frames) < 256
    && forall k :: 0 <= k < FrameCount(frames) ==> ValidIntervals(frames[k].intervals)
  }

  predicate ValidTables(t: Tables) {
    && 0 < |t.formats| < 256
    && forall k :: 0 <= k < |t.formats| ==> ValidFrames(t.formats[k].frames)
  }

  // The streaming control block.

  datatype StreamingControl = StreamingControl(
    bmHint: nat, bFormatIndex: nat, bFrameIndex: nat, dwFrameInterval: nat,
    wKeyFrameRate: nat, wPFrameRate: nat, wCompQuality: nat, wCompWindowSize: nat, wDelay: nat,
    dwMaxVideoFrameSize: nat, dwMaxPayloadTransferSize: nat, dwClockFrequency: nat,
    bmFramingInfo: nat, bPreferedVersion: nat, bMinVersion: nat, bMaxVersion: nat)

  const ZERO_CONTROL := StreamingControl(0, 0, 0, 0, 0, 0, 0, 0, 0, 0, 0, 0, 0, 0, 0, 0)

  function MaxFrameSize(t: Tables, fcc: Fcc, frame: FrameInfo): nat {
    match fcc
    case Yuyv => frame.width * frame.height * 2 % TWO_TO_THE_32
    case Mjpeg => if t.videoinSelect then 600 * 1024 else t.imageSize
  }

  /** The control block of a frame of a format; negative indices count from the end. */
  function Filled(t: Tables, iframe: int, iformat: int): Option<StreamingControl>
    requires ValidTables(t)
  {
    var fi := if iformat < 0 then |t.formats| + iformat else iformat;
    if fi < 0 || fi >= |t.formats| then None
    else
      var format := t.formats[fi];
      var ri := if iframe < 0 then FrameCount(format.frames) + iframe else iframe;
      if ri < 0 || ri >= FrameCount(format.frames) then None
      else
        var frame := format.frames[ri];
        Some(ZERO_CONTROL.(bmHint := 1, bFormatIndex := fi + 1, bFrameIndex := ri + 1,
                           dwFrameInterval := frame.intervals[0],
                           dwMaxVideoFrameSize := MaxFrameSize(t, format.fcc, frame),
                           dwMaxPayloadTransferSize := 512, bmFramingInfo := 3,
                           bPreferedVersion := 1, bMaxVersion := 1))
  }

  function Clamp(v: int, low: int, high: int): int {
    var w := if v < low then low else v;
    if w > high then high else w
  }

  /** The index of the first listed interval not below the request, or of the last one. */
  function Pick(a: seq<nat>, request: nat): (k: nat)
    requires ValidIntervals(a)
    ensures k < IntervalCount(a)
    ensures forall j :: 0 <= j < k ==> a[j] < request
    ensures a[k] >= request || k == IntervalCount(a) - 1
  {
    PickFrom(a, request, 0)
  }

  function PickFrom(a: seq<nat>, request: nat, i: nat): (k: nat)
    requires ValidIntervals(a) && i < IntervalCount(a)
    requires forall j :: 0 <= j < i ==> a[j] < request
    ensures i <= k < IntervalCount(a)
    ensures forall j :: 0 <= j < k ==> a[j] < request
    ensures a[k] >= request || k == IntervalCount(a) - 1
    decreases IntervalCount(a) - i
  {
    if i + 1 < IntervalCount(a) && a[i] < request then PickFrom(a, request, i + 1) else i
  }

  /** The table entry a requested control block leads to. */
  datatype Choice = Choice(iformat: nat, iframe: nat, interval: nat)

  function Chosen(t: Tables, ctrl: StreamingControl): (c: Choice)
    requires ValidTables(t)
    ensures 1 <= c.iformat <= |t.formats|
    ensures 1 <= c.iframe <= FrameCount(t.formats[c.iformat - 1].frames)
  {
    var iformat := Clamp(ctrl.bFormatIndex, 1, |t.formats|);
    var frames := t.formats[iformat - 1].frames;
    var iframe := Clamp(ctrl.bFrameIndex, 1, FrameCount(frames));
    var a := frames[iframe - 1].intervals;
    Choice(iformat, iframe, a[Pick(a, ctrl.dwFrameInterval)])
  }

  function ChosenFormat(t: Tables, ctrl: StreamingControl): FormatInfo
    requires ValidTables(t)
  {
    t.formats[Chosen(t, ctrl).iformat - 1]
  }

  function ChosenFrame(t: Tables, ctrl: StreamingControl): FrameInfo
    requires ValidTables(t)
  {
    ChosenFormat(t, ctrl).frames[Chosen(t, ctrl).iframe - 1]
  }

  /** The stored control block after a DATA event: four fields are negotiated, the others stay. */
  function Negotiated(t: Tables, target: StreamingControl, ctrl: StreamingControl): StreamingControl
    requires ValidTables(t)
  {
    var c := Chosen(t, ctrl);
    target.(bFormatIndex := c.iformat, bFrameIndex := c.iframe, dwFrameInterval := c.interval,
            dwMaxVideoFrameSize := MaxFrameSize(t, ChosenFormat(t, ctrl).fcc, ChosenFrame(t, ctrl)))
  }

  lemma NegotiatedFields(t: Tables, target: StreamingControl, ctrl: StreamingControl)
    requires ValidTables(t)
    ensures var c := Chosen(t, ctrl);
            && 1 <= c.iformat <= |t.formats| && 1 <= c.iframe <= |t.formats[c.iformat - 1].frames|
            && ChosenFormat(t, ctrl) == t.formats[c.iformat - 1]
            && ChosenFrame(t, ctrl) == ChosenFormat(t, ctrl).frames[c.iframe - 1]
            && Negotiated(t, target, ctrl)
               == target.(bFormatIndex := c.iformat, bFrameIndex := c.iframe, dwFrameInterval := c.interval,
                          dwMaxVideoFrameSize := MaxFrameSize(t, ChosenFormat(t, ctrl).fcc, ChosenFrame(t, ctrl)))
  {
  }

  // The device as a state machine.

  const VS_PROBE_CONTROL := 1
  const VS_COMMIT_CONTROL := 2

  /** fcc is None until the first commit. */
  datatype State = State(probe: StreamingControl, commit: StreamingControl, control: int,
                         fcc: Option<Fcc>, width: nat, height: nat)

  datatype Request = Request(bRequestType: bv8, bRequest: bv8, wValue: bv16, wIndex: bv16)

  datatype Event = Setup(req: Request) | Data(ctrl: StreamingControl) | Other

  datatype Body = Zeros | Control(c: StreamingControl) | Bytes(b: seq<nat>)

  datatype Response = Response(length: int, body: Body)

  const EL2HLT := 51
  const NO_RESPONSE := Response(-EL2HLT, Zeros)

  /** A class request to the streaming interface, for the probe or the commit control. */
  predicate IsStreaming(req: Request) {
    && req.bRequestType & 0x60 == 0x20
    && req.bRequestType & 0x1F == 0x01
    && req.wIndex & 0xFF == 1
    && (req.wValue >> 8 == 1 || req.wValue >> 8 == 2)
  }

  function Selector(req: Request): int {
    if req.wValue >> 8 == 1 then VS_PROBE_CONTROL else VS_COMMIT_CONTROL
  }

  /** The control that a SETUP event selects for the DATA event that may follow. */
  function Selected(req: Request): int {
    if IsStreaming(req) && req.bRequest == 0x01 then Selector(req) else 0
  }

  /** The block that a GET_MIN, GET_MAX or GET_DEF request reports, over a zeroed response. */
  function FilledBody(t: Tables, iframe: int, iformat: int): Body
    requires ValidTables(t)
  {
    match Filled(t, iframe, iformat)
    case Some(c) => Control(c)
    case None => Control(ZERO_CONTROL)
  }

  function StreamingReply(t: Tables, s: State, selector: int, req: bv8): Response
    requires ValidTables(t)
  {
    if req == 0x81 then Response(34, Control(if selector == VS_PROBE_CONTROL then s.probe else s.commit))
    else if req == 0x82 || req == 0x87 then Response(34, FilledBody(t, 0, 0))
    else if req == 0x83 then Response(34, FilledBody(t, -1, -1))
    else if req == 0x84 then Response(34, Control(ZERO_CONTROL))
    else if req == 0x85 then Response(2, Bytes([0x00, 0x22]))
    else if req == 0x86 then Response(1, Bytes([0x03]))
    else Response(34, Zeros)
  }

  function Reply(t: Tables, s: State, req: Request): Response
    requires ValidTables(t)
  {
    if IsStreaming(req) then StreamingReply(t, s, Selector(req), req.bRequest) else NO_RESPONSE
  }

  function AfterData(t: Tables, s: State, ctrl: StreamingControl): State
    requires ValidTables(t)
  {
    if s.control == VS_PROBE_CONTROL then s.(probe := Negotiated(t, s.probe, ctrl))
    else if s.control == VS_COMMIT_CONTROL then
      s.(commit := Negotiated(t, s.commit, ctrl), fcc := Some(ChosenFormat(t, ctrl).fcc),
         width := ChosenFrame(t, ctrl).width, height := ChosenFrame(t, ctrl).height)
    else s
  }

  function After(t: Tables, s: State, e: Event): State
    requires ValidTables(t)
  {
    match e
    case Setup(req) => s.(control := Selected(req))
    case Data(ctrl) => AfterData(t, s, ctrl)
    case Other => s
  }

  function Run(t: Tables, s: State, events: seq<Event>): State
    requires ValidTables(t)
    decreases |events|
  {
    if events == [] then s else After(t, Run(t, s, events[..|events| - 1]), events[|events| - 1])
  }

  /** The state after initialization: both controls hold the first frame of the first format. */
  function Initial(t: Tables): State
    requires ValidTables(t)
  {
    var c := Filled(t, 0, 0);
    State(c.value, c.value, 0, None, 0, 0)
  }
}
