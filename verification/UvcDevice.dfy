/**
 The event handlers of the video gadget: a device whose fields the handlers update in place.
 */
module UvcDevice {
  import opened Machine
  import opened UvcNegotiation

  class Device {
    const tables: Tables
    var probe: StreamingControl
    var commit: StreamingControl
    var control: int
    var fcc: Option<Fcc>
    var width: nat
    var height: nat

    ghost function Current(): State
      reads this
    {
      State(probe, commit, control, fcc, width, height)
    }

    /** A device record that was just opened: all zero. */
    constructor (t: Tables)
      ensures tables == t
      ensures Current() == State(ZERO_CONTROL, ZERO_CONTROL, 0, None, 0, 0)
    {
      tables := t;
      probe, commit, control := ZERO_CONTROL, ZERO_CONTROL, 0;
      fcc, width, height := None, 0, 0;
    }

    /** Counts the frames before the one of width 0. */
    method CountFrames(format: FormatInfo) returns (nframes: nat)
      requires ValidFrames(format.frames)
      ensures nframes == FrameCount(format.frames)
    {
      nframes := 0;
      while format.frames[nframes].width != 0
        invariant nframes <= FrameCount(format.frames)
        decreases FrameCount(format.frames) - nframes
      {
        nframes := nframes + 1;
      }
    }

    method MaximumSize(format: FormatInfo, frame: FrameInfo) returns (size: nat)
      ensures size == MaxFrameSize(tables, format.fcc, frame)
    {
      match format.fcc
      case Yuyv => size := frame.width * frame.height * 2 % TWO_TO_THE_32;
      case Mjpeg =>
        if tables.videoinSelect {
          size := 600 * 1024;
        } else {
          size := tables.imageSize;
        }
    }

    /** Fills in a control block, or leaves it as it is when there is no such format or frame. */
    method FillStreamingControl(ctrl: StreamingControl, iframe: int, iformat: int) returns (filled: StreamingControl)
      requires ValidTables(tables)
      ensures filled == (match Filled(tables, iframe, iformat) case Some(c) => c case None => ctrl)
    {
      filled := ctrl;
      var fi := iformat;
      if fi < 0 {
        fi := |tables.formats| + fi;
      }
      if fi < 0 || fi >= |tables.formats| {
        return;
      }
      var format := tables.formats[fi];
      var nframes := CountFrames(format);
      var ri := iframe;
      if ri < 0 {
        ri := nframes + ri;
      }
      if ri < 0 || ri >= nframes {
        return;
      }
      var frame := format.frames[ri];
      var size := MaximumSize(format, frame);
      filled := ZERO_CONTROL;
      filled := filled.(bmHint := 1, bFormatIndex := fi + 1, bFrameIndex := ri + 1);
      filled := filled.(dwFrameInterval := frame.intervals[0]);
      filled := filled.(dwMaxVideoFrameSize := size);
      filled := filled.(dwMaxPayloadTransferSize := 512, bmFramingInfo := 3);
      filled := filled.(bPreferedVersion := 1, bMaxVersion := 1);
    }

    /** Sets both controls to the first frame of the first format. */
    method Init()
      requires ValidTables(tables)
      modifies `probe, `commit
      ensures probe == Initial(tables).probe && commit == Initial(tables).commit
    {
      probe := FillStreamingControl(probe, 0, 0);
      commit := FillStreamingControl(commit, 0, 0);
    }

    /** A request to the streaming interface; the response arrives zeroed, with an error length. */
    method ProcessStreaming(req: bv8, cs: bv16) returns (resp: Response)
      requires ValidTables(tables)
      modifies `control
      ensures cs != 1 && cs != 2 ==> resp == NO_RESPONSE && control == old(control)
      ensures cs == 1 || cs == 2 ==>
                var selector := if cs == 1 then VS_PROBE_CONTROL else VS_COMMIT_CONTROL;
                && resp == StreamingReply(tables, Current(), selector, req)
                && control == (if req == 0x01 then selector else old(control))
    {
      resp := NO_RESPONSE;
      if cs != 1 && cs != 2 {
        return;
      }
      resp := resp.(length := 34);
      if req == 0x01 {
        control := if cs == 1 then VS_PROBE_CONTROL else VS_COMMIT_CONTROL;
        resp := resp.(length := 34);
      } else if req == 0x81 {
        if cs == 1 {
          resp := resp.(body := Control(probe));
        } else {
          resp := resp.(body := Control(commit));
        }
      } else if req == 0x82 || req == 0x83 || req == 0x87 {
        var filled := FillStreamingControl(ZERO_CONTROL, if req == 0x83 then -1 else 0, if req == 0x83 then -1 else 0);
        resp := resp.(body := Control(filled));
      } else if req == 0x84 {
        resp := resp.(body := Control(ZERO_CONTROL));
      } else if req == 0x85 {
        resp := Response(2, Bytes([0x00, 0x22]));
      } else if req == 0x86 {
        resp := Response(1, Bytes([0x03]));
      }
    }

    method ProcessClass(req: Request) returns (resp: Response)
      requires ValidTables(tables) && req.bRequestType & 0x60 == 0x20
      modifies `control
      ensures resp == Reply(tables, old(Current()), req)
      ensures control == (if IsStreaming(req) && req.bRequest == 0x01 then Selector(req) else old(control))
    {
      resp := NO_RESPONSE;
      if req.bRequestType & 0x1F != 0x01 {
        return;
      }
      if req.wIndex & 0xFF == 1 {
        resp := ProcessStreaming(req.bRequest, req.wValue >> 8);
      }
    }

    method ProcessSetup(req: Request) returns (resp: Response)
      requires ValidTables(tables)
      modifies `control
      ensures control == Selected(req)
      ensures resp == Reply(tables, old(Current()), req)
    {
      resp := NO_RESPONSE;
      control := 0;
      if req.bRequestType & 0x60 == 0x20 {
        resp := ProcessClass(req);
      }
    }

    /** Steps the interval pointer while the interval is too short and another one follows. */
    method FindInterval(intervals: seq<nat>, request: nat) returns (interval: nat)
      requires ValidIntervals(intervals)
      ensures interval == Pick(intervals, request)
    {
      interval := 0;
      while intervals[interval] < request && intervals[interval + 1] != 0
        invariant interval < IntervalCount(intervals)
        invariant forall j :: 0 <= j < interval ==> intervals[j] < request
        decreases IntervalCount(intervals) - interval
      {
        interval := interval + 1;
      }
    }

    /** The entry of the tables that a requested block leads to. */
    method Choose(ctrl: StreamingControl)
      returns (iformat: nat, iframe: nat, format: FormatInfo, frame: FrameInfo, interval: nat)
      requires ValidTables(tables)
      ensures Chosen(tables, ctrl) == Choice(iformat, iframe, interval)
      ensures format == ChosenFormat(tables, ctrl) && frame == ChosenFrame(tables, ctrl)
    {
      iformat := Clamp(ctrl.bFormatIndex, 1, |tables.formats|);
      format := tables.formats[iformat - 1];
      var nframes := CountFrames(format);
      iframe := Clamp(ctrl.bFrameIndex, 1, nframes);
      frame := format.frames[iframe - 1];
      var k := FindInterval(frame.intervals, ctrl.dwFrameInterval);
      interval := frame.intervals[k];
    }

    /** Rewrites the four negotiated fields of the target and reports the table entry they come from. */
    method Negotiate(oldTarget: StreamingControl, ctrl: StreamingControl)
      returns (target: StreamingControl, format: FormatInfo, frame: FrameInfo)
      requires ValidTables(tables)
      ensures target == Negotiated(tables, oldTarget, ctrl)
      ensures format == ChosenFormat(tables, ctrl) && frame == ChosenFrame(tables, ctrl)
    {
      hide *;
      var iformat, iframe, interval;
      iformat, iframe, format, frame, interval := Choose(ctrl);
      target := oldTarget;
      target := target.(bFormatIndex := iformat);
      target := target.(bFrameIndex := iframe);
      var size := MaximumSize(format, frame);
      target := target.(dwMaxVideoFrameSize := size);
      target := target.(dwFrameInterval := interval);
      NegotiatedFields(tables, oldTarget, ctrl);
    }

    method ProcessData(ctrl: StreamingControl)
      requires ValidTables(tables)
      modifies `probe, `commit, `fcc, `width, `height
      ensures Current() == AfterData(tables, old(Current()), ctrl)
    {
      hide Negotiated, ChosenFormat, ChosenFrame, ValidTables;
      var target;
      if control == VS_PROBE_CONTROL {
        target := probe;
      } else if control == VS_COMMIT_CONTROL {
        target := commit;
      } else {
        return;
      }
      var format, frame;
      target, format, frame := Negotiate(target, ctrl);
      if control == VS_PROBE_CONTROL {
        probe := target;
      } else {
        commit := target;
      }
      if control == VS_COMMIT_CONTROL {
        fcc := Some(format.fcc);
        width := frame.width;
        height := frame.height;
      }
    }

    /** One event; only SETUP events are answered. */
    method Process(e: Event) returns (resp: Option<Response>)
      requires ValidTables(tables)
      modifies this
      ensures Current() == After(tables, old(Current()), e)
      ensures resp == match e case Setup(req) => Some(Reply(tables, old(Current()), req)) case _ => None
    {
      resp := None;
      match e
      case Setup(req) =>
        var r := ProcessSetup(req);
        resp := Some(r);
      case Data(ctrl) =>
        ProcessData(ctrl);
      case Other =>
    }

    /** The main loop, over the events that arrive. */
    method Serve(events: seq<Event>)
      requires ValidTables(tables)
      requires Current() == State(ZERO_CONTROL, ZERO_CONTROL, 0, None, 0, 0)
      modifies this
      ensures Current() == Run(tables, Initial(tables), events)
    {
      Init();
      var i := 0;
      while i < |events|
        invariant 0 <= i <= |events|
        invariant Current() == Run(tables, Initial(tables), events[..i])
      {
        assert events[..i + 1][..i] == events[..i];
        var resp := Process(events[i]);
        i := i + 1;
      }
      assert events[..|events|] == events;
    }
  }
}
