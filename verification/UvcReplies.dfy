/**
 What a host gets: the answer to each request, what each DATA event stores, and the program's own tables in numbers.
 Requests and blocks are written out in the numbers that go over the wire.
 */
module UvcReplies {
  import opened Machine
  import opened UvcNegotiation
  import opened UvcProofs

  // Which requests are for the streaming controls.

  /** Class requests in either direction to interface 1, for control 1 or 2; the other bits are free. */
  lemma StreamingExactly(req: Request)
    ensures IsStreaming(req) <==>
              && (req.bRequestType == 0x21 || req.bRequestType == 0xA1)
              && req.wIndex & 0xFF == 1 && (req.wValue & 0xFF00 == 0x0100 || req.wValue & 0xFF00 == 0x0200)
    ensures IsStreaming(req) ==> Selector(req) == if req.wValue & 0xFF00 == 0x0100 then 1 else 2
  {
  }

  /** Only SET_CUR selects, and everything that is not for the streaming controls gets an error. */
  lemma OtherRequests(t: Tables, s: State, req: Request)
    requires ValidTables(t)
    ensures !IsStreaming(req) ==> Reply(t, s, req) == Response(-51, Zeros)
    ensures Selected(req) == if IsStreaming(req) && req.bRequest == 1 then Selector(req) else 0
    ensures IsStreaming(req) && (req.bRequest < 0x81 || req.bRequest > 0x87) ==>
              Reply(t, s, req) == Response(34, Zeros)
  {
  }

  // Sizes.

  /** Two bytes for each pixel, in 32 bits; compressed, what is fixed for the video input, or else the image's size. */
  ghost predicate Carries(t: Tables, format: FormatInfo, frame: FrameInfo, size: nat) {
    && (format.fcc.Yuyv? ==> size == 2 * (frame.width * frame.height) % 0x1_0000_0000)
    && (format.fcc.Yuyv? && 2 * (frame.width * frame.height) < 0x1_0000_0000 ==>
          size == 2 * (frame.width * frame.height))
    && (format.fcc.Mjpeg? && t.videoinSelect ==> size == 614400)
    && (format.fcc.Mjpeg? && !t.videoinSelect ==> size == t.imageSize)
  }

  lemma MaximumCarries(t: Tables, format: FormatInfo, frame: FrameInfo)
    ensures Carries(t, format, frame, MaxFrameSize(t, format.fcc, frame))
  {
    assert frame.width * frame.height * 2 == 2 * (frame.width * frame.height);
  }

  /** In every reachable state both blocks carry the size of their entry. */
  lemma ReachableSizes(t: Tables, events: seq<Event>)
    requires ValidTables(t)
    ensures var s := Run(t, Initial(t), events);
            && NamesEntry(t, s.probe) && NamesEntry(t, s.commit)
            && Carries(t, FormatOf(t, s.probe), FrameOf(t, s.probe), s.probe.dwMaxVideoFrameSize)
            && Carries(t, FormatOf(t, s.commit), FrameOf(t, s.commit), s.commit.dwMaxVideoFrameSize)
  {
    AlwaysConsistent(t, events);
    var s := Run(t, Initial(t), events);
    MaximumCarries(t, FormatOf(t, s.probe), FrameOf(t, s.probe));
    MaximumCarries(t, FormatOf(t, s.commit), FrameOf(t, s.commit));
    hide Run, Initial, Carries, MaxFrameSize, ValidTables, Lists;
  }

  // The answers.

  /** The host is told a block for an entry, with its first interval and its size; nothing else in it is free. */
  ghost predicate Offers(t: Tables, reply: Response, iformat: nat, iframe: nat)
    requires 1 <= iformat <= |t.formats| && 1 <= iframe <= |t.formats[iformat - 1].frames|
  {
    var format, frame := t.formats[iformat - 1], t.formats[iformat - 1].frames[iframe - 1];
    && reply.length == 34 && reply.body.Control? && frame.intervals != []
    && var c := reply.body.c;
       && c == StreamingControl(1, iformat, iframe, frame.intervals[0], 0, 0, 0, 0, 0, c.dwMaxVideoFrameSize, 512, 0,
                                3, 1, 0, 1)
       && Carries(t, format, frame, c.dwMaxVideoFrameSize)
  }

  lemma FirstOffer(t: Tables, s: State, selector: int, req: bv8)
    requires ValidTables(t) && (req == 0x82 || req == 0x87)
    ensures t.formats[0].frames != [] && Offers(t, StreamingReply(t, s, selector, req), 1, 1)
  {
    MaximumCarries(t, t.formats[0], t.formats[0].frames[0]);
    hide Carries, MaxFrameSize;
  }

  lemma LastOffer(t: Tables, s: State, selector: int)
    requires ValidTables(t)
    ensures var n := |t.formats|; var m := FrameCount(t.formats[n - 1].frames);
            1 <= m <= |t.formats[n - 1].frames| && Offers(t, StreamingReply(t, s, selector, 0x83), n, m)
  {
    var n := |t.formats|;
    MaximumCarries(t, t.formats[n - 1], t.formats[n - 1].frames[FrameCount(t.formats[n - 1].frames) - 1]);
    hide Carries, MaxFrameSize;
  }

  /**
   The answers of section 4.3.1.1: GET_CUR the current block, GET_MIN and GET_DEF the first frame of the first format,
   GET_MAX the last frame of the last one, GET_RES zeros, GET_LEN and GET_INFO what the program puts there.
   */
  lemma HostIsTold(t: Tables, s: State, wValue: bv16, wIndex: bv16)
    requires ValidTables(t) && wIndex & 0xFF == 1 && (wValue & 0xFF00 == 0x0100 || wValue & 0xFF00 == 0x0200)
    ensures Reply(t, s, Request(0xA1, 0x81, wValue, wIndex))
            == Response(34, Control(if wValue & 0xFF00 == 0x0100 then s.probe else s.commit))
    ensures t.formats[0].frames != [] && Offers(t, Reply(t, s, Request(0xA1, 0x82, wValue, wIndex)), 1, 1)
    ensures Offers(t, Reply(t, s, Request(0xA1, 0x87, wValue, wIndex)), 1, 1)
    ensures var n := |t.formats|; var m := FrameCount(t.formats[n - 1].frames);
            1 <= m <= |t.formats[n - 1].frames| && Offers(t, Reply(t, s, Request(0xA1, 0x83, wValue, wIndex)), n, m)
    ensures Reply(t, s, Request(0xA1, 0x84, wValue, wIndex))
            == Response(34, Control(StreamingControl(0, 0, 0, 0, 0, 0, 0, 0, 0, 0, 0, 0, 0, 0, 0, 0)))
    ensures Reply(t, s, Request(0xA1, 0x85, wValue, wIndex)) == Response(2, Bytes([0x00, 0x22]))
    ensures Reply(t, s, Request(0xA1, 0x86, wValue, wIndex)) == Response(1, Bytes([0x03]))
  {
    var selector := Selector(Request(0xA1, 0x81, wValue, wIndex));
    FirstOffer(t, s, selector, 0x82);
    FirstOffer(t, s, selector, 0x87);
    LastOffer(t, s, selector);
    hide Offers, FilledBody, ValidTables;
  }

  /** Frame r of format f is offered under its index and under the one counted from the end, for format and frame. */
  lemma FilledFromBothEnds(t: Tables, f: nat, r: nat)
    requires ValidTables(t) && f < |t.formats| && r < FrameCount(t.formats[f].frames)
    ensures var n, m := |t.formats|, FrameCount(t.formats[f].frames);
            && Filled(t, r, f).Some? && Offers(t, Response(34, Control(Filled(t, r, f).value)), f + 1, r + 1)
            && Filled(t, r - m, f) == Filled(t, r, f - n) == Filled(t, r - m, f - n) == Filled(t, r, f)
  {
    assert ValidFrames(t.formats[f].frames);
    MaximumCarries(t, t.formats[f], t.formats[f].frames[r]);
    hide Carries, MaxFrameSize, FrameCount;
  }

  /** With any other index nothing is filled in. */
  lemma NothingElseFilled(t: Tables, iframe: int, iformat: int)
    requires ValidTables(t)
    ensures iformat >= |t.formats| || iformat + |t.formats| < 0 ==> Filled(t, iframe, iformat) == None
    ensures iformat < |t.formats| && iformat + |t.formats| >= 0 ==>
              var m := FrameCount(t.formats[if iformat < 0 then |t.formats| + iformat else iformat].frames);
              iframe >= m || iframe + m < 0 ==> Filled(t, iframe, iformat) == None
  {
  }

  /** At the start both controls hold the block that GET_MIN reports, and no format is current. */
  lemma StartsWithTheLeast(t: Tables, s: State, wValue: bv16, wIndex: bv16)
    requires ValidTables(t) && wIndex & 0xFF == 1 && (wValue & 0xFF00 == 0x0100 || wValue & 0xFF00 == 0x0200)
    ensures var c := Initial(t).probe;
            && Reply(t, s, Request(0xA1, 0x82, wValue, wIndex)) == Response(34, Control(c))
            && Initial(t) == State(c, c, 0, None, 0, 0)
  {
    OffersAreValid(t);
    hide ValidTables, ValidControl;
  }

  // What a DATA event stores.

  /**
   The index that is not below 1 and not above the count and nearest to the request, for format and frame; the first
   listed interval not below the request, or the last; the size of that entry; and twelve fields as they were.
   */
  lemma NegotiatesExactly(t: Tables, target: StreamingControl, ctrl: StreamingControl)
    requires ValidTables(t)
    ensures var c := Negotiated(t, target, ctrl);
            && NamesEntry(t, c)
            && c.bFormatIndex == (if ctrl.bFormatIndex < 1 then 1
                                  else if ctrl.bFormatIndex > |t.formats| then |t.formats| else ctrl.bFormatIndex)
            && (var n := FrameCount(FormatOf(t, c).frames);
                c.bFrameIndex == if ctrl.bFrameIndex < 1 then 1 else if ctrl.bFrameIndex > n then n
                                 else ctrl.bFrameIndex)
            && TakesInterval(FrameOf(t, c).intervals, ctrl.dwFrameInterval, c.dwFrameInterval)
            && Carries(t, FormatOf(t, c), FrameOf(t, c), c.dwMaxVideoFrameSize)
            && c == target.(bFormatIndex := c.bFormatIndex, bFrameIndex := c.bFrameIndex,
                            dwFrameInterval := c.dwFrameInterval, dwMaxVideoFrameSize := c.dwMaxVideoFrameSize)
  {
    var c := Negotiated(t, target, ctrl);
    var a := FrameOf(t, c).intervals;
    MaximumCarries(t, FormatOf(t, c), FrameOf(t, c));
    assert TakesInterval(a, ctrl.dwFrameInterval, c.dwFrameInterval) by {
      assert c.dwFrameInterval == a[Pick(a, ctrl.dwFrameInterval)];
      IntervalTaken(a, ctrl.dwFrameInterval);
      hide *;
    }
    hide Carries, MaxFrameSize, TakesInterval;
  }

  ghost predicate TakesInterval(a: seq<nat>, request: nat, interval: nat) {
    exists k :: 0 <= k < IntervalCount(a) && a[k] == interval && (interval >= request || k == IntervalCount(a) - 1)
                && forall j :: 0 <= j < k ==> a[j] < request
  }

  lemma IntervalTaken(a: seq<nat>, request: nat)
    requires ValidIntervals(a)
    ensures TakesInterval(a, request, a[Pick(a, request)])
  {
  }

  /** Without a DATA event the blocks and the current format stay. */
  lemma {:induction false} OnlyDataChanges(t: Tables, s: State, events: seq<Event>)
    requires ValidTables(t) && forall j :: 0 <= j < |events| ==> !events[j].Data?
    ensures Run(t, s, events) == s.(control := Run(t, s, events).control)
    decreases |events|
  {
    hide Selected, ValidTables;
    if events != [] {
      var n := |events| - 1;
      OnlyDataChanges(t, s, events[..n]);
      assert !events[n].Data?;
    }
  }

  // The program's own tables.

  /** At the start both controls hold the smallest YUYV frame, and no format is current. */
  lemma DemoStarts(videoinSelect: bool, imageSize: nat)
    ensures ValidTables(DemoTables(videoinSelect, imageSize))
    ensures var first := StreamingControl(1, 1, 1, 666666, 0, 0, 0, 0, 0, 614400, 512, 0, 3, 1, 0, 1);
            Initial(DemoTables(videoinSelect, imageSize)) == State(first, first, 0, None, 0, 0)
  {
    DemoTablesAreGood(videoinSelect, imageSize);
    DemoLists();
    hide ValidTables, FrameCount;
  }

  /** The least and the greatest offer in numbers. */
  lemma DemoOffers(videoinSelect: bool, imageSize: nat, s: State, wValue: bv16, wIndex: bv16)
    requires wIndex & 0xFF == 1 && (wValue & 0xFF00 == 0x0100 || wValue & 0xFF00 == 0x0200)
    ensures ValidTables(DemoTables(videoinSelect, imageSize))
    ensures Reply(DemoTables(videoinSelect, imageSize), s, Request(0xA1, 0x82, wValue, wIndex))
            == Response(34, Control(StreamingControl(1, 1, 1, 666666, 0, 0, 0, 0, 0, 614400, 512, 0, 3, 1, 0, 1)))
    ensures Reply(DemoTables(videoinSelect, imageSize), s, Request(0xA1, 0x83, wValue, wIndex))
            == Response(34, Control(StreamingControl(1, 2, 2, 50000000, 0, 0, 0, 0, 0,
                                                     if videoinSelect then 614400 else imageSize, 512, 0, 3, 1, 0, 1)))
  {
    var t := DemoTables(videoinSelect, imageSize);
    DemoTablesAreGood(videoinSelect, imageSize);
    DemoLists();
    HostIsTold(t, s, wValue, wIndex);
    hide ValidTables, FrameCount, Reply;
  }

  /** Whatever interval is asked for, the larger YUYV frame is stored with its only interval and two bytes a pixel. */
  lemma DemoNegotiates(videoinSelect: bool, imageSize: nat, target: StreamingControl, request: nat)
    ensures ValidTables(DemoTables(videoinSelect, imageSize))
    ensures Negotiated(DemoTables(videoinSelect, imageSize), target,
                       ZERO_CONTROL.(bFormatIndex := 1, bFrameIndex := 2, dwFrameInterval := request))
            == target.(bFormatIndex := 1, bFrameIndex := 2, dwFrameInterval := 50000000, dwMaxVideoFrameSize := 1843200)
  {
    var t := DemoTables(videoinSelect, imageSize);
    DemoTablesAreGood(videoinSelect, imageSize);
    DemoLists();
    NegotiatesExactly(t, target, ZERO_CONTROL.(bFormatIndex := 1, bFrameIndex := 2, dwFrameInterval := request));
    hide ValidTables, FrameCount, IntervalCount, Negotiated;
  }
}
