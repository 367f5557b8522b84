/**
 The sliding decode window: the panel-sized window of the picture that is decoded moves one block per
 step towards the lower right corner and back.  All window fields are unsigned 32-bit.
 */
module WindowDecode {
  import opened Machine

  /** The window in blocks of 16 by 16 pixels, both ends included. */
  datatype Window = Window(xStart: U32, xEnd: U32, yStart: U32, yEnd: U32)

  function Inc(x: U32): (y: U32)
    ensures (y - x - 1) % TWO_TO_THE_32 == 0
  {
    if x == TWO_TO_THE_32 - 1 then 0 else x + 1
  }

  function Dec(x: U32): (y: U32)
    ensures (x - y - 1) % TWO_TO_THE_32 == 0
  {
    if x == 0 then TWO_TO_THE_32 - 1 else x - 1
  }

  function Advance(w: Window): Window {
    Window(Inc(w.xStart), Inc(w.xEnd), Inc(w.yStart), Inc(w.yEnd))
  }

  function Retreat(w: Window): Window {
    Window(Dec(w.xStart), Dec(w.xEnd), Dec(w.yStart), Dec(w.yEnd))
  }

  /** The sizes of the picture and of the panel, in pixels. */
  datatype Geometry = Geometry(width: nat, height: nat, xres: U32, yres: U32) {
    /** The picture sizes are ints. */
    predicate Valid() {
      width < 0x8000_0000 && height < 0x8000_0000
    }

    /** The picture has a whole block along one of its sides. */
    predicate HasBlock() {
      width >= 16 || height >= 16
    }
  }

  /** The index of the last block, as the comparison with an unsigned field reads it. */
  function LastBlock(size: nat): (last: U32)
    requires size < 0x8000_0000
  {
    if size < 16 then TWO_TO_THE_32 - 1 else size / 16 - 1
  }

  /** The state between two decodes. */
  datatype View = View(window: Window, direction: bool, loop: bool)

  function StartView(g: Geometry): View {
    View(Window(0, Dec(g.xres / 16), 0, Dec(g.yres / 16)), false, true)
  }

  function Turn(v: View, lastX: U32, lastY: U32): View {
    var w := v.window;
    var loop := v.loop && !((w.xStart == 0 || w.yStart == 0) && v.direction);
    var moved := if v.direction then Retreat(w) else Advance(w);
    if lastX < moved.xEnd || lastY < moved.yEnd then View(Retreat(moved), true, loop)
    else View(moved, v.direction, loop)
  }

  function Views(g: Geometry, n: nat): View
    requires g.Valid()
  {
    if n == 0 then StartView(g) else Turn(Views(g, n - 1), LastBlock(g.width), LastBlock(g.height))
  }

  /** How far the window can move along one side: not at all when the panel is at least as large as the picture. */
  function Room(size: nat, res: nat): (room: nat)
    ensures size / 16 >= res / 16 ==> room == size / 16 - res / 16
    ensures size / 16 <= res / 16 ==> room == 0
  {
    if size / 16 < res / 16 then 0 else size / 16 - res / 16
  }

  /** The distance moved; a side shorter than one block does not limit it. */
  function Distance(g: Geometry): (k: nat)
    requires g.HasBlock()
    ensures g.width >= 16 ==> k <= Room(g.width, g.xres)
    ensures g.height >= 16 ==> k <= Room(g.height, g.yres)
    ensures (g.width >= 16 && k == Room(g.width, g.xres)) || (g.height >= 16 && k == Room(g.height, g.yres))
  {
    if g.width < 16 then Room(g.height, g.yres)
    else if g.height < 16 then Room(g.width, g.xres)
    else if Room(g.width, g.xres) <= Room(g.height, g.yres) then Room(g.width, g.xres)
    else Room(g.height, g.yres)
  }

  /**
   The window leaves the corner, and the panel is shorter than a block along a side that has one.  On the way back the
   end of the window then lies below zero at the corner, and the window steps over it.
   */
  predicate MissesCorner(g: Geometry)
    requires g.HasBlock()
  {
    Distance(g) > 0 && ((g.xres < 16 && g.width >= 16) || (g.yres < 16 && g.height >= 16))
  }

  /** The last block of a side that starts at block s; a side shorter than a block ends before it starts. */
  function EndOf(s: U32, res: U32): U32 {
    var end := s + res / 16 - 1;
    if end < 0 then TWO_TO_THE_32 - 1 else if end >= TWO_TO_THE_32 then end - TWO_TO_THE_32 else end
  }

  /** The panel-sized window that starts at block s in both directions. */
  function At(g: Geometry, s: U32): Window {
    Window(s, EndOf(s, g.xres), s, EndOf(s, g.yres))
  }

  lemma StepsOfAt(g: Geometry, s: U32)
    ensures Retreat(At(g, s)) == At(g, Dec(s)) && Advance(At(g, s)) == At(g, Inc(s))
    ensures Advance(Retreat(At(g, s))) == At(g, s) && Retreat(Advance(At(g, s))) == At(g, s)
    ensures StartView(g) == View(At(g, 0), false, true)
  {
    EndSteps(s, g.xres);
    EndSteps(s, g.yres);
    EndStarts(g.xres);
    EndStarts(g.yres);
    hide EndOf, Inc, Dec;
  }

  lemma EndSteps(s: U32, res: U32)
    ensures Dec(EndOf(s, res)) == EndOf(Dec(s), res) && Inc(EndOf(s, res)) == EndOf(Inc(s), res)
    ensures Inc(Dec(EndOf(s, res))) == EndOf(s, res) && Dec(Inc(EndOf(s, res))) == EndOf(s, res)
    ensures Inc(Dec(s)) == s && Dec(Inc(s)) == s
  {
  }

  lemma EndStarts(res: U32)
    ensures EndOf(0, res) == Dec(res / 16)
  {
  }

  /** 0, 1, ..., k, k, ..., 1, 0. */
  function Ramp(k: nat, i: nat): (s: nat)
    requires i < 2 * (k + 1)
    ensures s <= k
  {
    if i <= k then i else 2 * k + 1 - i
  }

  /** The decodes visit the ramp and then end; the view tells where the next decode happens and in which direction. */
  predicate OnRamp(v: View, g: Geometry, k: nat, i: nat)
    requires k < 0x8000_0000
  {
    if i < 2 * (k + 1) then v == View(At(g, Ramp(k, i)), i > k, true) else !v.loop
  }

  lemma DistanceIsSmall(g: Geometry)
    requires g.Valid() && g.HasBlock()
    ensures var k := Distance(g);
            && k < 0x800_0000
            && (LastBlock(g.width) < g.xres / 16 + k || LastBlock(g.height) < g.yres / 16 + k)
            && (k > 0 ==> g.xres / 16 - 1 + k <= LastBlock(g.width) && g.yres / 16 - 1 + k <= LastBlock(g.height))
            && (k > 0 && !MissesCorner(g) ==> g.xres >= 16 || LastBlock(g.width) == TWO_TO_THE_32 - 1)
            && (k > 0 && !MissesCorner(g) ==> g.yres >= 16 || LastBlock(g.height) == TWO_TO_THE_32 - 1)
  {
  }

  /** Whether the window at block s is beyond the picture, for the comparison after a step. */
  predicate TooFar(g: Geometry, s: U32)
    requires g.Valid()
  {
    LastBlock(g.width) < EndOf(s, g.xres) || LastBlock(g.height) < EndOf(s, g.yres)
  }

  lemma TurnAt(g: Geometry, s: U32, direction: bool)
    requires g.Valid()
    ensures var to := if direction then Dec(s) else Inc(s);
            Turn(View(At(g, s), direction, true), LastBlock(g.width), LastBlock(g.height))
            == (if TooFar(g, to) then View(At(g, Dec(to)), true, !(s == 0 && direction))
                else View(At(g, to), direction, !(s == 0 && direction)))
  {
    hide LastBlock, EndOf, At;
    StepsOfAt(g, s);
    StepsOfAt(g, Dec(s));
    StepsOfAt(g, Inc(s));
    assert At(g, s) == Window(s, EndOf(s, g.xres), s, EndOf(s, g.yres)) by {
      AtMeans(g, s);
    }
    AtMeans(g, Dec(s));
    AtMeans(g, Inc(s));
  }

  function Wrapped(x: int): U32 { x % 0x1_0000_0000 }

  /**
   One turn in numbers, for any window: every field moves by one block, modulo 2^32, and by another one back when an end
   has got behind the last block; then the way back begins.  The loop ends on the way back at either edge.
   */
  lemma TurnInNumbers(v: View, lastX: U32, lastY: U32)
    ensures var w, t := v.window, Turn(v, lastX, lastY);
            var step := if v.direction then -1 else 1;
            var over := Wrapped(w.xEnd + step) > lastX || Wrapped(w.yEnd + step) > lastY;
            var move := if over then step - 1 else step;
            && t.window == Window(Wrapped(w.xStart + move), Wrapped(w.xEnd + move),
                                  Wrapped(w.yStart + move), Wrapped(w.yEnd + move))
            && (t.direction <==> v.direction || over)
            && (t.loop <==> v.loop && !(v.direction && (w.xStart == 0 || w.yStart == 0)))
  {
    var w := v.window;
    StepsWrap(w.xStart);
    StepsWrap(w.xEnd);
    StepsWrap(w.yStart);
    StepsWrap(w.yEnd);
    hide Inc, Dec, Wrapped;
  }

  lemma StepsWrap(x: U32)
    ensures Inc(x) == Wrapped(x + 1) && Dec(x) == Wrapped(x - 1)
    ensures Dec(Inc(x)) == Wrapped(x + 0) && Dec(Dec(x)) == Wrapped(x - 2)
  {
  }

  lemma AtMeans(g: Geometry, s: U32)
    ensures At(g, s) == Window(s, EndOf(s, g.xres), s, EndOf(s, g.yres))
  {
  }

  /** On the ramp, the comparison stops the window exactly one step behind its end. */
  lemma TooFarOnRamp(g: Geometry, s: nat)
    requires g.Valid() && g.HasBlock() && s <= Distance(g) + 1 < 0x8000_0000
    ensures s == Distance(g) + 1 ==> TooFar(g, s)
    ensures 0 < s <= Distance(g) ==> !TooFar(g, s)
    ensures s == 0 < Distance(g) ==> (TooFar(g, s) <==> MissesCorner(g))
  {
    DistanceIsSmall(g);
  }

  lemma TurnOnRamp(v: View, g: Geometry, i: nat)
    requires g.Valid() && g.HasBlock() && !MissesCorner(g) && Distance(g) < 0x800_0000
    requires OnRamp(v, g, Distance(g), i)
    ensures OnRamp(Turn(v, LastBlock(g.width), LastBlock(g.height)), g, Distance(g), i + 1)
  {
    var k := Distance(g);
    if i < 2 * (k + 1) {
      var s := Ramp(k, i);
      TurnAt(g, s, i > k);
      if i <= k {
        TooFarOnRamp(g, s + 1);
      } else if s > 0 {
        TooFarOnRamp(g, s - 1);
      }
      hide LastBlock, Distance, At, TooFar, MissesCorner, Turn;
      assert v == View(At(g, s), i > k, true);
    } else {
      hide LastBlock, Distance, At, MissesCorner, Advance, Retreat;
    }
  }

  lemma StartOnRamp(g: Geometry, k: nat)
    requires g.Valid() && k < 0x8000_0000
    ensures Views(g, 0) == StartView(g) && OnRamp(StartView(g), g, k, 0)
  {
    StepsOfAt(g, 0);
    hide At;
  }

  lemma ViewsTurn(g: Geometry, n: nat)
    requires g.Valid() && n > 0
    ensures Views(g, n) == Turn(Views(g, n - 1), LastBlock(g.width), LastBlock(g.height))
  {
    hide Turn, StartView, LastBlock;
  }

  lemma {:induction false} ViewsOnRamp(g: Geometry, n: nat)
    requires g.Valid() && g.HasBlock() && !MissesCorner(g)
    ensures Distance(g) < 0x800_0000
    ensures OnRamp(Views(g, n), g, Distance(g), n)
  {
    hide *;
    DistanceIsSmall(g);
    if n == 0 {
      StartOnRamp(g, Distance(g));
    } else {
      ViewsTurn(g, n);
      ViewsOnRamp(g, n - 1);
      TurnOnRamp(Views(g, n - 1), g, n - 1);
    }
  }

  // Where the loop does not end.

  lemma {:induction false} TooSmallNeverTurns(g: Geometry, n: nat)
    requires g.Valid() && !g.HasBlock()
    ensures !Views(g, n).direction && Views(g, n).loop
  {
    if n > 0 {
      TooSmallNeverTurns(g, n - 1);
    }
  }

  /** On the way out not beyond the end, or on the way back not at the corner. */
  predicate Circles(v: View, g: Geometry, k: nat, s: U32) {
    v.loop && v.window == At(g, s) && if v.direction then s > 0 else s <= k
  }

  /** On the way back the window steps from the second block over the first, and at most over one. */
  lemma TurnCircles(v: View, g: Geometry, s: U32) returns (next: U32)
    requires g.Valid() && g.HasBlock() && MissesCorner(g) && Distance(g) < 0x800_0000
    requires Circles(v, g, Distance(g), s)
    ensures Circles(Turn(v, LastBlock(g.width), LastBlock(g.height)), g, Distance(g), next)
  {
    var k := Distance(g);
    assert k > 0;
    TurnAt(g, s, v.direction);
    if v.direction {
      next := if TooFar(g, Dec(s)) then Dec(Dec(s)) else Dec(s);
      if s <= 2 {
        TooFarOnRamp(g, s - 1);
      }
    } else {
      TooFarOnRamp(g, s + 1);
      next := if s < k then s + 1 else s;
    }
    hide LastBlock, Distance, Turn, At, MissesCorner, TooFar;
  }

  lemma {:induction false} NarrowNeverEnds(g: Geometry, n: nat) returns (s: U32)
    requires g.Valid() && g.HasBlock() && MissesCorner(g)
    ensures Circles(Views(g, n), g, Distance(g), s)
  {
    DistanceIsSmall(g);
    if n == 0 {
      s := 0;
      StepsOfAt(g, 0);
    } else {
      var before := NarrowNeverEnds(g, n - 1);
      s := TurnCircles(Views(g, n - 1), g, before);
    }
    hide LastBlock, Distance, Turn, At, MissesCorner, StartView;
  }

  ghost predicate Ends(g: Geometry)
    requires g.Valid()
  {
    exists n :: !Views(g, n).loop
  }

  /**
   The loop ends exactly when the picture has a whole block along one of its sides and the window does not miss the
   corner on its way back.
   */
  lemma EndsExactly(g: Geometry)
    requires g.Valid()
    ensures Ends(g) <==> g.HasBlock() && !MissesCorner(g)
  {
    hide Views, Distance, MissesCorner, OnRamp, At;
    if g.HasBlock() && !MissesCorner(g) {
      var n := 2 * (Distance(g) + 1);
      ViewsOnRamp(g, n);
      assert !Views(g, n).loop by {
        EndOfRamp(Views(g, n), g, Distance(g));
      }
    } else {
      forall n: nat
        ensures Views(g, n).loop
      {
        if g.HasBlock() {
          var s := NarrowNeverEnds(g, n);
        } else {
          TooSmallNeverTurns(g, n);
        }
      }
    }
  }

  lemma EndOfRamp(v: View, g: Geometry, k: nat)
    requires k < 0x8000_0000 && OnRamp(v, g, k, 2 * (k + 1))
    ensures !v.loop
  {
  }

  /** The windows decoded, in order. */
  function Path(g: Geometry): (path: seq<Window>)
    requires g.Valid() && g.HasBlock()
  {
    DistanceIsSmall(g);
    var k := Distance(g);
    seq(2 * (k + 1), i requires 0 <= i < 2 * (k + 1) => At(g, Ramp(k, i)))
  }

  lemma PathShape(g: Geometry)
    requires g.Valid() && g.HasBlock()
    ensures var k := Distance(g);
            && k < 0x800_0000
            && |Path(g)| == 2 * (k + 1)
            && forall i :: 0 <= i < 2 * (k + 1) ==> Path(g)[i] == At(g, Ramp(k, i))
  {
    DistanceIsSmall(g);
  }

  predicate Inside(w: Window, width: nat, height: nat) {
    w.xStart <= w.xEnd < width / 16 && w.yStart <= w.yEnd < height / 16
  }

  /** As many blocks as the panel has, in unsigned arithmetic. */
  predicate IsPanelSized(w: Window, g: Geometry) {
    && (w.xEnd - w.xStart + 1 - g.xres / 16) % TWO_TO_THE_32 == 0
    && (w.yEnd - w.yStart + 1 - g.yres / 16) % TWO_TO_THE_32 == 0
  }

  lemma AtProperties(g: Geometry, s: U32)
    requires g.Valid() && s < 0x8000_0000
    ensures IsPanelSized(At(g, s), g)
    ensures Inside(At(g, s), g.width, g.height) <==>
              && 16 <= g.xres && s + g.xres / 16 <= g.width / 16
              && 16 <= g.yres && s + g.yres / 16 <= g.height / 16
  {
  }

  /** The panel has a block along both sides and no more of them than the picture. */
  predicate PanelFits(g: Geometry) {
    1 <= g.xres / 16 <= g.width / 16 && 1 <= g.yres / 16 <= g.height / 16
  }

  lemma PathMirrors(g: Geometry)
    requires g.Valid() && g.HasBlock()
    ensures forall i :: 0 <= i < |Path(g)| ==> Path(g)[i] == Path(g)[|Path(g)| - 1 - i]
  {
    var path, k := Path(g), Distance(g);
    PathShape(g);
    hide Path, At, Distance;
    forall i | 0 <= i < |path|
      ensures path[i] == path[|path| - 1 - i]
    {
      assert Ramp(k, i) == Ramp(k, |path| - 1 - i);
    }
  }

  lemma PathInside(g: Geometry, i: nat)
    requires g.Valid() && g.HasBlock() && i < |Path(g)|
    ensures IsPanelSized(Path(g)[i], g)
    ensures PanelFits(g) ==> Inside(Path(g)[i], g.width, g.height)
  {
    PathShape(g);
    AtProperties(g, Ramp(Distance(g), i));
    if PanelFits(g) {
      WithinDistance(g);
    }
    hide Path, At, Inside, Distance, IsPanelSized;
  }

  lemma PathStart(g: Geometry)
    requires g.Valid() && g.HasBlock()
    ensures |Path(g)| > 0 && Path(g)[0] == At(g, 0)
    ensures Inside(Path(g)[0], g.width, g.height) ==> PanelFits(g)
  {
    PathShape(g);
    AtProperties(g, 0);
    hide Path, At, Inside, Distance, IsPanelSized;
  }

  /**
   The windows go out and come back the same way, keep the size of the panel, start and end at the corner, and lie
   inside the picture exactly when the panel fits.
   */
  lemma PathProperties(g: Geometry)
    requires g.Valid() && g.HasBlock()
    ensures var path := Path(g);
            && (forall i :: 0 <= i < |path| ==> path[i] == path[|path| - 1 - i])
            && (forall i :: 0 <= i < |path| ==> IsPanelSized(path[i], g))
            && |path| > 0 && path[0] == At(g, 0)
            && ((forall i :: 0 <= i < |path| ==> Inside(path[i], g.width, g.height)) <==> PanelFits(g))
  {
    hide *;
    PathMirrors(g);
    PathStart(g);
    forall i | 0 <= i < |Path(g)|
      ensures IsPanelSized(Path(g)[i], g)
      ensures PanelFits(g) ==> Inside(Path(g)[i], g.width, g.height)
    {
      PathInside(g, i);
    }
  }

  lemma WithinDistance(g: Geometry)
    requires PanelFits(g)
    ensures g.HasBlock() && Distance(g) + g.xres / 16 <= g.width / 16 && Distance(g) + g.yres / 16 <= g.height / 16
  {
  }

  /** When the panel fits, the furthest window touches the right or the lower edge of the picture. */
  lemma FurthestTouchesTheEdge(g: Geometry)
    requires g.Valid() && PanelFits(g)
    ensures var acrossX, acrossY := g.width / 16 - g.xres / 16, g.height / 16 - g.yres / 16;
            && g.HasBlock() && Distance(g) == (if acrossX <= acrossY then acrossX else acrossY)
            && Distance(g) < |Path(g)|
            && var w := Path(g)[Distance(g)];
               || (w.xEnd == g.width / 16 - 1 && w.yEnd < g.height / 16)
               || (w.xEnd < g.width / 16 && w.yEnd == g.height / 16 - 1)
  {
    PathShape(g);
    hide Path;
  }

  /** When the panel fits, the windows are those of its size at blocks 0, 1, ..., k, k, ..., 1, 0 of the diagonal. */
  lemma PathInNumbers(g: Geometry, i: nat)
    requires g.Valid() && PanelFits(g) && g.HasBlock() && i < |Path(g)|
    ensures var k := Distance(g); var s := if i <= k then i else 2 * k + 1 - i;
            && |Path(g)| == 2 * k + 2
            && Path(g)[i] == Window(s, s + g.xres / 16 - 1, s, s + g.yres / 16 - 1)
  {
    PathShape(g);
    WithinDistance(g);
    hide Path, Distance;
  }

  /** The fields of the decode parameters that the loop steps. */
  class DecodeParam {
    var xStart: U32
    var xEnd: U32
    var yStart: U32
    var yEnd: U32

    ghost function Current(): Window
      reads this
    {
      Window(xStart, xEnd, yStart, yEnd)
    }

    method StepForward()
      modifies this
      ensures Current() == Advance(old(Current()))
    {
      xStart := Inc(xStart);
      xEnd := Inc(xEnd);
      yStart := Inc(yStart);
      yEnd := Inc(yEnd);
    }

    method StepBack()
      modifies this
      ensures Current() == Retreat(old(Current()))
    {
      xStart := Dec(xStart);
      xEnd := Dec(xEnd);
      yStart := Dec(yStart);
      yEnd := Dec(yEnd);
    }

    /** What follows one decode. */
    method Slide(lastX: U32, lastY: U32, direction: bool, loop: bool) returns (newDirection: bool, newLoop: bool)
      modifies this
      ensures View(Current(), newDirection, newLoop) == Turn(View(old(Current()), direction, loop), lastX, lastY)
    {
      newDirection, newLoop := direction, loop;
      if (xStart == 0 || yStart == 0) && newDirection {
        newLoop := false;
      }
      if newDirection {
        StepBack();
      } else {
        StepForward();
      }
      if lastX < xEnd || lastY < yEnd {
        StepBack();
        newDirection := true;
      }
    }

    /** One decode, and what follows it; the window handed to the engine is part of the result. */
    method DecodeNext(ghost g: Geometry, lastX: U32, lastY: U32, direction: bool, ghost i: nat)
      returns (decoded: Window, newDirection: bool, newLoop: bool)
      requires g.Valid() && g.HasBlock() && !MissesCorner(g)
      requires Distance(g) < 0x800_0000 && i < |Path(g)|
      requires lastX == LastBlock(g.width) && lastY == LastBlock(g.height)
      requires OnRamp(View(Current(), direction, true), g, Distance(g), i)
      modifies this
      ensures decoded == Path(g)[i]
      ensures newLoop <==> i + 1 < |Path(g)|
      ensures OnRamp(View(Current(), newDirection, newLoop), g, Distance(g), i + 1)
    {
      hide *;
      OnRampMeans(View(Current(), direction, true), g, i);
      TurnOnRamp(View(Current(), direction, true), g, i);
      CurrentIs();
      decoded := Window(xStart, xEnd, yStart, yEnd);
      newDirection, newLoop := Slide(lastX, lastY, direction, true);
      OnRampMeans(View(Current(), newDirection, newLoop), g, i + 1);
    }

    /** Decodes one window after the other; the windows handed to the engine are the result. */
    method DecodeWindows(g: Geometry) returns (decoded: seq<Window>)
      requires g.Valid() && g.HasBlock() && !MissesCorner(g)
      modifies this
      ensures decoded == Path(g)
    {
      var lastX, lastY := LastBlock(g.width), LastBlock(g.height);
      xStart, xEnd := 0, Dec(g.xres / 16);
      yStart, yEnd := 0, Dec(g.yres / 16);
      var direction, loop := false, true;
      decoded := [];
      ghost var path := Path(g);
      assert View(Current(), direction, loop) == StartView(g);
      hide *;
      PathShape(g);
      StartOnRamp(g, Distance(g));
      while loop
        invariant |decoded| <= |path|
        invariant decoded == path[..|decoded|]
        invariant loop <==> |decoded| < |path|
        invariant Distance(g) < 0x800_0000
        invariant OnRamp(View(Current(), direction, loop), g, Distance(g), |decoded|)
        decreases |path| - |decoded|
      {
        var window;
        window, direction, loop := DecodeNext(g, lastX, lastY, direction, |decoded|);
        decoded := decoded + [window];
      }
    }

    lemma CurrentIs()
      ensures Current() == Window(xStart, xEnd, yStart, yEnd)
    {
    }
  }

  lemma OnRampMeans(v: View, g: Geometry, i: nat)
    requires g.Valid() && g.HasBlock() && Distance(g) < 0x800_0000
    requires OnRamp(v, g, Distance(g), i)
    ensures v.loop <==> i < |Path(g)|
    ensures v.loop ==> v.window == Path(g)[i]
  {
    PathShape(g);
    hide Path, At, Distance;
  }
}
