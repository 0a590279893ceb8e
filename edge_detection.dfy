/**
 * The pure meaning of the click-assist poll tick. One tick reads three facts
 * about the mouse (created, grabbed, left button down) and one random draw in
 * [0, 1); it injects a release-then-press of the left button on a rising edge
 * of the button when the engine is enabled and the draw is below the chance.
 * The functions here describe a run of ticks; the class in module `Assist`
 * is proved to follow them.
 */
module EdgeDetection {

  /** AWT's `InputEvent.BUTTON1_MASK`, the left button as the robot names it. */
  const Button1Mask: int := 16

  /** An event the robot is asked to synthesize. */
  datatype Action = Release(mask: int) | Press(mask: int)

  /**
   * What one tick observes: the three mouse queries (each reads false when
   * the mouse library is unavailable) and the random draw.
   */
  datatype Tick = Tick(created: bool, grabbed: bool, leftDown: bool, draw: real)

  /** The game owns the mouse: it is created and grabbed (no GUI open). */
  predicate Captured(t: Tick)
  {
    t.created && t.grabbed
  }

  /** Every draw of the random source lies in [0, 1). */
  predicate ValidDraws(ticks: seq<Tick>)
  {
    forall i :: 0 <= i < |ticks| ==> 0.0 <= ticks[i].draw < 1.0
  }

  /**
   * The value `prevLeftDown` holds after a tick: false when the mouse is not
   * captured, otherwise the button state, whatever the enabled flag.
   */
  function NextPrev(t: Tick): (prev: bool)
    ensures prev ==> t.leftDown
    ensures Captured(t) ==> prev == t.leftDown
    ensures !Captured(t) ==> !prev
  {
    if !t.created then false
    else if !t.grabbed then false
    else t.leftDown
  }

  /** The tick is a rising edge the enabled engine reacts to. */
  predicate RisingEdge(enabled: bool, prev: bool, t: Tick)
  {
    Captured(t) && enabled && !prev && t.leftDown
  }

  /** The injection gate of one tick fires. */
  predicate Fires(enabled: bool, chance: real, prev: bool, t: Tick)
  {
    RisingEdge(enabled, prev, t) && t.draw < chance
  }

  /** The robot events of one tick whose gate did or did not fire. */
  function Emit(fired: bool): (actions: seq<Action>)
    ensures fired ==> actions == [Release(Button1Mask), Press(Button1Mask)]
    ensures !fired ==> actions == []
  {
    if fired then [Release(Button1Mask), Press(Button1Mask)] else []
  }

  /**
   * `prevLeftDown` after a run of ticks that started with `prev`, tick by
   * tick; each tick overwrites the field.
   */
  function PrevAfter(prev: bool, ticks: seq<Tick>): bool
  {
    if ticks == [] then prev else NextPrev(ticks[|ticks| - 1])
  }

  /** Whether the gate fired, tick by tick, over a run of ticks. */
  function Fired(enabled: bool, chance: real, prev: bool, ticks: seq<Tick>): (f: seq<bool>)
    ensures |f| == |ticks|
  {
    if ticks == [] then []
    else
      var n := |ticks| - 1;
      Fired(enabled, chance, prev, ticks[..n]) + [Fires(enabled, chance, PrevAfter(prev, ticks[..n]), ticks[n])]
  }

  /** The robot events of a run of ticks, given each tick's gate. */
  function Injections(f: seq<bool>): seq<Action>
  {
    if f == [] then [] else Injections(f[..|f| - 1]) + Emit(f[|f| - 1])
  }

  /**
   * One more tick of a run: the edge state is that tick's, and the gate
   * sequence grows by that tick's gate, taken from the edge state before it.
   */
  lemma RunStep(enabled: bool, chance: real, prev: bool, ticks: seq<Tick>, i: nat)
    requires i < |ticks|
    ensures PrevAfter(prev, ticks[..i + 1]) == NextPrev(ticks[i])
    ensures Fired(enabled, chance, prev, ticks[..i + 1]) ==
      Fired(enabled, chance, prev, ticks[..i]) + [Fires(enabled, chance, PrevAfter(prev, ticks[..i]), ticks[i])]
  {
    assert ticks[..i + 1][..i] == ticks[..i];
  }

  /**
   * The robot log after one more tick of a run is the log before it followed
   * by that tick's events.
   */
  lemma InjectionsStep(log: seq<Action>, enabled: bool, chance: real, prev: bool, ticks: seq<Tick>, i: nat)
    requires i < |ticks|
    ensures log + Injections(Fired(enabled, chance, prev, ticks[..i + 1])) ==
      log + Injections(Fired(enabled, chance, prev, ticks[..i])) + Emit(Fires(enabled, chance, PrevAfter(prev, ticks[..i]), ticks[i]))
  {
    RunStep(enabled, chance, prev, ticks, i);
    var f := Fired(enabled, chance, prev, ticks[..i]);
    var fired := Fires(enabled, chance, PrevAfter(prev, ticks[..i]), ticks[i]);
    assert (f + [fired])[..|f|] == f;
  }

  /** The number of ticks whose gate fired. */
  function CountTrue(f: seq<bool>): nat
  {
    if f == [] then 0 else CountTrue(f[..|f| - 1]) + (if f[|f| - 1] then 1 else 0)
  }

  /**
   * Reference definition of a rising edge at position `i` of a run: the
   * enabled engine sees the button down and captured at `i`, and it was not
   * both captured and down at `i - 1` (or, at `i == 0`, `prev` was false).
   */
  predicate EdgeAt(enabled: bool, prev: bool, ticks: seq<Tick>, i: nat)
    requires i < |ticks|
  {
    var before := if i == 0 then prev else Captured(ticks[i - 1]) && ticks[i - 1].leftDown;
    enabled && Captured(ticks[i]) && ticks[i].leftDown && !before
  }

  /** The gate of tick `i` fires exactly on a rising edge whose draw is below the chance. */
  lemma {:induction false} FiredAt(enabled: bool, chance: real, prev: bool, ticks: seq<Tick>, i: nat)
    requires i < |ticks|
    ensures Fired(enabled, chance, prev, ticks)[i] == (EdgeAt(enabled, prev, ticks, i) && ticks[i].draw < chance)
    decreases |ticks|
  {
    var n := |ticks| - 1;
    if i < n {
      FiredAt(enabled, chance, prev, ticks[..n], i);
      if i > 0 {
        assert ticks[..n][i - 1] == ticks[i - 1];
      }
    } else if n > 0 {
      assert ticks[..n][n - 1] == ticks[n - 1];
    }
  }

  /** With the mouse not captured, a tick never injects. */
  lemma NotCapturedNeverFires(enabled: bool, chance: real, prev: bool, ticks: seq<Tick>, i: nat)
    requires i < |ticks| && !Captured(ticks[i])
    ensures !Fired(enabled, chance, prev, ticks)[i]
  {
    FiredAt(enabled, chance, prev, ticks, i);
  }

  /**
   * A press held across a capture loss is a fresh rising edge when capture
   * returns: after a tick without capture, a captured tick with the button
   * down fires whenever the engine is enabled and the draw is below the chance.
   */
  lemma CaptureLossMakesFreshEdge(enabled: bool, chance: real, prev: bool, ticks: seq<Tick>, i: nat)
    requires 0 < i < |ticks|
    requires !Captured(ticks[i - 1])
    requires Captured(ticks[i]) && ticks[i].leftDown
    ensures Fired(enabled, chance, prev, ticks)[i] == (enabled && ticks[i].draw < chance)
  {
    FiredAt(enabled, chance, prev, ticks, i);
  }

  /** A disabled engine never injects. */
  lemma DisabledNeverFires(chance: real, prev: bool, ticks: seq<Tick>, i: nat)
    requires i < |ticks|
    ensures !Fired(false, chance, prev, ticks)[i]
  {
    FiredAt(false, chance, prev, ticks, i);
  }

  /** With chance 0, no draw in [0, 1) is below it: nothing is ever injected. */
  lemma {:induction false} ZeroChanceNeverFires(enabled: bool, prev: bool, ticks: seq<Tick>)
    requires ValidDraws(ticks)
    ensures CountTrue(Fired(enabled, 0.0, prev, ticks)) == 0
    decreases |ticks|
  {
    if ticks != [] {
      var n := |ticks| - 1;
      var f := Fired(enabled, 0.0, prev, ticks);
      assert f[..n] == Fired(enabled, 0.0, prev, ticks[..n]);
      ZeroChanceNeverFires(enabled, prev, ticks[..n]);
    }
  }

  /** With chance 1, every draw in [0, 1) is below it: every rising edge injects. */
  lemma FullChanceFiresOnEveryEdge(enabled: bool, prev: bool, ticks: seq<Tick>, i: nat)
    requires ValidDraws(ticks) && i < |ticks|
    ensures Fired(enabled, 1.0, prev, ticks)[i] == EdgeAt(enabled, prev, ticks, i)
  {
    FiredAt(enabled, 1.0, prev, ticks, i);
  }

  /**
   * Splitting a run in two: the second part behaves as a run that starts with
   * the `prevLeftDown` the first part left behind. Since `PrevAfter` does not
   * depend on the enabled flag, a run with the engine disabled followed by a
   * run with it enabled fires, in the second part, exactly where a run enabled
   * throughout would: re-enabling creates no spurious edge.
   */
  lemma {:induction false} FiredSplit(enabled: bool, chance: real, prev: bool, a: seq<Tick>, b: seq<Tick>)
    ensures Fired(enabled, chance, PrevAfter(prev, a), b) == Fired(enabled, chance, prev, a + b)[|a|..]
    decreases |b|
  {
    if b == [] {
      assert a + b == a;
    } else {
      var n := |b| - 1;
      var ab := a + b;
      assert ab[..|ab| - 1] == a + b[..n];
      assert ab[|ab| - 1] == b[n];
      FiredSplit(enabled, chance, prev, a, b[..n]);
      PrevAfterSplit(prev, a, b[..n]);
      var whole := Fired(enabled, chance, prev, a + b[..n]);
      var last := Fires(enabled, chance, PrevAfter(prev, a + b[..n]), b[n]);
      assert Fired(enabled, chance, prev, ab) == whole + [last];
      assert (whole + [last])[|a|..] == whole[|a|..] + [last];
    }
  }

  /** The edge state after two runs is the edge state after their concatenation. */
  lemma PrevAfterSplit(prev: bool, a: seq<Tick>, b: seq<Tick>)
    ensures PrevAfter(PrevAfter(prev, a), b) == PrevAfter(prev, a + b)
  {
    if b == [] {
      assert a + b == a;
    } else {
      assert (a + b)[|a + b| - 1] == b[|b| - 1];
    }
  }

  /** A button held down over the boundary of two runs is no new edge. */
  lemma HeldPressIsNoEdge(enabled: bool, chance: real, prev: bool, a: seq<Tick>, b: seq<Tick>)
    requires a != [] && Captured(a[|a| - 1]) && a[|a| - 1].leftDown
    requires b != []
    ensures !Fired(enabled, chance, PrevAfter(prev, a), b)[0]
  {
    FiredAt(enabled, chance, PrevAfter(prev, a), b, 0);
  }

  /** The robot receives exactly one release then one press per fired gate, in that order. */
  lemma {:induction false} InjectionsShape(f: seq<bool>)
    ensures |Injections(f)| == 2 * CountTrue(f)
    ensures forall k :: 0 <= k < |Injections(f)| ==>
      Injections(f)[k] == if k % 2 == 0 then Release(Button1Mask) else Press(Button1Mask)
    decreases |f|
  {
    if f != [] {
      InjectionsShape(f[..|f| - 1]);
    }
  }

  /** The tick inputs of a captured mouse with the given button states and draw 0. */
  function CapturedTicks(downs: seq<bool>): (ticks: seq<Tick>)
    ensures |ticks| == |downs|
    ensures forall i :: 0 <= i < |ticks| ==> ticks[i] == Tick(true, true, downs[i], 0.0)
  {
    seq(|downs|, i requires 0 <= i < |downs| => Tick(true, true, downs[i], 0.0))
  }

  /**
   * The button states up, down, down, up, down with draw 0 and a positive
   * chance: exactly two injections, on ticks 1 and 4.
   */
  lemma TwoEdgesExample(chance: real)
    requires chance > 0.0
    ensures Fired(true, chance, false, CapturedTicks([false, true, true, false, true])) == [false, true, false, false, true]
    ensures CountTrue(Fired(true, chance, false, CapturedTicks([false, true, true, false, true]))) == 2
    ensures Injections(Fired(true, chance, false, CapturedTicks([false, true, true, false, true]))) ==
      [Release(Button1Mask), Press(Button1Mask), Release(Button1Mask), Press(Button1Mask)]
  {
    var ticks := CapturedTicks([false, true, true, false, true]);
    var f := Fired(true, chance, false, ticks);
    forall i | 0 <= i < 5
      ensures f[i] == [false, true, false, false, true][i]
    {
      FiredAt(true, chance, false, ticks, i);
    }
    var g := [false, true, false, false, true];
    assert f == g;
    assert g[..4] == [false, true, false, false];
    assert g[..4][..3] == [false, true, false];
    assert g[..4][..3][..2] == [false, true];
    assert g[..4][..3][..2][..1] == [false];
    assert g[..4][..3][..2][..1][..0] == [];
    assert CountTrue([false, true]) == 1;
    assert CountTrue([false, true, false, false]) == 1;
    assert CountTrue(g) == 2;
    assert Injections([false, true]) == [Release(Button1Mask), Press(Button1Mask)];
    assert Injections([false, true, false, false]) == [Release(Button1Mask), Press(Button1Mask)];
  }
}
