/**
 * The click-assist engine: a singleton whose fields the poll thread and the
 * command interface update in place. The mouse queries, the random draw and
 * the outcome of acquiring the AWT robot come in as parameters; the robot
 * itself is the log `injected` of the events it has been asked to synthesize.
 */
module Assist {
  import opened Wrappers
  import opened JavaDouble
  import opened EdgeDetection
  import opened Commands

  class ClickAssist {
    /** The poll loop runs (the `AtomicBoolean running`). */
    var running: bool
    /** Injection is switched on (the `AtomicBoolean enabled`). */
    var enabled: bool
    /** The injection probability. */
    var chance: real
    /** The `worker` thread field is non-null. */
    var hasWorker: bool
    /** The `robot` field is non-null. */
    var hasRobot: bool
    /** Edge-detection state: the left button was seen down on the last tick. */
    var prevLeftDown: bool
    /** Every event handed to the robot, oldest first. */
    var injected: seq<Action>

    /** How many robots and worker threads `Start` has created. */
    ghost var robotsAcquired: nat
    ghost var workersSpawned: nat

    /**
     * The engine invariant: the chance lies in [0, 1]; a robot and a worker
     * exist exactly while the engine runs; each successful start created one
     * of each.
     */
    ghost predicate Valid()
      reads this
    {
      0.0 <= chance <= 1.0 &&
      hasRobot == running && hasWorker == running &&
      robotsAcquired == workersSpawned
    }

    /** The singleton as first created: enabled, chance one half, stopped. */
    constructor ()
      ensures Valid()
      ensures !running && enabled && chance == 0.5
      ensures !hasWorker && !hasRobot && !prevLeftDown
      ensures injected == [] && robotsAcquired == 0
    {
      running := false;
      enabled := true;
      chance := 0.5;
      hasWorker := false;
      hasRobot := false;
      prevLeftDown := false;
      injected := [];
      robotsAcquired := 0;
      workersSpawned := 0;
    }

    /**
     * Start the engine. `robotAvailable` is whether `new Robot()` succeeds.
     * Starting a running engine does nothing; a failed robot leaves it stopped.
     */
    method Start(robotAvailable: bool)
      requires Valid()
      modifies this
      ensures Valid()
      ensures old(running) ==> unchanged(this)
      ensures !old(running) && !robotAvailable ==> unchanged(this)
      ensures !old(running) && robotAvailable ==>
        running && hasRobot && hasWorker &&
        robotsAcquired == old(robotsAcquired) + 1 && workersSpawned == old(workersSpawned) + 1
      ensures enabled == old(enabled) && chance == old(chance)
      ensures prevLeftDown == old(prevLeftDown) && injected == old(injected)
    {
      if running {
        return;
      }
      running := true;
      if !robotAvailable {
        running := false;
        return;
      }
      hasRobot := true;
      robotsAcquired := robotsAcquired + 1;
      hasWorker := true;
      workersSpawned := workersSpawned + 1;
    }

    /**
     * Stop the engine: the loop flag is cleared, the worker is interrupted and
     * dropped, the robot is dropped. The edge state is kept.
     */
    method Stop()
      requires Valid()
      modifies this
      ensures Valid()
      ensures !running && !hasWorker && !hasRobot
      ensures !old(running) ==> unchanged(this)
      ensures enabled == old(enabled) && chance == old(chance)
      ensures prevLeftDown == old(prevLeftDown) && injected == old(injected)
      ensures robotsAcquired == old(robotsAcquired) && workersSpawned == old(workersSpawned)
    {
      running := false;
      hasWorker := false;
      hasRobot := false;
    }

    method SetEnabled(v: bool)
      modifies this`enabled
      ensures enabled == v
    {
      enabled := v;
    }

    method IsEnabled() returns (v: bool)
      ensures v == enabled
    {
      v := enabled;
    }

    /** Ignore NaN; clamp every other value into [0, 1] and store it. */
    method SetChance(probability: Dbl)
      requires Valid()
      modifies this`chance
      ensures Valid()
      ensures chance == ChanceAfter(old(chance), probability)
    {
      if probability.NaN? {
        return;
      }
      var p := probability;
      if Below(p, 0.0) {
        p := Num(0.0);
      }
      if Above(p, 1.0) {
        p := Num(1.0);
      }
      chance := p.value;
    }

    /** No reader ever sees a chance outside [0, 1]. */
    method GetChance() returns (c: real)
      requires Valid()
      ensures c == chance
      ensures 0.0 <= c <= 1.0
    {
      c := chance;
    }

    /**
     * One poll tick. Without a created and grabbed mouse the edge state is
     * reset; otherwise a rising edge of the left button, while enabled, with a
     * draw below the chance, makes the robot release then press the button.
     * Without a robot the release fails and is swallowed, so nothing is sent.
     */
    method LoopOnce(t: Tick)
      requires Valid()
      modifies this`prevLeftDown, this`injected
      ensures Valid()
      ensures prevLeftDown == NextPrev(t)
      ensures injected == old(injected) + (if hasRobot then Emit(Fires(enabled, chance, old(prevLeftDown), t)) else [])
    {
      if !t.created {
        prevLeftDown := false;
        return;
      }
      if !t.grabbed {
        prevLeftDown := false;
        return;
      }
      var leftDown := t.leftDown;
      if enabled && !prevLeftDown && leftDown {
        if t.draw < chance {
          if hasRobot {
            injected := injected + [Release(Button1Mask)];
            injected := injected + [Press(Button1Mask)];
          }
        }
      }
      prevLeftDown := leftDown;
    }

    /**
     * The worker's loop over the ticks it polls while the engine runs. The
     * configuration does not change during the run.
     */
    method Run(ticks: seq<Tick>)
      requires Valid()
      modifies this`prevLeftDown, this`injected
      ensures Valid()
      ensures old(running) ==> prevLeftDown == PrevAfter(old(prevLeftDown), ticks)
      ensures old(running) ==> injected == old(injected) + Injections(Fired(enabled, chance, old(prevLeftDown), ticks))
      ensures !old(running) ==> prevLeftDown == old(prevLeftDown) && injected == old(injected)
    {
      if !running {
        return;
      }
      ghost var start, log := prevLeftDown, injected;
      var i := 0;
      while running && i < |ticks|
        invariant Valid() && running
        invariant 0 <= i <= |ticks|
        invariant prevLeftDown == PrevAfter(start, ticks[..i])
        invariant injected == log + Injections(Fired(enabled, chance, start, ticks[..i]))
      {
        PollNext(ticks, i, start, log);
        i := i + 1;
      }
      assert ticks[..|ticks|] == ticks;
    }

    /** One iteration of the poll loop, tick `i` of a run that started from edge state `start`. */
    method PollNext(ticks: seq<Tick>, i: nat, ghost start: bool, ghost log: seq<Action>)
      requires Valid() && running && i < |ticks|
      requires prevLeftDown == PrevAfter(start, ticks[..i])
      requires injected == log + Injections(Fired(enabled, chance, start, ticks[..i]))
      modifies this`prevLeftDown, this`injected
      ensures Valid()
      ensures prevLeftDown == PrevAfter(start, ticks[..i + 1])
      ensures injected == log + Injections(Fired(enabled, chance, start, ticks[..i + 1]))
    {
      RunStep(enabled, chance, start, ticks, i);
      InjectionsStep(log, enabled, chance, start, ticks, i);
      LoopOnce(ticks[i]);
    }

    /**
     * Handle one line of text: report whether it was meant for this engine
     * and apply its sub-command.
     */
    method HandleCommand(raw: Option<string>) returns (handled: bool)
      requires Valid()
      modifies this`enabled, this`chance
      ensures Valid()
      ensures handled == (Parse(raw) != NotHandled)
      ensures enabled == EnabledAfter(Parse(raw), old(enabled))
      ensures chance == ChanceAfterCommand(Parse(raw), old(chance))
    {
      var command := Parse(raw);
      handled := Dispatch(command);
    }

    /** Apply a parsed command. Status, usage and a malformed number change nothing. */
    method Dispatch(command: Command) returns (handled: bool)
      requires Valid()
      modifies this`enabled, this`chance
      ensures Valid()
      ensures handled == (command != NotHandled)
      ensures enabled == EnabledAfter(command, old(enabled))
      ensures chance == ChanceAfterCommand(command, old(chance))
    {
      match command {
        case NotHandled =>
          return false;
        case Status =>
          return true;
        case Enable =>
          SetEnabled(true);
          return true;
        case Disable =>
          SetEnabled(false);
          return true;
        case Chance(percent) =>
          if percent.Some? {
            SetChance(DivideBy100(percent.value));
          }
          return true;
        case Usage =>
          return true;
      }
    }
  }

  /** Two starts in a row acquire one robot and spawn one worker; a stop before any start is harmless. */
  method LifecycleScenario(first: bool, second: bool)
  {
    var engine := new ClickAssist();
    engine.Stop();
    assert !engine.running && engine.robotsAcquired == 0;
    engine.Start(first);
    engine.Start(second);
    assert engine.robotsAcquired == engine.workersSpawned == if first || second then 1 else 0;
    assert engine.running == (first || second);
    engine.Stop();
    assert !engine.running && !engine.hasWorker && !engine.hasRobot;
  }

  /**
   * Literal command lines applied to a fresh engine: `chance 65` stores 0.65, a
   * malformed number changes nothing, `off` disables, and a line for another
   * handler is not handled and changes nothing.
   */
  method CommandScenario()
  {
    var engine := new ClickAssist();
    ChanceExample();
    PercentStored(65, 0.5);
    var handled := engine.HandleCommand(Some("clickassist chance 65"));
    assert handled && engine.chance == 0.65 && engine.enabled;
    MalformedChanceExample();
    handled := engine.HandleCommand(Some("clickassist chance banana"));
    assert handled && engine.chance == 0.65 && engine.enabled;
    OffExample();
    handled := engine.HandleCommand(Some("clickassist off"));
    assert handled && engine.chance == 0.65 && !engine.enabled;
    NotHandledExample();
    handled := engine.HandleCommand(Some("somethingElse"));
    assert !handled && engine.chance == 0.65 && !engine.enabled;
  }
}
