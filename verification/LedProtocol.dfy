/** The LED driver: callers queue commands, one thread drains the queue and ticks the displayed effect. */
module LedProtocol {
  import opened Common
  import opened Breathing
  import opened LedLayers

  // ---------- The driver's data ----------

  /** What the three brightness files were last given: nothing yet, a value by a command, or a colour of the stack. */
  datatype Shown = Nothing | Direct | Colour(c: int)

  ghost predicate Sleeping(s: seq<Layer>) {
    exists i :: 0 <= i < |s| && s[i].cmd == LED_SLEEP_MODE
  }

  /** No layer has a period, so nothing has to be redrawn until the next command. */
  ghost predicate NeedWaitForever(s: seq<Layer>) {
    forall i :: 0 <= i < |s| ==> s[i].effect.period == -1
  }

  predicate SetsBrightness(cmd: int) {
    LED_PWMR_SET <= cmd <= LED_PWMB_SET
  }

  /** Whether `rk_led_control` queues the command. */
  ghost predicate Accepts(s: seq<Layer>, cmd: int) {
    && Valid(cmd) && !SetsBrightness(cmd)
    && (Sleeping(s) ==> cmd in {LED_CLOSE_A_LAYER, LED_OTA_DOING, LED_ALL_OFF})
  }

  class LedManager {
    var ledLayers: seq<Layer>
    var newCommandReached: bool
    var ledCmd: seq<Command>
    var shown: Shown
    /** Where the LED thread stands, the commands accepted so far, and what the thread has processed so far. */
    ghost var pc: Pc
    ghost var accepted: seq<Command>
    ghost var inputs: seq<Input>

    ghost predicate Consistent()
      reads this
    {
      AllTickable(ledLayers) && forall i :: 0 <= i < |ledCmd| ==> Valid(ledCmd[i].cmd)
    }

    constructor ()
      ensures Consistent() && View() == INIT
    {
      ledLayers, newCommandReached, ledCmd, shown := [], false, [], Nothing;
      pc, accepted, inputs := AtTop, [], [];
    }

    ghost function View(): State
      reads this
    {
      State(ledCmd, newCommandReached, pc, ledLayers, shown, accepted, inputs)
    }

    method FinalWrite()
      modifies `shown
      ensures shown == Colour(Show(ledLayers))
      ensures ledLayers == [] ==> shown == Colour(0)
      ensures ledLayers != [] ==> shown == Colour(ledLayers[|ledLayers| - 1].effect.ledsColor)
    {
      if ledLayers == [] {
        shown := Colour(OFF);
      } else {
        shown := Colour(ledLayers[|ledLayers| - 1].effect.ledsColor);
      }
    }

    method DeleteALayer(name: nat)
      modifies `ledLayers
      ensures ledLayers == DeleteLayer(old(ledLayers), name)
    {
      var it := 0;
      while it < |ledLayers|
        invariant it <= |ledLayers|
        invariant forall i :: 0 <= i < it ==> ledLayers[i].name != name
        invariant ledLayers == old(ledLayers)
      {
        if ledLayers[it].name == name {
          assert it == Position(ledLayers, name);
          ledLayers := ledLayers[..it] + ledLayers[it + 1..];
          break;
        }
        it := it + 1;
      }
    }

    method AddALayer(layer: Layer)
      modifies `ledLayers
      ensures ledLayers == AddLayer(old(ledLayers), layer)
    {
      DeleteALayer(layer.name);
      ledLayers := ledLayers + [layer];
    }

    method HandleACommand(c: Command)
      requires Consistent() && Valid(c.cmd)
      modifies `ledLayers, `shown
      ensures Consistent() && ledLayers == Handle(old(ledLayers), c) && shown == Colour(Show(ledLayers))
    {
      HandleTickable(ledLayers, c);
      if c.cmd == LED_ALL_OFF {
        ledLayers := [];
      } else if c.cmd == LED_CLOSE_A_LAYER {
        if 0 <= c.data < COMMANDS {
          DeleteALayer(LayerOf(c.data));
        }
      } else {
        match InitEffect(c.cmd, c.data) {
          case Some(e) => AddALayer(Layer(LayerOf(c.cmd), c.cmd, e));
          case None =>
        }
      }
      FinalWrite();
    }

    /** Drains the queue, first in first out, with the mutex held throughout. */
    method HandleCommandQueue()
      requires Consistent()
      modifies `ledLayers, `shown, `ledCmd
      ensures Consistent() && ledCmd == []
      ensures forall i :: 0 <= i < |old(ledCmd)| ==> Valid(old(ledCmd)[i].cmd)
      ensures ledLayers == HandleAll(old(ledLayers), old(ledCmd))
      ensures old(ledCmd) != [] ==> shown == Colour(Show(ledLayers))
      ensures old(ledCmd) == [] ==> shown == old(shown)
    {
      while ledCmd != []
        invariant Consistent()
        invariant HandleAll(ledLayers, ledCmd) == HandleAll(old(ledLayers), old(ledCmd))
        invariant |ledCmd| < |old(ledCmd)| ==> shown == Colour(Show(ledLayers))
        invariant |ledCmd| == |old(ledCmd)| ==> shown == old(shown)
        invariant |ledCmd| <= |old(ledCmd)|
        decreases |ledCmd|
      {
        var c := ledCmd[0];
        ledCmd := ledCmd[1..];
        HandleACommand(c);
      }
    }

    /**
     * `led_effect_task`: ticks the displayed layer in place. The stack must not be empty: the source
     * takes its back element unchecked.
     */
    method EffectTask()
      requires Consistent() && ledLayers != []
      modifies `ledLayers, `shown
      ensures Consistent() && ledLayers == Tick(old(ledLayers))
      ensures shown == if TickEffect(old(ledLayers)[|old(ledLayers)| - 1]).Quiet?
                       then old(shown) else Colour(Show(ledLayers))
    {
      hide Breath, DeleteLayer, Show;
      TickTickable(ledLayers);
      var last := |ledLayers| - 1;
      var top := ledLayers[last];
      assert Tickable(top);
      var e := top.effect.(time := top.effect.time + TIMER_PERIOD);
      ledLayers := ledLayers[last := top.(effect := e)];
      if e.timeout != -1 && e.time >= e.timeout {
        DeleteALayer(top.name);
        FinalWrite();
        return;
      }
      if e.period == -1 {
        return;
      }
      if e.stopTime != -1 && e.time >= e.stopTime {
        return;
      }
      if e.count == -1 {
        if e.time % e.period != 0 {
          return;
        }
      } else {
        e := e.(count := e.count + 1);
        ledLayers := ledLayers[last := top.(effect := e)];
      }
      match TaskOf(top.cmd) {
        case NoTask => return;
        case BreathTask => e := e.(ledsColor := Breath(e.foreColor, e.count, e.period));
        case BlinkTask => e := e.(ledsColor := if e.ledsColor == BACK_COLOR then e.foreColor else BACK_COLOR);
      }
      ledLayers := ledLayers[last := top.(effect := e)];
      FinalWrite();
    }

    method IsSleepMode() returns (r: bool)
      ensures r <==> Sleeping(ledLayers)
    {
      for it := 0 to |ledLayers|
        invariant forall i :: 0 <= i < it ==> ledLayers[i].cmd != LED_SLEEP_MODE
      {
        if ledLayers[it].cmd == LED_SLEEP_MODE {
          return true;
        }
      }
      return false;
    }

    method NeedWait() returns (r: bool)
      ensures r <==> NeedWaitForever(ledLayers)
    {
      if ledLayers == [] {
        return true;
      }
      for it := 0 to |ledLayers|
        invariant forall i :: 0 <= i < it ==> ledLayers[i].effect.period == -1
      {
        if ledLayers[it].effect.period != -1 {
          return false;
        }
      }
      return true;
    }

    /** `rk_led_control`: the result, and whether the condition is signalled. */
    method Control(cmd: int, data: int) returns (ret: int, signalled: bool)
      requires Consistent()
      modifies `ledCmd, `newCommandReached, `shown
      ensures Consistent()
      ensures ret == if Valid(cmd) then 0 else -1
      ensures signalled <==> Accepts(ledLayers, cmd)
      ensures signalled <==> 0 <= cmd < 29 && (cmd in {25, 27, 28} || forall i :: 0 <= i < |ledLayers| ==>
                                                                         ledLayers[i].cmd != 24)
      ensures ledCmd == if signalled then old(ledCmd) + [Command(cmd, data)] else old(ledCmd)
      ensures newCommandReached == (signalled || old(newCommandReached))
      ensures shown == if SetsBrightness(cmd) && !Sleeping(ledLayers) then Direct else old(shown)
    {
      if cmd < 0 || cmd >= COMMANDS {
        return -1, false;
      }
      var sleeping := IsSleepMode();
      if sleeping && cmd != LED_CLOSE_A_LAYER && cmd != LED_OTA_DOING && cmd != LED_ALL_OFF {
        return 0, false;
      }
      if SetsBrightness(cmd) {
        shown := Direct;
        return 0, false;
      }
      ledCmd := ledCmd + [Command(cmd, data)];
      newCommandReached := true;
      return 0, true;
    }

    /** The first half of `led_wait_new_command`: whether the thread blocks, and without a timeout. */
    method BeginWait() returns (blocks: bool, forever: bool)
      ensures blocks == !newCommandReached
      ensures blocks ==> (forever <==> NeedWaitForever(ledLayers))
    {
      blocks, forever := !newCommandReached, false;
      if blocks {
        forever := NeedWait();
      }
    }

    /** The second half, behind the wait. */
    method EndWait() returns (ret: bool)
      modifies `newCommandReached
      ensures ret == old(newCommandReached) && !newCommandReached
    {
      ret := false;
      if newCommandReached {
        newCommandReached := false;
        ret := true;
      }
    }

    /**
     * One step of a caller or of the loop of `led_task`, by the methods above. What follows a wait
     * without blocking runs in the same section under the mutex.
     */
    method Perform(step: Step)
      requires Consistent() && Enabled(View(), step)
      requires step.Task? ==> ledLayers != []
      modifies this
      ensures Consistent() && View() == Next(old(View()), step)
    {
      hide Tick, TickEffect, HandleAll, Show, Breath, Tickable;
      match step {
        case Call(cmd, data) =>
          var _, signalled := Control(cmd, data);
          if signalled {
            accepted, pc := accepted + [Command(cmd, data)], if Waiting(pc) then Woken else pc;
          }
        case Enter =>
          var blocks, forever := BeginWait();
          if blocks {
            pc := if forever then WaitingForever else WaitingTimed;
          } else {
            var _ := EndWait();
            pc := Draining;
          }
        case Expire => pc := Woken;
        case Spurious => pc := Woken;
        case Resume =>
          var ret := EndWait();
          pc := if ret then Draining else Ticking;
        case Drain =>
          inputs, pc := inputs + AsInputs(ledCmd), AtTop;
          HandleCommandQueue();
        case Task =>
          inputs, pc := inputs + [InTick], AtTop;
          EffectTask();
      }
    }
  }

  // ---------- Callers and the LED thread, interleaved ----------

  /** Where the LED thread stands; it holds the mutex in none of these places. */
  datatype Pc = AtTop | WaitingForever | WaitingTimed | Woken | Draining | Ticking

  /** The shared data, with the commands accepted so far and what the LED thread has processed so far. */
  datatype State = State(queue: seq<Command>, flag: bool, pc: Pc, layers: seq<Layer>, shown: Shown,
                         accepted: seq<Command>, inputs: seq<Input>)

  const INIT := State([], false, AtTop, [], Nothing, [], [])

  /**
   * One section under the mutex, or one tick. `Expire` is the end of a timed wait, `Spurious` a wakeup
   * without a signal.
   */
  datatype Step = Call(cmd: int, data: int) | Enter | Expire | Spurious | Resume | Drain | Task

  ghost predicate Enabled(s: State, step: Step) {
    match step
    case Call(_, _) => true
    case Enter => s.pc.AtTop?
    case Expire => s.pc.WaitingTimed?
    case Spurious => s.pc.WaitingForever?
    case Resume => s.pc.Woken?
    case Drain => s.pc.Draining?
    case Task => s.pc.Ticking?
  }

  ghost predicate Waiting(pc: Pc) {
    pc.WaitingForever? || pc.WaitingTimed?
  }

  ghost function AsInputs(cs: seq<Command>): (r: seq<Input>)
    ensures |r| == |cs| && forall i :: 0 <= i < |cs| ==> r[i] == InCommand(cs[i])
  {
    seq(|cs|, i requires 0 <= i < |cs| => InCommand(cs[i]))
  }

  ghost function CommandsOf(inputs: seq<Input>): seq<Command> {
    if inputs == [] then []
    else
      var front, last := CommandsOf(inputs[..|inputs| - 1]), inputs[|inputs| - 1];
      if last.InCommand? then front + [last.c] else front
  }

  ghost predicate WellFormed(s: State) {
    AllTickable(s.layers) && forall i :: 0 <= i < |s.queue| ==> Valid(s.queue[i].cmd)
  }

  ghost function Next(s: State, step: Step): State
    requires WellFormed(s) && Enabled(s, step)
    requires step.Task? ==> s.layers != []
  {
    match step
    case Call(cmd, data) =>
      if Accepts(s.layers, cmd) then
        var c := Command(cmd, data);
        s.(queue := s.queue + [c], flag := true, accepted := s.accepted + [c],
           pc := if Waiting(s.pc) then Woken else s.pc)
      else if SetsBrightness(cmd) && !Sleeping(s.layers) then s.(shown := Direct)
      else s
    case Enter =>
      if s.flag then s.(flag := false, pc := Draining)
      else if NeedWaitForever(s.layers) then s.(pc := WaitingForever)
      else s.(pc := WaitingTimed)
    case Expire => s.(pc := Woken)
    case Spurious => s.(pc := Woken)
    case Resume => if s.flag then s.(flag := false, pc := Draining) else s.(pc := Ticking)
    case Drain =>
      var layers := HandleAll(s.layers, s.queue);
      s.(queue := [], pc := AtTop, layers := layers, inputs := s.inputs + AsInputs(s.queue),
         shown := if s.queue == [] then s.shown else Colour(Show(layers)))
    case Task =>
      var top := s.layers[|s.layers| - 1];
      var layers := Tick(s.layers);
      s.(pc := AtTop, layers := layers, inputs := s.inputs + [InTick],
         shown := if TickEffect(top).Quiet? then s.shown else Colour(Show(layers)))
  }

  /**
   * No accepted command is lost or reordered, a queued command is about to be noticed, the thread
   * waits without a timeout only when no layer has a period and with one only when some layer has, never
   * ticks an empty stack, the stack is that of the commands and ticks processed, and what the
   * display was last given is the colour of the stack, unless a command wrote to it since the latest
   * redraw or nothing has been processed yet.
   */
  ghost predicate Inv(s: State) {
    && WellFormed(s)
    && s.accepted == CommandsOf(s.inputs) + s.queue
    && (s.queue != [] ==> s.flag || s.pc.Draining?)
    && (Waiting(s.pc) ==> !s.flag)
    && (s.pc.WaitingForever? ==> forall i :: 0 <= i < |s.layers| ==> s.layers[i].effect.period == -1)
    && (s.pc.WaitingTimed? ==> exists i :: 0 <= i < |s.layers| && s.layers[i].effect.period != -1)
    && (s.pc.WaitingTimed? || s.pc.Ticking? ==> s.layers != [])
    && (s.pc.Woken? ==> s.flag || s.layers != [])
    && ValidInputs(s.inputs) && s.layers == Run(s.inputs).0
    && (s.shown == Nothing ==> s.inputs == [])
    && (s.shown.Colour? ==> s.shown.c == Show(s.layers))
  }

  /**
   * What a call comes to: nothing for a code that is not one, nor while a layer is the sleep mode, but to
   * close a layer, to show an update, or to switch all off; a write for the brightness commands 29 to 31;
   * else the command is queued and the thread is woken if it waits.
   */
  lemma CallTells(s: State, cmd: int, data: int)
    requires WellFormed(s)
    ensures var t := Next(s, Call(cmd, data));
      var asleep := exists i :: 0 <= i < |s.layers| && s.layers[i].cmd == 24;
      if cmd < 0 || cmd >= 32 then t == s
      else if asleep && cmd !in {25, 27, 28} then t == s
      else if cmd >= 29 then t == s.(shown := Direct)
      else
        t == s.(queue := s.queue + [Command(cmd, data)], flag := true, accepted := s.accepted + [Command(cmd, data)],
                pc := if s.pc.WaitingForever? || s.pc.WaitingTimed? then Woken else s.pc)
  {
    hide AllTickable;
  }

  /** A wakeup without a signal does no harm while there is a layer to tick. */
  ghost predicate Harmless(s: State, step: Step) {
    step.Spurious? ==> s.layers != []
  }

  lemma RunCommand(inputs: seq<Input>, c: Command)
    requires ValidInputs(inputs) && Valid(c.cmd)
    ensures ValidInputs(inputs + [InCommand(c)]) && Run(inputs + [InCommand(c)]).0 == Handle(Run(inputs).0, c)
    ensures CommandsOf(inputs + [InCommand(c)]) == CommandsOf(inputs) + [c]
  {
    hide Handle, Tick, TickEvent;
    assert (inputs + [InCommand(c)])[..|inputs|] == inputs;
  }

  lemma {:induction false} RunCommands(inputs: seq<Input>, cs: seq<Command>)
    requires ValidInputs(inputs) && forall i :: 0 <= i < |cs| ==> Valid(cs[i].cmd)
    ensures ValidInputs(inputs + AsInputs(cs))
    ensures Run(inputs + AsInputs(cs)).0 == HandleAll(Run(inputs).0, cs)
    ensures CommandsOf(inputs + AsInputs(cs)) == CommandsOf(inputs) + cs
    decreases |cs|
  {
    hide Handle, Run, CommandsOf;
    if cs == [] {
      assert inputs + AsInputs(cs) == inputs;
    } else {
      var more := inputs + [InCommand(cs[0])];
      RunCommand(inputs, cs[0]);
      assert inputs + AsInputs(cs) == more + AsInputs(cs[1..]);
      RunCommands(more, cs[1..]);
      assert CommandsOf(inputs) + cs == (CommandsOf(inputs) + [cs[0]]) + cs[1..];
    }
  }

  lemma DrainKeeps(s: State)
    requires Inv(s) && s.pc.Draining?
    ensures Inv(Next(s, Drain))
  {
    hide Run, HandleAll, CommandsOf, Show, Tickable, Tick;
    RunCommands(s.inputs, s.queue);
    if s.queue == [] {
      assert s.inputs + AsInputs(s.queue) == s.inputs;
    }
    assert CommandsOf(s.inputs + AsInputs(s.queue)) + [] == CommandsOf(s.inputs + AsInputs(s.queue));
  }

  lemma RunTick(inputs: seq<Input>)
    requires ValidInputs(inputs) && Run(inputs).0 != []
    ensures ValidInputs(inputs + [InTick]) && Run(inputs + [InTick]).0 == Tick(Run(inputs).0)
    ensures CommandsOf(inputs + [InTick]) == CommandsOf(inputs)
  {
    hide Handle, Tick, TickEvent;
    assert (inputs + [InTick])[..|inputs|] == inputs;
  }

  lemma RunOfNothing()
    ensures Run([]).0 == []
  {
  }

  lemma TaskKeeps(s: State)
    requires Inv(s) && s.pc.Ticking?
    ensures Inv(Next(s, Task))
  {
    hide Tick, TickEffect, Tickable, Show, Run, CommandsOf;
    RunOfNothing();
    RunTick(s.inputs);
    TickTickable(s.layers);
    assert Tickable(s.layers[|s.layers| - 1]);
    if TickEffect(s.layers[|s.layers| - 1]).Quiet? {
      QuietTickShows(s.layers);
    }
  }

  lemma StepKeeps(s: State, step: Step)
    requires Inv(s) && Enabled(s, step) && Harmless(s, step)
    ensures Inv(Next(s, step))
  {
    hide Run, HandleAll, Tick, TickEffect, CommandsOf;
    match step {
      case Drain => DrainKeeps(s);
      case Task => TaskKeeps(s);
      case _ =>
    }
  }

  ghost predicate Reaches(s: State, steps: seq<Step>, t: State)
    requires Inv(s)
    decreases |steps|
  {
    if steps == [] then s == t
    else
      && Enabled(s, steps[0]) && Harmless(s, steps[0])
      && (StepKeeps(s, steps[0]); Reaches(Next(s, steps[0]), steps[1..], t))
  }

  /** Under every interleaving, and in every state of it. */
  lemma {:induction false} ReachableKeeps(s: State, steps: seq<Step>, t: State)
    requires Inv(s) && Reaches(s, steps, t)
    ensures Inv(t)
    ensures ValidHistory(Run(t.inputs).1) && Matches(t.layers, Run(t.inputs).1)
    decreases |steps|
  {
    if steps == [] {
      RunMatches(t.inputs);
    } else {
      StepKeeps(s, steps[0]);
      ReachableKeeps(Next(s, steps[0]), steps[1..], t);
    }
  }

  lemma InitHolds()
    ensures Inv(INIT)
  {
  }

  /** The step the LED thread takes when it is left alone; blocked threads take none. */
  ghost function ThreadStep(s: State): State
    requires Inv(s) && !Waiting(s.pc)
  {
    match s.pc
    case AtTop => Next(s, Enter)
    case Woken => Next(s, Resume)
    case Draining => Next(s, Drain)
    case Ticking => Next(s, Task)
  }

  /** The measure of how far the thread is from draining the queue. */
  ghost function Distance(pc: Pc): nat {
    match pc
    case Draining => 1
    case AtTop => 2
    case Woken => 2
    case Ticking => 3
    case _ => 0
  }

  /** A queued command is never stuck: the thread is not blocked, and each of its steps brings the drain nearer. */
  lemma QueuedIsHandled(s: State)
    requires Inv(s) && s.queue != []
    ensures !Waiting(s.pc)
    ensures var t := ThreadStep(s);
      if Distance(s.pc) == 1 then t.queue == [] && CommandsOf(t.inputs) == s.accepted
      else t.queue == s.queue && t.accepted == s.accepted && Distance(t.pc) < Distance(s.pc)
  {
    hide Run, HandleAll, Tick, TickEffect;
    if s.pc.Draining? {
      RunCommands(s.inputs, s.queue);
    }
  }

  /** The assumption is needed: a spurious wakeup with no layers makes the thread tick an empty stack. */
  lemma SpuriousTicksNothing(s: State)
    requires Inv(s) && Enabled(s, Spurious) && s.layers == []
    ensures var t := Next(s, Spurious);
      Enabled(t, Resume) && Next(t, Resume).pc.Ticking? && Next(t, Resume).layers == []
  {
  }

  /** And such a state is where every run starts waiting. */
  lemma SpuriousIsPossibleAtOnce()
    ensures var s := Next(INIT, Enter); Inv(s) && Enabled(s, Spurious) && s.layers == []
  {
    StepKeeps(INIT, Enter);
  }
}
