/** The LED layer stack: the effect table, what commands and ticks do, and its meaning over a whole history. */
module LedLayers {
  import opened Common
  import opened Breathing

  // ---------- The command table ----------

  const COMMANDS := 32
  const LED_SLEEP_MODE := 24
  const LED_OTA_DOING := 25
  const LED_CLOSE_A_LAYER := 27
  const LED_ALL_OFF := 28
  const LED_PWMR_SET := 29
  const LED_PWMB_SET := 31

  const WHITE := 0xFFFFFF
  const YELLOW := 0xFFFF00
  const GREEN := 0x00FF00
  const RED := 0xFF0000
  const BLUE := 0x0000FF
  const OFF := 0

  predicate Valid(cmd: int) {
    0 <= cmd < COMMANDS
  }

  /** The layer a command belongs to. */
  function LayerOf(cmd: int): nat
    requires Valid(cmd)
  {
    if cmd <= 8 then 0
    else if cmd <= 13 then 1
    else if cmd <= 19 then 2
    else if cmd <= 21 then 3
    else if cmd == 22 then 4
    else if cmd == 23 then 5
    else if cmd == 24 then 6
    else if cmd <= 26 then 7
    else 8
  }

  datatype TaskKind = NoTask | BreathTask | BlinkTask

  function TaskOf(cmd: int): TaskKind {
    if cmd in {1, 12, 14, 23} then BreathTask
    else if cmd in {3, 4, 9, 10, 11, 16, 17, 21} then BlinkTask
    else NoTask
  }

  /** `struct led_effect`; -1 in `period`, `stopTime` and `timeout` means without end, in `count` uncounted. */
  datatype Effect = Effect(period: int, stopTime: int, timeout: int, foreColor: int, ledNum: int,
                           count: int, time: int, ledsColor: int)

  /** `led_effect_default` leaves the background colour dark, and no effect sets another. */
  const BACK_COLOR := OFF

  function Steady(color: int): Effect {
    Effect(-1, -1, -1, color, 1, -1, 0, color)
  }

  function Breathes(color: int, period: int): Effect {
    Effect(period, -1, -1, color, 1, 0, 0, BACK_COLOR)
  }

  function Blinks(color: int, period: int, stopTime: int, timeout: int): Effect {
    Effect(period, stopTime, timeout, color, 1, -1, 0, BACK_COLOR)
  }

  /** The effect a command starts with; none when the table has no initializer. */
  function InitEffect(cmd: int, arg: int): Option<Effect> {
    match cmd
    case 0 => Some(Steady(YELLOW))
    case 1 => Some(Breathes(YELLOW, 2000))
    case 2 => Some(Steady(YELLOW))
    case 3 => Some(Blinks(RED, 200, 1000, -1))
    case 4 => Some(Blinks(YELLOW, 200, 800, -1))
    case 9 => Some(Blinks(BLUE, 140, 560, -1))
    case 10 => Some(Blinks(BLUE, 140, 560, -1))
    case 11 => Some(Blinks(BLUE, 500, -1, -1))
    case 12 => Some(Breathes(BLUE, 1000))
    case 14 => Some(Breathes(GREEN, 2000))
    case 15 => Some(Steady(GREEN))
    case 16 => Some(Blinks(RED, 200, -1, 1000))
    case 17 => Some(Blinks(GREEN, 200, -1, 1000))
    case 20 => Some(Effect(1000, -1, 1000, WHITE, if arg > 0 then (arg - 1) / 25 + 1 else 0, -1, 0, WHITE))
    case 21 => Some(Steady(RED))
    case 23 => Some(Breathes(BLUE, 1500))
    case 24 => Some(Steady(RED))
    case 25 => Some(Steady(YELLOW))
    case _ => None
  }

  datatype Command = Command(cmd: int, data: int)

  datatype Layer = Layer(name: nat, cmd: int, effect: Effect)

  /** Effects of the table can be ticked: a finite period divides, and a breathing one has two ticks at least. */
  ghost predicate Tickable(l: Layer) {
    && (l.effect.period == -1 || l.effect.period >= 40)
    && l.effect.time >= 0 && l.effect.count >= -1
    && (TaskOf(l.cmd).BreathTask? ==> l.effect.count >= 0 && l.effect.period >= 40)
  }

  ghost predicate AllTickable(s: seq<Layer>) {
    forall i :: 0 <= i < |s| ==> Tickable(s[i])
  }

  // ---------- What commands and ticks do to the stack ----------

  /** The position of the first layer with a name, or the length. */
  ghost function Position(s: seq<Layer>, name: nat): (k: nat)
    ensures k <= |s|
    ensures forall i :: 0 <= i < k ==> s[i].name != name
    ensures k < |s| ==> s[k].name == name
  {
    if s == [] then 0
    else if s[0].name == name then 0
    else
      var r := Position(s[1..], name);
      assert forall i :: 0 < i < |s| ==> s[i] == s[1..][i - 1];
      1 + r
  }

  ghost function DeleteLayer(s: seq<Layer>, name: nat): seq<Layer> {
    var k := Position(s, name);
    if k < |s| then s[..k] + s[k + 1..] else s
  }

  ghost function AddLayer(s: seq<Layer>, l: Layer): seq<Layer> {
    DeleteLayer(s, l.name) + [l]
  }

  /** `led_handle_a_command` */
  ghost function Handle(s: seq<Layer>, c: Command): seq<Layer>
    requires Valid(c.cmd)
  {
    if c.cmd == LED_ALL_OFF then []
    else if c.cmd == LED_CLOSE_A_LAYER then
      if Valid(c.data) then DeleteLayer(s, LayerOf(c.data)) else s
    else
      match InitEffect(c.cmd, c.data)
      case None => s
      case Some(e) => AddLayer(s, Layer(LayerOf(c.cmd), c.cmd, e))
  }

  ghost function HandleAll(s: seq<Layer>, cs: seq<Command>): seq<Layer>
    requires forall i :: 0 <= i < |cs| ==> Valid(cs[i].cmd)
    decreases |cs|
  {
    if cs == [] then s else HandleAll(Handle(s, cs[0]), cs[1..])
  }

  /** What a tick does to the displayed effect. */
  datatype TickResult = TimedOut(effect: Effect) | Quiet(effect: Effect) | Redrawn(effect: Effect)

  function TickEffect(l: Layer): TickResult
    requires Tickable(l)
  {
    var e := l.effect;
    var e1 := e.(time := e.time + TIMER_PERIOD);
    if e1.timeout != -1 && e1.time >= e1.timeout then TimedOut(e1)
    else if e1.period == -1 then Quiet(e1)
    else if e1.stopTime != -1 && e1.time >= e1.stopTime then Quiet(e1)
    else if e1.count == -1 && e1.time % e1.period != 0 then Quiet(e1)
    else
      var e2 := if e1.count == -1 then e1 else e1.(count := e1.count + 1);
      match TaskOf(l.cmd)
      case NoTask => Quiet(e2)
      case BreathTask => Redrawn(e2.(ledsColor := Breath(e2.foreColor, e2.count, e2.period)))
      case BlinkTask => Redrawn(e2.(ledsColor := if e2.ledsColor == BACK_COLOR then e2.foreColor else BACK_COLOR))
  }

  /** The displayed layer with its effect advanced by a tick. */
  ghost function Advanced(s: seq<Layer>): seq<Layer>
    requires s != [] && AllTickable(s)
  {
    var top := s[|s| - 1];
    s[|s| - 1 := top.(effect := TickEffect(top).effect)]
  }

  /** `led_effect_task` on a stack that is not empty: only the back layer is ticked. */
  ghost function Tick(s: seq<Layer>): seq<Layer>
    requires s != [] && AllTickable(s)
  {
    var top := s[|s| - 1];
    if TickEffect(top).TimedOut? then DeleteLayer(Advanced(s), top.name) else Advanced(s)
  }

  /** The colour that belongs on the display: that of the back layer. */
  ghost function Show(s: seq<Layer>): int {
    if s == [] then OFF else s[|s| - 1].effect.ledsColor
  }

  lemma InitTickable(cmd: int, arg: int, name: nat)
    ensures InitEffect(cmd, arg).Some? ==> Tickable(Layer(name, cmd, InitEffect(cmd, arg).value))
  {
  }

  lemma HandleTickable(s: seq<Layer>, c: Command)
    requires Valid(c.cmd) && AllTickable(s)
    ensures AllTickable(Handle(s, c))
  {
    hide InitEffect, Tickable;
    InitTickable(c.cmd, c.data, LayerOf(c.cmd));
  }

  lemma TickTickable(s: seq<Layer>)
    requires s != [] && AllTickable(s)
    ensures AllTickable(Tick(s))
  {
    var top := s[|s| - 1];
    assert Tickable(top);
    TickEffectTickable(top);
    hide Tickable, TickEffect;
  }

  lemma TickEffectTickable(top: Layer)
    requires Tickable(top)
    ensures Tickable(top.(effect := TickEffect(top).effect))
  {
    hide Breath;
  }

  /** A tick that does not redraw leaves the displayed colour as it is. */
  lemma QuietTickShows(s: seq<Layer>)
    requires s != [] && AllTickable(s)
    requires TickEffect(s[|s| - 1]).Quiet?
    ensures Show(Tick(s)) == Show(s)
  {
  }

  // ---------- A layer after any number of ticks ----------

  /** The layer after `k` ticks. */
  ghost function TickTimes(l: Layer, k: nat): (m: Layer)
    requires Tickable(l)
    ensures Tickable(m) && m.name == l.name && m.cmd == l.cmd
  {
    if k == 0 then l
    else
      var m := TickTimes(l, k - 1);
      TickEffectTickable(m);
      m.(effect := TickEffect(m).effect)
  }

  /** What the effects of the command table have in common. */
  ghost predicate Fresh(cmd: int, e: Effect) {
    && e.time == 0 && (e.period == -1 || (e.period >= 2 * TIMER_PERIOD && e.period % TIMER_PERIOD == 0))
    && (e.stopTime == -1 || e.stopTime > 0) && (e.timeout == -1 || e.timeout > 0)
    && match TaskOf(cmd)
       case NoTask => e.count == -1
       case BreathTask => e.count == 0 && e.period != -1 && e.stopTime == -1 && e.ledsColor == BACK_COLOR
       case BlinkTask => e.count == -1 && (e.period != -1 ==> e.ledsColor == BACK_COLOR && e.foreColor != BACK_COLOR)
  }

  lemma InitIsFresh(cmd: int, arg: int)
    ensures InitEffect(cmd, arg).Some? ==> Fresh(cmd, InitEffect(cmd, arg).value)
  {
  }

  /** How often a blinking effect has changed its colour: once a period, until its stop time. */
  function Changes(e: Effect, k: nat): int
    requires e.period > 0
  {
    var time := k * TIMER_PERIOD;
    (if e.stopTime != -1 && time >= e.stopTime then e.stopTime - 1 else time) / e.period
  }

  /** The colour after `k` ticks. */
  function ColorAfter(cmd: int, e: Effect, k: nat): int
    requires e.period == -1 || e.period >= 2 * TIMER_PERIOD
  {
    if e.period == -1 then e.ledsColor
    else match TaskOf(cmd)
      case NoTask => e.ledsColor
      case BreathTask => Breath(e.foreColor, k, e.period)
      case BlinkTask => if Changes(e, k) % 2 == 1 then e.foreColor else BACK_COLOR
  }

  ghost function EffectAfter(cmd: int, e: Effect, k: nat): Effect
    requires e.period == -1 || e.period >= 2 * TIMER_PERIOD
  {
    e.(time := k * TIMER_PERIOD, count := if e.count == -1 then -1 else k, ledsColor := ColorAfter(cmd, e, k))
  }

  ghost predicate Outlives(e: Effect, k: nat) {
    e.timeout == -1 || k * TIMER_PERIOD < e.timeout
  }

  lemma DivNext(k: nat, q: nat)
    requires q > 0
    ensures (k + 1) / q == k / q + if (k + 1) % q == 0 then 1 else 0
  {
    var a, b := k / q, (k + 1) / q;
    assert k == a * q + k % q && k + 1 == b * q + (k + 1) % q;
    MulMonotone(a + 1, b, q);
    MulMonotone(b + 1, a, q);
    MulMonotone(a + 2, b, q);
    if b == a + 1 {
      assert b * q == a * q + q;
    }
  }

  lemma DivOfTicks(k: nat, q: nat)
    requires q > 0
    ensures k * TIMER_PERIOD / (q * TIMER_PERIOD) == k / q
    ensures k * TIMER_PERIOD % (q * TIMER_PERIOD) == 0 <==> k % q == 0
  {
    var p, x := q * TIMER_PERIOD, k * TIMER_PERIOD;
    var a, b := k / q, x / p;
    assert k == a * q + k % q && x == b * p + x % p;
    assert a * p == a * q * TIMER_PERIOD && b * p == b * q * TIMER_PERIOD;
    MulMonotone(a + 1, b, q);
    MulMonotone(b + 1, a, q);
    assert b * q * TIMER_PERIOD <= k * TIMER_PERIOD < (b * q + q) * TIMER_PERIOD;
  }

  /** At every multiple of the period before the stop time, and only there, the colour changes. */
  lemma ChangesNext(e: Effect, k: nat)
    requires e.period >= 2 * TIMER_PERIOD && e.period % TIMER_PERIOD == 0 && (e.stopTime == -1 || e.stopTime > 0)
    ensures var time := (k + 1) * TIMER_PERIOD;
      Changes(e, k + 1) == Changes(e, k) +
        if (e.stopTime == -1 || time < e.stopTime) && time % e.period == 0 then 1 else 0
  {
    var q := e.period / TIMER_PERIOD;
    assert e.period == q * TIMER_PERIOD;
    DivOfTicks(k, q);
    DivOfTicks(k + 1, q);
    DivNext(k, q);
    if e.stopTime != -1 && k * TIMER_PERIOD < e.stopTime <= (k + 1) * TIMER_PERIOD {
      NoMultipleBetween(k, q, e.stopTime - 1);
    }
  }

  lemma DivIs(x: nat, p: nat, a: nat)
    requires p > 0 && a * p <= x < a * p + p
    ensures x / p == a
  {
    var b := x / p;
    assert x == b * p + x % p;
    MulMonotone(a + 1, b, p);
    MulMonotone(b + 1, a, p);
  }

  lemma NoMultipleBetween(k: nat, q: nat, x: nat)
    requires q > 0 && k * TIMER_PERIOD <= x < (k + 1) * TIMER_PERIOD
    ensures x / (q * TIMER_PERIOD) == k * TIMER_PERIOD / (q * TIMER_PERIOD)
  {
    var a := k / q;
    var m := a * q;
    assert m <= k < m + q;
    assert a * (q * TIMER_PERIOD) == m * TIMER_PERIOD;
    DivIs(x, q * TIMER_PERIOD, a);
    DivIs(k * TIMER_PERIOD, q * TIMER_PERIOD, a);
  }

  /** One tick takes the closed form from `k` to `k + 1`. */
  lemma TickNext(cmd: int, e: Effect, name: nat, k: nat)
    requires Fresh(cmd, e) && Tickable(Layer(name, cmd, EffectAfter(cmd, e, k)))
    ensures var r := TickEffect(Layer(name, cmd, EffectAfter(cmd, e, k)));
      && (r.TimedOut? <==> !Outlives(e, k + 1))
      && (Outlives(e, k + 1) ==> r.effect == EffectAfter(cmd, e, k + 1))
  {
    hide Breath;
    if e.period != -1 && TaskOf(cmd).BlinkTask? {
      ChangesNext(e, k);
    }
    hide Changes;
  }

  lemma FreshIsStart(cmd: int, e: Effect)
    requires Fresh(cmd, e)
    ensures e == EffectAfter(cmd, e, 0)
  {
    if TaskOf(cmd).BreathTask? {
      assert 0 % (e.period / TIMER_PERIOD) == 0;
      BreathChannels(e.foreColor, 0, e.period, 0);
    }
  }

  /**
   * The effect of a layer after any number of ticks, as long as it has not timed out: its time, count
   * and colour depend on the table and the number of ticks alone. The next tick times it out exactly
   * when that makes its time reach the timeout.
   */
  lemma {:induction false} TicksInClosedForm(cmd: int, e: Effect, name: nat, k: nat)
    requires Fresh(cmd, e) && Tickable(Layer(name, cmd, e)) && Outlives(e, k)
    ensures var l := TickTimes(Layer(name, cmd, e), k);
      && l == Layer(name, cmd, EffectAfter(cmd, e, k))
      && (TickEffect(l).TimedOut? <==> !Outlives(e, k + 1))
  {
    hide Fresh, Tickable, TickEffect, EffectAfter;
    if k == 0 {
      FreshIsStart(cmd, e);
    } else {
      OutlivesBefore(e, k);
      TicksInClosedForm(cmd, e, name, k - 1);
      TickNext(cmd, e, name, k - 1);
    }
    assert Tickable(TickTimes(Layer(name, cmd, e), k));
    TickNext(cmd, e, name, k);
  }

  lemma OutlivesBefore(e: Effect, k: nat)
    requires k > 0 && Outlives(e, k)
    ensures Outlives(e, k - 1)
  {
  }

  // ---------- The stack over a whole history ----------

  /** A handled command, or a tick of the displayed layer, which may have timed it out. */
  datatype Event = Handled(c: Command) | LayerTicked(name: nat) | LayerTimedOut(name: nat)

  ghost predicate ValidEvent(e: Event) {
    e.Handled? ==> Valid(e.c.cmd)
  }

  ghost predicate Adds(e: Event, name: nat)
    requires ValidEvent(e)
  {
    e.Handled? && LayerOf(e.c.cmd) == name && InitEffect(e.c.cmd, e.c.data).Some?
  }

  ghost predicate Kills(e: Event, name: nat) {
    match e
    case LayerTicked(_) => false
    case LayerTimedOut(n) => n == name
    case Handled(c) => c.cmd == LED_ALL_OFF || (c.cmd == LED_CLOSE_A_LAYER && Valid(c.data) && LayerOf(c.data) == name)
  }

  ghost predicate ValidHistory(h: seq<Event>) {
    forall i :: 0 <= i < |h| ==> ValidEvent(h[i])
  }

  /** The position of the latest add of a layer, if nothing has closed, switched off or timed out the layer since. */
  ghost function LiveAdd(h: seq<Event>, name: nat): (r: Option<nat>)
    requires ValidHistory(h)
    ensures r.Some? ==> r.value < |h|
  {
    if h == [] then None
    else
      var last := |h| - 1;
      if Adds(h[last], name) then Some(last)
      else if Kills(h[last], name) then None
      else LiveAdd(h[..last], name)
  }

  lemma {:induction false} LiveAddMeaning(h: seq<Event>, name: nat, i: nat)
    requires ValidHistory(h)
    ensures LiveAdd(h, name) == Some(i) <==>
              && i < |h| && Adds(h[i], name)
              && forall j :: i < j < |h| ==> !Adds(h[j], name) && !Kills(h[j], name)
  {
    if h != [] {
      var last := |h| - 1;
      LiveAddMeaning(h[..last], name, i);
      assert forall j :: 0 <= j < last ==> h[..last][j] == h[j];
    }
  }

  /** The position of the live add of a layer, or -1. */
  ghost function At(h: seq<Event>, name: nat): (i: int)
    requires ValidHistory(h)
    ensures -1 <= i < |h|
    ensures i >= 0 ==> Adds(h[i], name)
  {
    AtMeaning(h, name);
    match LiveAdd(h, name) case None => -1 case Some(i) => i
  }

  lemma AtMeaning(h: seq<Event>, name: nat)
    requires ValidHistory(h)
    ensures LiveAdd(h, name).Some? ==> Adds(h[LiveAdd(h, name).value], name)
  {
    if LiveAdd(h, name).Some? {
      LiveAddMeaning(h, name, LiveAdd(h, name).value);
    }
  }

  /** How many ticks a layer has had since its latest add. */
  ghost function TicksSince(h: seq<Event>, name: nat): nat
    requires ValidHistory(h)
  {
    if h == [] then 0
    else
      var front, last := h[..|h| - 1], h[|h| - 1];
      if Adds(last, name) then 0
      else TicksSince(front, name) + if last == LayerTicked(name) then 1 else 0
  }

  ghost function Added(c: Command): (l: Layer)
    requires Valid(c.cmd) && InitEffect(c.cmd, c.data).Some?
    ensures Tickable(l)
  {
    InitTickable(c.cmd, c.data, LayerOf(c.cmd));
    Layer(LayerOf(c.cmd), c.cmd, InitEffect(c.cmd, c.data).value)
  }

  /** The layer that the history leaves of a name with a live add: that of the add, ticked as often as since. */
  ghost function Expected(h: seq<Event>, name: nat): Layer
    requires ValidHistory(h)
  {
    var i := At(h, name);
    if i < 0 then Layer(name, 0, Steady(OFF)) else TickTimes(Added(h[i].c), TicksSince(h, name))
  }

  /** The stack holds exactly the layers with a live add, each as the history leaves it, in the order of those adds. */
  ghost predicate Matches(s: seq<Layer>, h: seq<Event>)
    requires ValidHistory(h)
  {
    && (forall k {:trigger s[k]} :: 0 <= k < |s| ==> At(h, s[k].name) >= 0 && Expected(h, s[k].name) == s[k])
    && (forall j, k :: 0 <= j < k < |s| ==> At(h, s[j].name) < At(h, s[k].name))
    && (forall name {:trigger At(h, name)} :: At(h, name) >= 0 ==> Position(s, name) < |s|)
  }

  lemma AtAfter(h: seq<Event>, e: Event, name: nat)
    requires ValidHistory(h) && ValidEvent(e)
    ensures ValidHistory(h + [e])
    ensures At(h + [e], name) == if Adds(e, name) then |h| else if Kills(e, name) then -1 else At(h, name)
    ensures forall i :: 0 <= i < |h| ==> (h + [e])[i] == h[i]
  {
    assert (h + [e])[..|h|] == h;
  }

  /** What one more event makes of the expected layer of a name that it does not end. */
  lemma ExpectedAfter(h: seq<Event>, e: Event, name: nat)
    requires ValidHistory(h) && ValidEvent(e)
    ensures ValidHistory(h + [e])
    ensures Adds(e, name) ==> Expected(h + [e], name) == Added(e.c)
    ensures !Adds(e, name) && !Kills(e, name) && (e != LayerTicked(name) || At(h, name) < 0) ==>
              Expected(h + [e], name) == Expected(h, name)
    ensures e == LayerTicked(name) && At(h, name) >= 0 ==>
              Tickable(Expected(h, name)) &&
              Expected(h + [e], name) == Expected(h, name).(effect := TickEffect(Expected(h, name)).effect)
  {
    hide At, LiveAdd, TickEffect, Tickable, InitEffect, Added;
    AtAfter(h, e, name);
    assert (h + [e])[..|h|] == h;
  }

  ghost predicate NamesDistinct(s: seq<Layer>) {
    forall j, k :: 0 <= j < k < |s| ==> s[j].name != s[k].name
  }

  lemma Named(s: seq<Layer>, k: nat)
    requires k < |s|
    ensures Position(s, s[k].name) < |s|
  {
  }

  /** Where the layers are that a deletion leaves. */
  lemma DeleteAt(s: seq<Layer>, name: nat)
    requires NamesDistinct(s)
    ensures var d, k := DeleteLayer(s, name), Position(s, name);
      forall j {:trigger d[j]} :: 0 <= j < |d| ==>
        j + (if j < k then 0 else 1) < |s| && d[j] == s[if j < k then j else j + 1] && d[j].name != name
  {
    hide Position;
  }

  lemma DeleteFinds(s: seq<Layer>, name: nat, x: nat)
    requires x != name && Position(s, x) < |s|
    ensures Position(DeleteLayer(s, name), x) < |DeleteLayer(s, name)|
  {
    hide Position;
    var d, k, i := DeleteLayer(s, name), Position(s, name), Position(s, x);
    var j := if i < k || k == |s| then i else i - 1;
    assert d[j] == s[i];
    Named(d, j);
  }

  lemma DeleteMembers(s: seq<Layer>, name: nat)
    requires NamesDistinct(s)
    ensures forall l :: l in DeleteLayer(s, name) <==> l in s && l.name != name
  {
    hide Position;
    var d, k := DeleteLayer(s, name), Position(s, name);
    DeleteAt(s, name);
    forall i | 0 <= i < |s| && s[i].name != name
      ensures s[i] in d
    {
      assert s[i] == d[if i < k || k == |s| then i else i - 1];
    }
  }

  /**
   * What each command does to the stack: 28 empties it, 27 with a command code closes the layer of that
   * command only, and a command with an effect puts it on top, in place of an older layer of its name.
   */
  lemma HandleTells(s: seq<Layer>, c: Command)
    requires Valid(c.cmd) && NamesDistinct(s)
    ensures c.cmd == 28 ==> Handle(s, c) == []
    ensures c.cmd == 27 && 0 <= c.data < 32 ==>
              forall l :: l in Handle(s, c) <==> l in s && l.name != LayerOf(c.data)
    ensures c.cmd < 27 && InitEffect(c.cmd, c.data).Some? ==>
              var t := Handle(s, c);
              && t != [] && t[|t| - 1] == Layer(LayerOf(c.cmd), c.cmd, InitEffect(c.cmd, c.data).value)
              && forall l :: l in t[..|t| - 1] <==> l in s && l.name != LayerOf(c.cmd)
    ensures c.cmd == 27 && !(0 <= c.data < 32) ==> Handle(s, c) == s
    ensures c.cmd >= 29 || (c.cmd < 27 && InitEffect(c.cmd, c.data).None?) ==> Handle(s, c) == s
  {
    hide DeleteLayer, NamesDistinct;
    DeleteMembers(s, LayerOf(c.cmd));
    if Valid(c.data) {
      DeleteMembers(s, LayerOf(c.data));
    }
  }

  /** What is left of a stack when a layer goes still matches, but for that layer. */
  ghost predicate Below(d: seq<Layer>, h: seq<Event>, bound: int, name: nat)
    requires ValidHistory(h)
  {
    && (forall k {:trigger d[k]} :: 0 <= k < |d| ==> 0 <= At(h, d[k].name) < bound && Expected(h, d[k].name) == d[k])
    && (forall j, k :: 0 <= j < k < |d| ==> At(h, d[j].name) < At(h, d[k].name))
    && (forall x {:trigger At(h, x)} :: x != name && At(h, x) >= 0 ==> Position(d, x) < |d|)
  }

  lemma DeletedIsBelow(s: seq<Layer>, h: seq<Event>, h': seq<Event>, name: nat)
    requires ValidHistory(h) && ValidHistory(h') && Matches(s, h)
    requires forall x :: x != name ==> At(h', x) == At(h, x) && Expected(h', x) == Expected(h, x)
    ensures Below(DeleteLayer(s, name), h', |h|, name)
  {
    hide At, Position, Expected, NamesDistinct, DeleteLayer;
    MatchesDistinct(s, h);
    DeleteAt(s, name);
    var d := DeleteLayer(s, name);
    forall x {:trigger At(h', x)} | x != name && At(h', x) >= 0
      ensures Position(d, x) < |d|
    {
      DeleteFinds(s, name, x);
    }
  }

  /** An event that ends one layer and adds none is matched by deleting that layer. */
  lemma DeleteMatches(s: seq<Layer>, h: seq<Event>, h': seq<Event>, name: nat)
    requires ValidHistory(h) && ValidHistory(h') && Matches(s, h)
    requires forall x :: At(h', x) == if x == name then -1 else At(h, x)
    requires forall x :: x != name ==> Expected(h', x) == Expected(h, x)
    ensures Matches(DeleteLayer(s, name), h')
  {
    hide At, Expected, Matches, Below, DeleteLayer;
    DeletedIsBelow(s, h, h', name);
    BelowMatches(DeleteLayer(s, name), h', |h|, name);
  }

  lemma BelowMatches(d: seq<Layer>, h: seq<Event>, bound: int, name: nat)
    requires ValidHistory(h) && Below(d, h, bound, name) && At(h, name) < 0
    ensures Matches(d, h)
  {
    hide At, Expected, Position;
  }

  /** An event that adds a layer anew is matched by deleting the old layer of that name and appending the new one. */
  lemma AddMatches(s: seq<Layer>, h: seq<Event>, h': seq<Event>, l: Layer)
    requires ValidHistory(h) && ValidHistory(h') && |h'| == |h| + 1 && Matches(s, h)
    requires forall x :: At(h', x) == if x == l.name then |h| else At(h, x)
    requires forall x :: Expected(h', x) == if x == l.name then l else Expected(h, x)
    ensures Matches(AddLayer(s, l), h')
  {
    hide At, Expected, Matches, Below, DeleteLayer;
    DeletedIsBelow(s, h, h', l.name);
    AppendMatches(DeleteLayer(s, l.name), h', |h|, l);
  }

  lemma AppendMatches(d: seq<Layer>, h: seq<Event>, bound: int, l: Layer)
    requires ValidHistory(h) && Below(d, h, bound, l.name)
    requires 0 <= bound == At(h, l.name) && Expected(h, l.name) == l
    ensures Matches(d + [l], h)
  {
    hide At, Expected, Position;
    AppendCovers(d, h, l);
  }

  lemma AppendCovers(d: seq<Layer>, h: seq<Event>, l: Layer)
    requires ValidHistory(h)
    requires forall x {:trigger At(h, x)} :: x != l.name && At(h, x) >= 0 ==> Position(d, x) < |d|
    ensures forall x {:trigger At(h, x)} :: At(h, x) >= 0 ==> Position(d + [l], x) < |d + [l]|
  {
    hide At;
    forall x | At(h, x) >= 0
      ensures Position(d + [l], x) < |d + [l]|
    {
      Named(d + [l], if x == l.name then |d| else Position(d, x));
    }
  }

  lemma KeepMatches(s: seq<Layer>, h: seq<Event>, s': seq<Layer>, h': seq<Event>)
    requires ValidHistory(h) && Matches(s, h) && ValidHistory(h')
    requires |s'| == |s| && forall k :: 0 <= k < |s| ==> s'[k].name == s[k].name && Expected(h', s[k].name) == s'[k]
    requires forall x :: At(h', x) == At(h, x)
    ensures Matches(s', h')
  {
    hide At, LiveAdd, Adds, Expected;
    forall x | Position(s, x) < |s|
      ensures Position(s', x) < |s'|
    {
      Named(s', Position(s, x));
    }
  }

  /** Handling a command keeps the stack in agreement with the history. */
  lemma HandleMatches(s: seq<Layer>, h: seq<Event>, c: Command)
    requires ValidHistory(h) && Matches(s, h) && Valid(c.cmd)
    ensures ValidHistory(h + [Handled(c)]) && Matches(Handle(s, c), h + [Handled(c)])
  {
    var e := Handled(c);
    var h' := h + [e];
    forall x
      ensures At(h', x) == if Adds(e, x) then |h| else if Kills(e, x) then -1 else At(h, x)
      ensures Adds(e, x) ==> Expected(h', x) == Added(c)
      ensures !Adds(e, x) && !Kills(e, x) ==> Expected(h', x) == Expected(h, x)
    {
      AtAfter(h, e, x);
      ExpectedAfter(h, e, x);
    }
    hide At, LiveAdd, Matches, DeleteLayer, AddLayer, Expected;
    if c.cmd == LED_ALL_OFF {
      assert Matches([], h') by { EmptyMatches(h'); }
    } else if c.cmd == LED_CLOSE_A_LAYER {
      if Valid(c.data) {
        DeleteMatches(s, h, h', LayerOf(c.data));
      } else {
        UntouchedMatches(s, h, h');
      }
    } else if InitEffect(c.cmd, c.data).Some? {
      AddMatches(s, h, h', Added(c));
    } else {
      UntouchedMatches(s, h, h');
    }
  }

  lemma UntouchedMatches(s: seq<Layer>, h: seq<Event>, h': seq<Event>)
    requires ValidHistory(h) && ValidHistory(h') && Matches(s, h)
    requires forall x :: At(h', x) == At(h, x) && Expected(h', x) == Expected(h, x)
    ensures Matches(s, h')
  {
    hide At, Expected;
  }

  lemma EmptyMatches(h: seq<Event>)
    requires ValidHistory(h) && forall x :: At(h, x) == -1
    ensures Matches([], h)
  {
  }

  /** What a tick adds to the history: the displayed layer, ticked or timed out. */
  ghost function TickEvent(s: seq<Layer>): Event
    requires s != [] && AllTickable(s)
  {
    var top := s[|s| - 1];
    if TickEffect(top).TimedOut? then LayerTimedOut(top.name) else LayerTicked(top.name)
  }

  lemma TickNeitherAdds(e: Event)
    requires !e.Handled?
    ensures forall x :: !Adds(e, x) && (Kills(e, x) <==> e == LayerTimedOut(x))
  {
  }

  lemma MatchesDistinct(s: seq<Layer>, h: seq<Event>)
    requires ValidHistory(h) && Matches(s, h)
    ensures NamesDistinct(s)
  {
    hide At, Expected;
  }

  /** Ticking the displayed layer first makes no difference to the stack that its timeout leaves. */
  lemma DeleteAdvanced(s: seq<Layer>)
    requires s != [] && AllTickable(s) && NamesDistinct(s)
    ensures DeleteLayer(Advanced(s), s[|s| - 1].name) == DeleteLayer(s, s[|s| - 1].name)
  {
    hide TickEffect, Tickable, AllTickable;
    var name, last := s[|s| - 1].name, |s| - 1;
    assert Position(s, name) == last;
    assert forall i :: 0 <= i <= last ==> Advanced(s)[i].name == s[i].name;
    assert Position(Advanced(s), name) == last;
  }

  /** A tick of one layer leaves what the history says of the others. */
  lemma TickedOthers(h: seq<Event>, name: nat)
    requires ValidHistory(h)
    ensures var h' := h + [LayerTicked(name)];
      && ValidHistory(h')
      && forall x :: At(h', x) == At(h, x) && (x != name ==> Expected(h', x) == Expected(h, x))
  {
    hide At, Expected, Adds, Kills;
    var e := LayerTicked(name);
    TickNeitherAdds(e);
    forall x
      ensures At(h + [e], x) == At(h, x) && (x != name ==> Expected(h + [e], x) == Expected(h, x))
    {
      AtAfter(h, e, x);
      ExpectedAfter(h, e, x);
    }
  }

  lemma TickedExpected(s: seq<Layer>, h: seq<Event>, name: nat, k: nat)
    requires ValidHistory(h) && Matches(s, h) && s != [] && AllTickable(s) && name == s[|s| - 1].name && k < |s|
    ensures var h' := h + [LayerTicked(name)];
      ValidHistory(h') && Advanced(s)[k].name == s[k].name && Expected(h', s[k].name) == Advanced(s)[k]
  {
    hide At, Expected, TickEffect, Tickable, Adds, Kills, Advanced;
    MatchesDistinct(s, h);
    OnlyTopAdvanced(s);
    TickNeitherAdds(LayerTicked(name));
    TopExpected(s, h);
    ExpectedAfter(h, LayerTicked(name), s[k].name);
  }

  lemma TickedMatches(s: seq<Layer>, h: seq<Event>, name: nat)
    requires ValidHistory(h) && Matches(s, h) && s != [] && AllTickable(s) && name == s[|s| - 1].name
    ensures ValidHistory(h + [LayerTicked(name)]) && Matches(Advanced(s), h + [LayerTicked(name)])
  {
    hide At, TickEffect, Matches, Expected, Tickable;
    TickedOthers(h, name);
    forall k {:trigger s[k]} | 0 <= k < |s|
      ensures Advanced(s)[k].name == s[k].name && Expected(h + [LayerTicked(name)], s[k].name) == Advanced(s)[k]
    {
      TickedExpected(s, h, name, k);
    }
    KeepMatches(s, h, Advanced(s), h + [LayerTicked(name)]);
  }

  lemma OnlyTopAdvanced(s: seq<Layer>)
    requires s != [] && AllTickable(s) && NamesDistinct(s)
    ensures var t, top := Advanced(s), s[|s| - 1];
      && |t| == |s| && t[|s| - 1] == top.(effect := TickEffect(top).effect)
      && forall k :: 0 <= k < |s| - 1 ==> t[k] == s[k] && s[k].name != top.name
  {
    hide TickEffect, Tickable;
  }

  lemma TopExpected(s: seq<Layer>, h: seq<Event>)
    requires ValidHistory(h) && Matches(s, h)
    ensures forall k {:trigger s[k]} :: 0 <= k < |s| ==> At(h, s[k].name) >= 0 && Expected(h, s[k].name) == s[k]
  {
    hide At, Expected;
  }

  lemma TimeoutMatches(s: seq<Layer>, h: seq<Event>, name: nat)
    requires ValidHistory(h) && Matches(s, h)
    ensures ValidHistory(h + [LayerTimedOut(name)]) && Matches(DeleteLayer(s, name), h + [LayerTimedOut(name)])
  {
    var e := LayerTimedOut(name);
    TickNeitherAdds(e);
    hide At, Matches, DeleteLayer, Expected, Adds, Kills;
    forall x
      ensures At(h + [e], x) == if x == name then -1 else At(h, x)
      ensures x != name ==> Expected(h + [e], x) == Expected(h, x)
    {
      AtAfter(h, e, x);
      ExpectedAfter(h, e, x);
    }
    DeleteMatches(s, h, h + [e], name);
  }

  lemma TickMatches(s: seq<Layer>, h: seq<Event>)
    requires ValidHistory(h) && Matches(s, h) && s != [] && AllTickable(s)
    ensures ValidHistory(h + [TickEvent(s)]) && Matches(Tick(s), h + [TickEvent(s)])
  {
    hide At, Matches, DeleteLayer, TickEffect, Advanced;
    var name := s[|s| - 1].name;
    if TickEvent(s).LayerTimedOut? {
      MatchesDistinct(s, h);
      DeleteAdvanced(s);
      TimeoutMatches(s, h, name);
    } else {
      TickedMatches(s, h, name);
    }
  }

  /** The history determines the stack, effects included. */
  lemma {:induction false} MatchesDetermines(s: seq<Layer>, t: seq<Layer>, h: seq<Event>, m: nat)
    requires ValidHistory(h) && Matches(s, h) && Matches(t, h) && m <= |s|
    ensures m <= |t| && s[..m] == t[..m]
  {
    hide *;
    if m > 0 {
      var k := m - 1;
      MatchesDetermines(s, t, h, k);
      assert forall i :: 0 <= i < k ==> t[..k][i] == t[i] && s[..k][i] == s[i];
      SamePlace(s, t, h, k);
    }
  }

  lemma SamePlace(s: seq<Layer>, t: seq<Layer>, h: seq<Event>, k: nat)
    requires ValidHistory(h) && Matches(s, h) && Matches(t, h) && k < |s| && k <= |t|
    requires forall i :: 0 <= i < k ==> t[i].name == s[i].name
    ensures k < |t| && t[k] == s[k]
  {
    hide LiveAdd, Adds, Expected;
    var p := Position(t, s[k].name);
    assert At(h, s[k].name) >= 0;
    assert p < |t| && t[p].name == s[k].name;
    assert p >= k;
    var q := Position(s, t[k].name);
    assert At(h, t[k].name) >= 0;
    assert q < |s| && s[q].name == t[k].name;
    assert q >= k;
    assert At(h, s[k].name) <= At(h, s[q].name) == At(h, t[k].name) <= At(h, t[p].name) == At(h, s[k].name);
  }

  // ---------- Runs of commands and ticks ----------

  datatype Input = InCommand(c: Command) | InTick

  ghost predicate ValidInputs(inputs: seq<Input>) {
    forall i :: 0 <= i < |inputs| ==> inputs[i].InCommand? ==> Valid(inputs[i].c.cmd)
  }

  /** The stack after a run from the empty stack, and the history of the run. A tick skips an empty stack. */
  ghost function Run(inputs: seq<Input>): (r: (seq<Layer>, seq<Event>))
    requires ValidInputs(inputs)
    ensures AllTickable(r.0)
  {
    if inputs == [] then ([], [])
    else
      var (s, h) := Run(inputs[..|inputs| - 1]);
      match inputs[|inputs| - 1]
      case InCommand(c) =>
        HandleTickable(s, c);
        (Handle(s, c), h + [Handled(c)])
      case InTick =>
        if s == [] then (s, h)
        else
          TickTickable(s);
          (Tick(s), h + [TickEvent(s)])
  }

  /** After every run of commands and timeouts the stack is what the whole history says. */
  lemma {:induction false} RunMatches(inputs: seq<Input>)
    requires ValidInputs(inputs)
    ensures ValidHistory(Run(inputs).1) && Matches(Run(inputs).0, Run(inputs).1)
  {
    hide Matches, Handle, Tick, TickEvent, Tickable;
    if inputs == [] {
      EmptyMatches([]);
    } else {
      var front := inputs[..|inputs| - 1];
      RunMatches(front);
      var (s, h) := Run(front);
      match inputs[|inputs| - 1]
      case InCommand(c) => HandleMatches(s, h, c);
      case InTick =>
        if s != [] {
          TickMatches(s, h);
        }
    }
  }

  // ---------- What the history says of time and colour ----------

  /** No layer has had as many ticks as would time it out. */
  ghost predicate Alive(h: seq<Event>)
    requires ValidHistory(h)
  {
    forall name {:trigger At(h, name)} ::
      At(h, name) >= 0 ==> Outlives(Added(h[At(h, name)].c).effect, TicksSince(h, name))
  }

  lemma TicksSinceAfter(h: seq<Event>, e: Event, name: nat)
    requires ValidHistory(h) && ValidEvent(e)
    ensures ValidHistory(h + [e])
    ensures TicksSince(h + [e], name) ==
      if Adds(e, name) then 0 else TicksSince(h, name) + if e == LayerTicked(name) then 1 else 0
  {
    assert (h + [e])[..|h|] == h;
  }

  lemma AddedIsFresh(c: Command)
    requires Valid(c.cmd) && InitEffect(c.cmd, c.data).Some?
    ensures Fresh(c.cmd, Added(c).effect) && Outlives(Added(c).effect, 0)
  {
    hide InitEffect;
    InitIsFresh(c.cmd, c.data);
  }

  lemma AliveAfter(h: seq<Event>, e: Event)
    requires ValidHistory(h) && ValidEvent(e) && Alive(h)
    requires e.LayerTicked? && At(h, e.name) >= 0 ==>
               Outlives(Added(h[At(h, e.name)].c).effect, TicksSince(h, e.name) + 1)
    ensures ValidHistory(h + [e]) && Alive(h + [e])
  {
    hide At, LiveAdd, InitEffect, Added, Outlives, Kills, TicksSince;
    forall name | At(h + [e], name) >= 0
      ensures Outlives(Added((h + [e])[At(h + [e], name)].c).effect, TicksSince(h + [e], name))
    {
      AtAfter(h, e, name);
      TicksSinceAfter(h, e, name);
      if Adds(e, name) {
        AddedIsFresh(e.c);
      }
    }
  }

  /** A displayed layer that a tick does not time out has not had its last tick. */
  lemma TickedIsAlive(s: seq<Layer>, h: seq<Event>)
    requires ValidHistory(h) && Matches(s, h) && Alive(h) && s != [] && AllTickable(s)
    ensures ValidHistory(h + [TickEvent(s)]) && Alive(h + [TickEvent(s)])
  {
    hide LiveAdd, InitEffect, Fresh, TickEffect, Tickable, Outlives, EffectAfter;
    var top := s[|s| - 1];
    if !TickEffect(top).TimedOut? {
      var c := h[At(h, top.name)].c;
      AddedIsFresh(c);
      assert Adds(h[At(h, top.name)], top.name);
      TicksInClosedForm(c.cmd, Added(c).effect, top.name, TicksSince(h, top.name));
    }
    AliveAfter(h, TickEvent(s));
  }

  lemma {:induction false} RunAlive(inputs: seq<Input>)
    requires ValidInputs(inputs)
    ensures ValidHistory(Run(inputs).1) && Alive(Run(inputs).1)
  {
    hide Matches, Handle, Tick, TickEvent, Tickable, Alive;
    if inputs == [] {
      assert Alive([]) by { EmptyAlive(); }
    } else {
      var front := inputs[..|inputs| - 1];
      RunAlive(front);
      RunMatches(front);
      var (s, h) := Run(front);
      match inputs[|inputs| - 1]
      case InCommand(c) => AliveAfter(h, Handled(c));
      case InTick =>
        if s != [] {
          TickedIsAlive(s, h);
        }
    }
  }

  lemma EmptyAlive()
    ensures Alive([])
  {
  }

  /**
   * After every run each layer of the stack is that of its latest add, with the time, count and colour
   * that the table gives it for the number of ticks it has been on top since.
   */
  lemma RunInClosedForm(inputs: seq<Input>, k: nat)
    requires ValidInputs(inputs) && k < |Run(inputs).0|
    ensures ValidHistory(Run(inputs).1) && At(Run(inputs).1, Run(inputs).0[k].name) >= 0
    ensures var (s, h) := Run(inputs);
      var name := s[k].name;
      var c := h[At(h, name)].c;
      Fresh(c.cmd, Added(c).effect) &&
      s[k] == Layer(name, c.cmd, EffectAfter(c.cmd, Added(c).effect, TicksSince(h, name)))
  {
    hide Run, LiveAdd, InitEffect, Fresh, TickEffect, Tickable, Outlives, EffectAfter;
    RunMatches(inputs);
    RunAlive(inputs);
    var (s, h) := Run(inputs);
    var name := s[k].name;
    assert At(h, name) >= 0 && Adds(h[At(h, name)], name);
    var c := h[At(h, name)].c;
    AddedIsFresh(c);
    TicksInClosedForm(c.cmd, Added(c).effect, name, TicksSince(h, name));
  }

  /**
   * After every run the display belongs to the layer added last of those that live, with the colour that
   * the table gives it for its ticks; it is dark when none lives.
   */
  lemma ShowIsNewest(inputs: seq<Input>, name: nat)
    requires ValidInputs(inputs) && ValidHistory(Run(inputs).1)
    requires var h := Run(inputs).1; forall x :: At(h, x) <= At(h, name)
    ensures var (s, h) := Run(inputs);
      if At(h, name) < 0 then s == [] && Show(s) == OFF
      else
        var c := h[At(h, name)].c;
        Fresh(c.cmd, Added(c).effect) && Show(s) == ColorAfter(c.cmd, Added(c).effect, TicksSince(h, name))
  {
    hide *;
    RunMatches(inputs);
    LastIsNewest(Run(inputs).0, Run(inputs).1, name);
    if Run(inputs).0 != [] {
      LastShows(inputs);
    } else {
      EmptyIsDark();
    }
  }

  lemma LastIsNewest(s: seq<Layer>, h: seq<Event>, name: nat)
    requires ValidHistory(h) && Matches(s, h) && forall x :: At(h, x) <= At(h, name)
    ensures if At(h, name) < 0 then s == [] else s != [] && s[|s| - 1].name == name
  {
    hide At, Expected;
    if s != [] {
      var last := |s| - 1;
      assert At(h, s[last].name) >= 0;
      var k := Position(s, name);
      assert k < |s| && s[k].name == name;
      assert At(h, s[last].name) <= At(h, s[k].name);
    } else {
      assert At(h, name) >= 0 ==> Position(s, name) < |s|;
    }
  }

  lemma EmptyIsDark()
    ensures Show([]) == OFF
  {
  }

  lemma LastShows(inputs: seq<Input>)
    requires ValidInputs(inputs) && Run(inputs).0 != []
    ensures var (s, h) := Run(inputs);
      var name := s[|s| - 1].name;
      ValidHistory(h) && At(h, name) >= 0 &&
      var c := h[At(h, name)].c;
      Fresh(c.cmd, Added(c).effect) && Show(s) == ColorAfter(c.cmd, Added(c).effect, TicksSince(h, name))
  {
    hide Run, At, Adds, InitEffect, Fresh, Tickable, ColorAfter, ValidHistory;
    RunInClosedForm(inputs, |Run(inputs).0| - 1);
  }

  // ---------- What the commands show ----------

  /** The commands come in groups of one layer each, numbered in order. */
  lemma LayerGroups(cmd: int)
    requires Valid(cmd) && Valid(cmd + 1)
    ensures LayerOf(0) == 0
    ensures LayerOf(cmd + 1) == LayerOf(cmd) + if cmd + 1 in {9, 14, 20, 22, 23, 24, 25, 27} then 1 else 0
  {
  }

  /** The commands that light the LED for good. */
  lemma SteadyCommands(cmd: int, arg: int, k: nat)
    requires cmd in {0, 2, 15, 21, 24, 25}
    ensures InitEffect(cmd, arg).Some?
    ensures var e := InitEffect(cmd, arg).value;
      && e.period == -1 && Outlives(e, k)
      && ColorAfter(cmd, e, k) ==
           match cmd case 15 => GREEN case 21 => RED case 24 => RED case _ => YELLOW
  {
  }

  /** The commands that let it breathe, with their periods. */
  lemma BreathingCommands(cmd: int, arg: int, k: nat)
    requires cmd in {1, 12, 14, 23}
    ensures InitEffect(cmd, arg).Some?
    ensures var e := InitEffect(cmd, arg).value;
      && e.period >= 2 * TIMER_PERIOD && Outlives(e, k)
      && ColorAfter(cmd, e, k) ==
           match cmd
           case 1 => Breath(YELLOW, k, 2000)
           case 12 => Breath(BLUE, k, 1000)
           case 14 => Breath(GREEN, k, 2000)
           case _ => Breath(BLUE, k, 1500)
  {
    hide Breath;
  }

  /** Dark and lit by turns of one period, until the last change before the stop time. */
  ghost function Flashes(color: int, period: nat, stopTime: int, k: nat): int
    requires period > 0
  {
    var time := k * TIMER_PERIOD;
    var lit := if stopTime > 0 && time >= stopTime then stopTime - 1 else time;
    if lit / period % 2 == 1 then color else OFF
  }

  /** The commands that let it blink, with periods, stop times and timeouts. */
  lemma BlinkingCommands(cmd: int, arg: int, k: nat)
    requires cmd in {3, 4, 9, 10, 11, 16, 17}
    ensures InitEffect(cmd, arg).Some?
    ensures var e := InitEffect(cmd, arg).value;
      && e.period >= 2 * TIMER_PERIOD && (Outlives(e, k) <==> cmd in {16, 17} ==> k * TIMER_PERIOD < 1000)
      && ColorAfter(cmd, e, k) ==
           match cmd
           case 3 => Flashes(RED, 200, 1000, k)
           case 4 => Flashes(YELLOW, 200, 800, k)
           case 11 => Flashes(BLUE, 500, -1, k)
           case 16 => Flashes(RED, 200, -1, k)
           case 17 => Flashes(GREEN, 200, -1, k)
           case _ => Flashes(BLUE, 140, 560, k)
  {
  }

  /** The volume is shown in white for a second, on one LED for every 25 begun; all other commands show nothing. */
  lemma VolumeAndOthers(cmd: int, arg: int, k: nat)
    requires cmd !in {0, 2, 15, 21, 24, 25} && cmd !in {1, 12, 14, 23} && cmd !in {3, 4, 9, 10, 11, 16, 17}
    ensures InitEffect(cmd, arg).Some? <==> cmd == 20
    ensures cmd == 20 ==>
              var e := InitEffect(cmd, arg).value;
              && e.period >= 2 * TIMER_PERIOD && ColorAfter(cmd, e, k) == WHITE
              && (Outlives(e, k) <==> k * TIMER_PERIOD < 1000)
              && (if arg <= 0 then e.ledNum == 0 else 25 * (e.ledNum - 1) < arg <= 25 * e.ledNum)
  {
  }
}
