/** The LED effect manager: a priority-sorted list of named stable effects under two override layers. */
module LedEffects {
  import opened Common
  import opened Breathing

  datatype Kind = None_ | Blink | Breathe
  datatype Level = Temp | Stable | Realtime

  /** `RK_Led_Effect_t` */
  datatype Effect = Effect(period: int, timeout: int, colors: int, colorsBlink: int, priority: int, name: string,
                           kind: Kind, level: Level)

  /** The colour of a breathing effect is divided by half its ticks, which must not be zero. */
  predicate Displayable(e: Effect) {
    e.kind.Breathe? ==> Ticks(e.period) >= 2
  }

  // ---------- An effect after a number of displays ----------

  /** By how much a display moves the time of an effect. */
  function StepOf(e: Effect): int {
    if e.kind.Breathe? then TIMER_PERIOD else e.period
  }

  /** The colour that the latest of `n` displays has written, or that the effect starts with. */
  function ColorOf(e: Effect, n: nat): int {
    match e.kind
    case None_ => e.colors
    case Blink => if n % 2 == 1 then e.colorsBlink else e.colors
    case Breathe => if n > 0 && Displayable(e) then Breath(e.colors, n - 1, e.period) else e.colors
  }

  /** The effect has a timeout, and its displays so far have used it up. */
  predicate UsedUp(e: Effect, n: nat) {
    e.timeout > 0 && n * StepOf(e) >= e.timeout
  }

  lemma UsedUpTells(e: Effect, n: nat)
    ensures UsedUp(e, n) <==> e.timeout > 0 && n * StepOf(e) >= e.timeout
  {
  }

  /** Once used up, an effect stays so. */
  lemma StaysUsedUp(e: Effect, n: nat)
    requires UsedUp(e, n)
    ensures UsedUp(e, n + 1)
  {
    assert (n + 1) * StepOf(e) == n * StepOf(e) + StepOf(e);
  }

  // ---------- The stable list as a sequence ----------

  /** A stable effect and the ordinal of the call that set it. */
  datatype Item = Item(effect: Effect, stamp: nat)

  ghost function NameAt(s: seq<Item>, name: string): (k: nat)
    ensures k <= |s|
    ensures forall i :: 0 <= i < k ==> s[i].effect.name != name
    ensures k < |s| ==> s[k].effect.name == name
  {
    if s == [] then 0
    else if s[0].effect.name == name then 0
    else
      var r := NameAt(s[1..], name);
      assert forall i :: 0 < i < |s| ==> s[i] == s[1..][i - 1];
      1 + r
  }

  /** The first position whose priority does not exceed the new one. */
  ghost function SlotFor(s: seq<Item>, priority: int): (k: nat)
    ensures k <= |s|
    ensures forall i :: 0 <= i < k ==> s[i].effect.priority > priority
    ensures k < |s| ==> s[k].effect.priority <= priority
  {
    if s == [] then 0
    else if s[0].effect.priority <= priority then 0
    else
      var r := SlotFor(s[1..], priority);
      assert forall i :: 0 < i < |s| ==> s[i] == s[1..][i - 1];
      1 + r
  }

  /** `RK_set_led_effect` on the stable level: replaces by name, then inserts by priority. */
  ghost function SetStable(s: seq<Item>, x: Item): seq<Item> {
    var rest := Without(s, NameAt(s, x.effect.name));
    Placed(rest, SlotFor(rest, x.effect.priority), x)
  }

  /** `RK_set_led_effect_off` on the stable level */
  ghost function Off(s: seq<Item>, name: string): seq<Item> {
    Without(s, NameAt(s, name))
  }

  /** Higher priority first, and among equal priorities the one set later first. */
  ghost predicate Before(a: Item, b: Item) {
    a.effect.priority > b.effect.priority || (a.effect.priority == b.effect.priority && a.stamp > b.stamp)
  }

  ghost predicate Sorted(s: seq<Item>) {
    forall i, j :: 0 <= i < j < |s| ==> Before(s[i], s[j])
  }

  ghost predicate Unique(s: seq<Item>) {
    forall i, j :: 0 <= i < j < |s| ==> s[i].effect.name != s[j].effect.name
  }

  ghost predicate Older(s: seq<Item>, stamp: nat) {
    forall i :: 0 <= i < |s| ==> s[i].stamp < stamp
  }

  ghost predicate Ordered(s: seq<Item>, next: nat) {
    Sorted(s) && Unique(s) && Older(s, next)
  }

  lemma OrderedLater(s: seq<Item>, next: nat)
    requires Ordered(s, next)
    ensures Ordered(s, next + 1)
  {
  }

  lemma WithoutFacts(s: seq<Item>, k: nat, next: nat)
    requires Ordered(s, next) && k < |s|
    ensures Ordered(Without(s, k), next)
    ensures forall y :: y in Without(s, k) <==> y in s && y != s[k]
  {
    WithoutAt(s, k);
    assert Distinct(s);
    WithoutMembers(s, k);
    hide Without, Before;
  }

  lemma PlacedFacts(s: seq<Item>, x: Item, next: nat)
    requires Ordered(s, next) && x.stamp == next
    requires forall i :: 0 <= i < |s| ==> s[i].effect.name != x.effect.name
    ensures Ordered(Placed(s, SlotFor(s, x.effect.priority), x), next + 1)
  {
    var k := SlotFor(s, x.effect.priority);
    hide SlotFor;
    forall i | k <= i < |s|
      ensures Before(x, s[i])
    {
      assert i == k || Before(s[k], s[i]);
    }
    PlacedOrdered(s, k, x, next);
  }

  lemma PlacedOrdered(s: seq<Item>, k: nat, x: Item, next: nat)
    requires Ordered(s, next) && x.stamp == next && k <= |s|
    requires forall i :: 0 <= i < |s| ==> s[i].effect.name != x.effect.name
    requires forall i :: 0 <= i < k ==> Before(s[i], x)
    requires forall i :: k <= i < |s| ==> Before(x, s[i])
    ensures Ordered(Placed(s, k, x), next + 1)
  {
    PlacedAt(s, k, x);
    hide Placed, Before;
    var s' := Placed(s, k, x);
    assert Sorted(s');
    assert Unique(s');
  }

  /** Setting an effect replaces the one of its name, and switching one off removes it; order and uniqueness stay. */
  lemma SetStableFacts(s: seq<Item>, x: Item, next: nat)
    requires Ordered(s, next) && x.stamp == next
    ensures Ordered(SetStable(s, x), next + 1)
    ensures forall y :: y in SetStable(s, x) <==> y == x || (y in s && y.effect.name != x.effect.name)
  {
    var k := NameAt(s, x.effect.name);
    var rest := Without(s, k);
    OffFacts(s, x.effect.name, next);
    PlacedFacts(rest, x, next);
    PlacedMembers(rest, SlotFor(rest, x.effect.priority), x);
  }

  lemma OffFacts(s: seq<Item>, name: string, next: nat)
    requires Ordered(s, next)
    ensures Ordered(Off(s, name), next)
    ensures forall y :: y in Off(s, name) <==> y in s && y.effect.name != name
  {
    var k := NameAt(s, name);
    if k < |s| {
      WithoutFacts(s, k, next);
      assert forall i :: 0 <= i < |s| && i != k ==> s[i].effect.name != name;
    }
  }

  // ---------- Every run ----------

  /** A change of the stable list; `FirstTimedOut` is the timeout of the displayed effect. */
  datatype Change = SetIt(effect: Effect) | SwitchOff(name: string) | FirstTimedOut | AllOff

  /** The list, the ordinal of the next set, and the effects by name that a plain table would hold. */
  datatype Run = Run(list: seq<Item>, next: nat, table: map<string, Item>)

  ghost function After(changes: seq<Change>): Run {
    if changes == [] then Run([], 0, map[])
    else
      var r := After(changes[..|changes| - 1]);
      match changes[|changes| - 1]
      case SetIt(e) => Run(SetStable(r.list, Item(e, r.next)), r.next + 1, r.table[e.name := Item(e, r.next)])
      case SwitchOff(name) => Run(Off(r.list, name), r.next, r.table - {name})
      case FirstTimedOut =>
        if r.list == [] then r else Run(r.list[1..], r.next, r.table - {r.list[0].effect.name})
      case AllOff => Run([], r.next, map[])
  }

  /** The list holds what the table holds, by priority and newest first among equals. */
  ghost predicate Arranged(r: Run) {
    && Ordered(r.list, r.next)
    && forall x :: x in r.list <==> x.effect.name in r.table && r.table[x.effect.name] == x
  }

  lemma {:induction false} RunArranged(changes: seq<Change>)
    ensures Arranged(After(changes))
  {
    hide Ordered, SetStable, Off;
    if changes != [] {
      var r := After(changes[..|changes| - 1]);
      RunArranged(changes[..|changes| - 1]);
      match changes[|changes| - 1]
      case SetIt(e) => SetStableFacts(r.list, Item(e, r.next), r.next);
      case SwitchOff(name) => OffFacts(r.list, name, r.next);
      case FirstTimedOut =>
        if r.list != [] {
          FirstIsOff(r.list);
          OffFacts(r.list, r.list[0].effect.name, r.next);
        }
      case AllOff => EmptyOrdered(r.next);
    } else {
      EmptyOrdered(0);
    }
  }

  lemma EmptyOrdered(next: nat)
    ensures Ordered([], next)
  {
  }

  lemma FirstIsOff(s: seq<Item>)
    requires s != []
    ensures s[1..] == Off(s, s[0].effect.name)
  {
  }

  // ---------- The heap ----------

  /** `RK_Led_Effect_ins_t`; `ticks` counts how often the effect has been displayed. */
  class Ins {
    const effect: Effect
    var time: int
    var colors: int
    var count: nat
    var next: Ins?
    ghost var ticks: nat
    ghost var live: bool

    constructor (effect: Effect)
      ensures this.effect == effect && time == 0 && colors == effect.colors && count == 0
      ensures next == null && ticks == 0 && live
      ensures Ok()
    {
      this.effect, time, colors, count, next := effect, 0, effect.colors, 0, null;
      ticks, live := 0, true;
    }

    /**
     * Time and colour are those of the number of displays, and `count` stays within one period, however
     * many there are.
     */
    ghost predicate Ok()
      reads `live, `time, `colors, `count, `ticks
    {
      && live && time == ticks * StepOf(effect) && colors == ColorOf(effect, ticks)
      && (Displayable(effect) ==>
            match effect.kind
            case Breathe =>
              count <= Ticks(effect.period) && count % Ticks(effect.period) == ticks % Ticks(effect.period)
            case Blink => count <= 1
            case None_ => count == 0)
    }

    /** `led_handle_timeout` */
    predicate TimedOut()
      reads `time
    {
      effect.timeout > 0 && time >= effect.timeout
    }

    lemma OkTells()
      requires Ok()
      ensures live && time == ticks * StepOf(effect) && colors == ColorOf(effect, ticks)
      ensures TimedOut() <==> UsedUp(effect, ticks)
    {
    }

    /** The effect has been displayed once more: what that does to its time and colour, by its kind. */
    twostate predicate Displayed()
      reads `time, `colors, `ticks
    {
      && ticks == old(ticks) + 1
      && time == old(time) + (if effect.kind.Breathe? then TIMER_PERIOD else effect.period)
      && match effect.kind
         case Breathe => Displayable(effect) && colors == Breath(effect.colors, old(ticks), effect.period)
         case Blink => colors == if old(colors) == effect.colors then effect.colorsBlink else effect.colors
         case None_ => colors == old(colors)
    }

    /** Nothing has happened to the effect. */
    twostate predicate Untouched()
      reads `time, `colors, `count, `ticks
    {
      time == old(time) && colors == old(colors) && count == old(count) && ticks == old(ticks)
    }

    /** What `led_effect_task` does to the effect on top. */
    method Advance()
      requires Ok() && Displayable(effect)
      modifies `time, `colors, `count, `ticks
      ensures Ok() && Displayed()
    {
      hide Breath, Ticks;
      ghost var n := ticks;
      assert (n + 1) * StepOf(effect) == n * StepOf(effect) + StepOf(effect);
      ticks := ticks + 1;
      match effect.kind {
        case Blink =>
          colors := if colors == effect.colors then effect.colorsBlink else effect.colors;
          count := 0;
          time := time + effect.period;
          count := count + 1;
        case Breathe =>
          ghost var per := Ticks(effect.period);
          BreathPeriodic(effect.colors, count, effect.period);
          BreathPeriodic(effect.colors, n, effect.period);
          CountStaysInStep(count, n, per);
          count := count % Ticks(effect.period);
          colors := Breath(effect.colors, count, effect.period);
          time := time + TIMER_PERIOD;
          count := count + 1;
        case None_ =>
          time := time + effect.period;
      }
    }
  }

  /** `RK_Led_Manager_t`; `shown` is the colour of the latest write. */
  class Manager {
    var temp: Ins?
    var stable: Ins?
    var realtime: Ins?
    var newCommandReached: int
    var shown: int
    ghost var nodes: seq<Ins>
    ghost var items: seq<Item>
    ghost var clock: nat

    /** The cells hold the items and each links to the one behind it. */
    static ghost predicate Chain(cells: seq<Ins>, items: seq<Item>)
      requires |cells| == |items|
      reads cells
    {
      && (forall i {:trigger cells[i].Ok()} :: 0 <= i < |cells| ==> cells[i].Ok())
      && (forall i {:trigger cells[i].effect} {:trigger items[i]} :: 0 <= i < |cells| ==>
            cells[i].effect == items[i].effect)
      && (forall i {:trigger cells[i].next} :: 0 <= i < |cells| ==>
            cells[i].next == if i + 1 < |cells| then cells[i + 1] else null)
    }

    /** The stable list is a chain of distinct cells. */
    ghost predicate Linked()
      reads `stable, `nodes, `items, nodes
    {
      && |nodes| == |items| && Distinct(nodes) && Chain(nodes, items)
      && stable == (if nodes == [] then null else nodes[0])
    }

    lemma LinkedTells()
      requires Linked()
      ensures |nodes| == |items| && (stable == null <==> items == [])
    {
    }

    /** The stable list is in order of priority, and the override layers lie outside it. */
    ghost predicate Valid()
      reads this, nodes, temp, realtime
    {
      && Linked() && Ordered(items, clock)
      && (temp != null ==> temp.Ok() && temp !in Cells())
      && (realtime != null ==> realtime.Ok() && realtime !in Cells())
      && (temp != null && realtime != null ==> temp != realtime)
    }

    ghost function Cells(): set<Ins>
      reads `nodes
    {
      set n | n in nodes
    }

    /** The cells of the override layers. */
    ghost function Overrides(): set<Ins>
      reads `temp, `realtime
    {
      (if temp == null then {} else {temp}) + (if realtime == null then {} else {realtime})
    }

    ghost function All(): set<Ins>
      reads this
    {
      Cells() + Overrides()
    }

    ghost predicate AllDisplayable()
      reads this
    {
      forall n :: n in All() ==> Displayable(n.effect)
    }

    /** Every effect that may come to be displayed can be: the source divides by zero on any other */
    ghost predicate CanDisplay()
      reads this, temp, realtime
    {
      && (temp != null ==> Displayable(temp.effect))
      && (realtime != null ==> Displayable(realtime.effect))
      && forall i {:trigger items[i]} :: 0 <= i < |items| && i < 2 ==> Displayable(items[i].effect)
    }

    constructor ()
      ensures Valid() && items == [] && temp == null && realtime == null
    {
      temp, stable, realtime, newCommandReached, shown := null, null, null, -1, 0;
      nodes, items, clock := [], [], 0;
    }

    method SeekName(name: string) returns (prev: Ins?, entry: Ins?)
      requires Linked()
      ensures var k := NameAt(items, name);
        && entry == (if k < |nodes| then nodes[k] else null)
        && prev == (if k == 0 then null else nodes[k - 1])
      ensures |nodes| == |items|
    {
      prev, entry := null, stable;
      ghost var i := 0;
      while entry != null && entry.effect.name != name
        invariant i <= |nodes|
        invariant entry == (if i < |nodes| then nodes[i] else null)
        invariant prev == (if i == 0 then null else nodes[i - 1])
        invariant forall j :: 0 <= j < i ==> items[j].effect.name != name
        decreases |nodes| - i
      {
        prev, entry := entry, entry.next;
        i := i + 1;
      }
    }

    method SeekSlot(priority: int) returns (prev: Ins?, entry: Ins?)
      requires Linked()
      ensures var k := SlotFor(items, priority);
        && entry == (if k < |nodes| then nodes[k] else null)
        && prev == (if k == 0 then null else nodes[k - 1])
    {
      prev, entry := null, stable;
      ghost var i := 0;
      while entry != null && entry.effect.priority > priority
        invariant i <= |nodes|
        invariant entry == (if i < |nodes| then nodes[i] else null)
        invariant prev == (if i == 0 then null else nodes[i - 1])
        invariant forall j :: 0 <= j < i ==> items[j].effect.priority > priority
        decreases |nodes| - i
      {
        prev, entry := entry, entry.next;
        i := i + 1;
      }
    }

    /** Removes the stable effect of a name, if there is one, and releases it. */
    method RemoveByName(name: string)
      requires Valid()
      modifies `stable, `nodes, `items, nodes`live, nodes`next
      ensures Valid() && items == Off(old(items), name) && nodes == Without(old(nodes), NameAt(old(items), name))
      ensures Cells() <= old(Cells())
    {
      hide Ordered, Linked;
      ghost var k := NameAt(items, name);
      var prev, entry := SeekName(name);
      OffFacts(items, name, clock);
      if entry != null {
        WithoutAt(nodes, k);
        Unlink(k, prev, entry);
      }
    }

    /** Bypassing the cell at `k` leaves a chain of the others. */
    static lemma ChainWithout(cells: seq<Ins>, items: seq<Item>, k: nat)
      requires k < |cells| == |items|
      requires forall i {:trigger cells[i].Ok()} :: 0 <= i < |cells| && i != k ==> cells[i].Ok()
      requires forall i {:trigger cells[i].effect} :: 0 <= i < |cells| ==> cells[i].effect == items[i].effect
      requires forall i {:trigger cells[i].next} :: 0 <= i < |cells| && i != k && i != k - 1 ==>
                 cells[i].next == if i + 1 < |cells| then cells[i + 1] else null
      requires k > 0 ==> cells[k - 1].next == if k + 1 < |cells| then cells[k + 1] else null
      ensures Chain(Without(cells, k), Without(items, k))
    {
      hide Without, Ins.Ok;
      WithoutAt(cells, k);
      WithoutAt(items, k);
    }

    method Unlink(ghost k: nat, prev: Ins?, entry: Ins)
      requires Linked()
      requires k < |nodes| && entry == nodes[k]
      requires prev == (if k == 0 then null else nodes[k - 1])
      modifies `stable, `nodes, `items, nodes`live, nodes`next
      ensures Linked() && nodes == Without(old(nodes), k) && items == Without(old(items), k)
      ensures !entry.live
    {
      WithoutAt(nodes, k);
      DistinctFrom(nodes, k);
      if k > 0 {
        DistinctFrom(nodes, k - 1);
      }
      hide Without, Distinct;
      assert entry.Ok();
      if prev == null {
        stable := stable.next;
      } else {
        prev.next := entry.next;
      }
      assert entry.live;
      entry.live := false;
      ChainWithout(nodes, items, k);
      nodes, items := Without(nodes, k), Without(items, k);
    }

    /** A cell linked in at `k` extends the chain. */
    static lemma ChainPlaced(cells: seq<Ins>, items: seq<Item>, k: nat, ins: Ins, x: Item)
      requires k <= |cells| == |items|
      requires forall i {:trigger cells[i].Ok()} :: 0 <= i < |cells| ==> cells[i].Ok()
      requires forall i {:trigger cells[i].effect} :: 0 <= i < |cells| ==> cells[i].effect == items[i].effect
      requires forall i {:trigger cells[i].next} :: 0 <= i < |cells| && i != k - 1 ==>
                 cells[i].next == if i + 1 < |cells| then cells[i + 1] else null
      requires k > 0 ==> cells[k - 1].next == ins
      requires ins.Ok() && ins.effect == x.effect && ins.next == if k < |cells| then cells[k] else null
      ensures Chain(Placed(cells, k, ins), Placed(items, k, x))
    {
      hide Placed, Ins.Ok;
      PlacedAt(cells, k, ins);
      PlacedAt(items, k, x);
    }

    /** Links a new cell at position `k`. */
    method LinkAt(ghost k: nat, prev: Ins?, entry: Ins?, ins: Ins)
      requires Linked() && k <= |nodes| && ins !in nodes && ins.Ok()
      requires entry == (if k < |nodes| then nodes[k] else null)
      requires prev == (if k == 0 then null else nodes[k - 1])
      modifies `stable, `nodes, `items, nodes`next, ins`next
      ensures Linked() && nodes == Placed(old(nodes), k, ins)
      ensures items == Placed(old(items), k, Item(ins.effect, clock))
    {
      PlacedAt(nodes, k, ins);
      if k > 0 {
        DistinctFrom(nodes, k - 1);
      }
      hide Placed, Distinct;
      if prev == null {
        ins.next := stable;
        stable := ins;
      } else {
        prev.next := ins;
        ins.next := entry;
      }
      ChainPlaced(nodes, items, k, ins, Item(ins.effect, clock));
      nodes, items := Placed(nodes, k, ins), Placed(items, k, Item(ins.effect, clock));
    }

    /** The cells of the stable list with a new one in place of that of the same name. */
    static ghost function Relinked(cells: seq<Ins>, items: seq<Item>, ins: Ins): seq<Ins>
      requires |cells| == |items|
    {
      var k := NameAt(items, ins.effect.name);
      var slot := SlotFor(Without(items, k), ins.effect.priority);
      Placed(Without(cells, k), slot, ins)
    }

    /** `RK_set_led_effect`; no cell but the new one starts anew. */
    method SetEffect(effect: Effect) returns (ghost ins: Ins)
      requires Valid()
      modifies this, nodes`live, nodes`next, Overrides()`live
      ensures Valid() && clock == old(clock) + 1 && shown == old(shown)
      ensures fresh(ins) && ins.effect == effect && ins.ticks == 0 && ins.time == 0 && ins.colors == effect.colors
      ensures items == if effect.level.Stable? then SetStable(old(items), Item(effect, old(clock))) else old(items)
      ensures |old(nodes)| == |old(items)|
      ensures nodes == if effect.level.Stable? then Relinked(old(nodes), old(items), ins) else old(nodes)
      ensures realtime == if effect.level.Realtime? then ins else old(realtime)
      ensures temp == if effect.level.Temp? then ins else old(temp)
      ensures newCommandReached == match effect.level case Stable => 0 case Realtime => 1 case Temp => 2
    {
      hide Ordered, Linked, Off, SetStable, Relinked, Ins.Ok, Displayable, Breath, ColorOf, StepOf;
      LinkedTells();
      var cell := new Ins(effect);
      ins := cell;
      OrderedLater(items, clock);
      match effect.level {
        case Stable =>
          SetStableFacts(items, Item(effect, clock), clock);
          InsertStable(cell);
          newCommandReached := 0;
        case Realtime =>
          if realtime != null {
            realtime.OkTells();
            assert realtime.live;
            realtime.live := false;
          }
          realtime := cell;
          newCommandReached := 1;
        case Temp =>
          if temp != null {
            temp.OkTells();
            assert temp.live;
            temp.live := false;
          }
          temp := cell;
          newCommandReached := 2;
      }
      clock := clock + 1;
    }

    method InsertStable(ins: Ins)
      requires Valid() && ins.Ok() && ins !in Cells() && ins != temp && ins != realtime
      modifies `stable, `nodes, `items, nodes`live, nodes`next, ins`next
      ensures Linked() && items == SetStable(old(items), Item(ins.effect, clock))
      ensures |old(nodes)| == |old(items)| && nodes == Relinked(old(nodes), old(items), ins)
      ensures Cells() <= old(Cells()) + {ins}
    {
      hide Ordered, Chain, Distinct, Ins.Ok, Displayable, Without;
      RemoveByName(ins.effect.name);
      forall i | 0 <= i < |nodes|
        ensures nodes[i] in old(nodes)
      {
        assert nodes[i] in Cells();
        assert nodes[i] in old(Cells());
      }
      ghost var k := SlotFor(items, ins.effect.priority);
      var prev, entry := SeekSlot(ins.effect.priority);
      PlacedMembers(nodes, k, ins);
      LinkAt(k, prev, entry, ins);
    }

    /** `RK_set_led_effect_off`; the name matters on the stable level only. */
    method SetEffectOff(level: Level, name: string)
      requires Valid()
      modifies this, nodes`live, nodes`next, Overrides()`live
      ensures Valid() && clock == old(clock) && newCommandReached == old(newCommandReached)
      ensures items == if level.Stable? then Off(old(items), name) else old(items)
      ensures nodes == if level.Stable? then Without(old(nodes), NameAt(old(items), name)) else old(nodes)
      ensures realtime == if level.Realtime? then null else old(realtime)
      ensures temp == if level.Temp? then null else old(temp)
      ensures shown == if items == [] && realtime == null && temp == null then 0 else old(shown)
    {
      hide Ordered, Linked, Off, SetStable, Without, NameAt, Ins.Ok, Displayable, Breath, ColorOf, StepOf;
      match level {
        case Stable => RemoveByName(name);
        case Realtime =>
          if realtime != null {
            realtime.OkTells();
            assert realtime.live;
            realtime.live := false;
            realtime := null;
          }
        case Temp =>
          if temp != null {
            temp.OkTells();
            assert temp.live;
            temp.live := false;
            temp := null;
          }
      }
      LinkedTells();
      if stable == null && realtime == null && temp == null {
        shown := 0;
      }
    }

    /** `RK_set_all_led_effect_off` */
    method AllEffectsOff()
      requires Valid()
      modifies this, nodes`live, Overrides()`live
      ensures Valid() && items == [] && temp == null && realtime == null && shown == old(shown)
      ensures newCommandReached == old(newCommandReached)
      ensures forall n :: n in old(nodes) ==> !n.live
    {
      if temp != null {
        assert temp.live;
        temp.live := false;
        temp := null;
      }
      if realtime != null {
        assert realtime.live;
        realtime.live := false;
        realtime := null;
      }
      assert forall j {:trigger nodes[j].live} :: 0 <= j < |nodes| ==> nodes[j].Ok();
      var entry := stable;
      ghost var i := 0;
      while entry != null
        invariant i <= |nodes| && entry == (if i < |nodes| then nodes[i] else null)
        invariant forall j {:trigger nodes[j].live} :: 0 <= j < i ==> !nodes[j].live
        invariant forall j {:trigger nodes[j].live} :: i <= j < |nodes| ==> nodes[j].live
        invariant forall j {:trigger nodes[j].next} :: 0 <= j < |nodes| ==>
                    nodes[j].next == if j + 1 < |nodes| then nodes[j + 1] else null
        invariant temp == null && realtime == null
        invariant unchanged(this`nodes, this`items, this`clock, this`shown, this`newCommandReached) && Distinct(nodes)
        decreases |nodes| - i
      {
        var tmp := entry;
        entry := entry.next;
        assert tmp.live;
        tmp.live := false;
        i := i + 1;
      }
      stable := null;
      nodes, items := [], [];
    }

    /** The light has the colour that the displays of the effect come to. */
    ghost predicate Shown(n: Ins)
      reads this, n
    {
      n.time == n.ticks * StepOf(n.effect) && shown == n.colors == ColorOf(n.effect, n.ticks)
    }

    lemma AllCanDisplay()
      requires Valid() && AllDisplayable()
      ensures CanDisplay()
    {
      hide Ordered, Displayable, Ins.Ok;
      forall i | 0 <= i < |items|
        ensures Displayable(items[i].effect)
      {
        assert nodes[i] in All() && nodes[i].effect == items[i].effect;
      }
    }

    lemma TopTells()
      requires Valid() && Top() != null
      ensures Top() in All() && (Top().TimedOut() <==> UsedUp(Top().effect, Top().ticks))
      ensures Top().time == Top().ticks * StepOf(Top().effect) && Top().colors == ColorOf(Top().effect, Top().ticks)
    {
      hide Ordered, Displayable;
      assert stable != null ==> stable == nodes[0] && nodes[0].Ok();
    }

    /** The layer on top: a temporary effect, else a real-time one, else the first stable one. */
    ghost function Top(): Ins?
      reads this
    {
      if temp != null then temp else if realtime != null then realtime else stable
    }

    /**
     * `led_effect_task`: effects that have timed out are dropped from the top until one is left to
     * display. The stable list loses its first effect at most, and the one behind it is not asked.
     */
    method EffectTask()
      requires Valid() && CanDisplay()
      modifies this, nodes, temp, realtime
      ensures Valid() && clock == old(clock) && newCommandReached == old(newCommandReached)
      ensures var t, r := old(temp != null && !temp.TimedOut()), old(realtime != null && !realtime.TimedOut());
        var drops := !t && !r && old(stable != null && stable.TimedOut());
        && temp == (if t then old(temp) else null)
        && realtime == (if t || r then old(realtime) else null)
        && items == (if drops then old(items)[1..] else old(items))
        && nodes == (if drops then old(nodes)[1..] else old(nodes))
      ensures if Top() == null then shown == 0 else shown == Top().colors
      ensures Top() != null ==> Top() in old(All()) && Top().Displayed()
      ensures forall n :: n in old(All()) && n != Top() ==> n.Untouched()
    {
      hide Ordered, Linked, Ins.Ok, Displayable, Breath, ColorOf, StepOf, UsedUp;
      if temp != null {
        temp.OkTells();
        if temp.TimedOut() {
          assert temp.live;
          temp.live := false;
          temp := null;
        } else {
          AdvanceOverride(temp);
          shown := temp.colors;
          return;
        }
      }
      label Over:
      LowerTask();
      forall n | n in old(All()) && n != Top()
        ensures n.Untouched()
      {
        assert n in old(All()) - {old(temp)} ==> n.Untouched@Over();
      }
    }

    /** The part of `led_effect_task` under a temporary effect. */
    method LowerTask()
      requires Valid() && CanDisplay() && temp == null
      modifies `realtime, `stable, `nodes, `items, `shown, nodes, realtime
      ensures Valid()
      ensures var r := old(realtime != null && !realtime.TimedOut());
        var drops := !r && old(stable != null && stable.TimedOut());
        && realtime == (if r then old(realtime) else null)
        && items == (if drops then old(items)[1..] else old(items))
        && nodes == (if drops then old(nodes)[1..] else old(nodes))
      ensures if Top() == null then shown == 0 else shown == Top().colors
      ensures Top() != null ==> Top() in old(All()) && Top().Displayed()
      ensures forall n :: n in old(All()) && n != Top() ==> n.Untouched()
    {
      hide Ordered, Linked, Ins.Ok, Displayable, Breath, ColorOf, StepOf, UsedUp;
      if realtime != null {
        realtime.OkTells();
        if realtime.TimedOut() {
          assert realtime.live;
          realtime.live := false;
          realtime := null;
        } else {
          AdvanceOverride(realtime);
          shown := realtime.colors;
          return;
        }
      }
      label Over:
      StableTask();
      forall n | n in old(All()) && n != Top()
        ensures n.Untouched()
      {
        assert n in old(Cells()) ==> n.Untouched@Over();
      }
    }

    /** What a tick does to the set of effects: it loses the one on top exactly when that is used up. */
    method Tick()
      requires Valid() && AllDisplayable()
      modifies this, All()
      ensures Valid() && All() <= old(All())
      ensures var top := old(Top());
        top != null ==> (top in All() <==> !UsedUp(top.effect, old(top.ticks)))
      ensures AllDisplayable()
      ensures var top := old(Top());
        top != null && top in All() ==> Top() == top && top.ticks == old(top.ticks) + 1 && Shown(top)
      ensures Top() == null ==> shown == 0
    {
      hide Ordered, Ins.Ok, Displayable, Breath, ColorOf, StepOf, UsedUp, Chain;
      AllCanDisplay();
      if Top() != null {
        TopTells();
      }
      EffectTask();
      if Top() != null {
        TopTells();
      }
    }

    /**
     * The turns of `led_thread` between two commands: the effect on top is displayed until the displays so
     * far have used up its timeout, and is dropped by the first turn after that.
     */
    method Turns(n: nat)
      requires Valid() && AllDisplayable()
      modifies this, All()
      ensures Valid()
      ensures var top := old(Top());
        top != null ==>
          (top in All() <==>
             n == 0 || top.effect.timeout <= 0
             || (old(top.ticks) + n - 1) * StepOf(top.effect) < top.effect.timeout)
      ensures var top := old(Top());
        top != null && top in All() ==>
          Top() == top && top.ticks == old(top.ticks) + n && (n > 0 ==> Shown(top))
    {
      hide Valid, UsedUp, AllDisplayable, All, Top, Shown;
      var i := 0;
      ghost var top := Top();
      if top != null {
        TopTells();
      }
      while i < n
        invariant i <= n
        invariant Valid() && AllDisplayable()
        invariant All() <= old(All())
        invariant top != null ==> (top in All() <==> i == 0 || !UsedUp(top.effect, old(top.ticks) + i - 1))
        invariant top != null && top in All() ==>
                    Top() == top && top.ticks == old(top.ticks) + i && (i > 0 ==> Shown(top))
      {
        if top != null && top !in All() {
          StaysUsedUp(top.effect, old(top.ticks) + i - 1);
        }
        Tick();
        i := i + 1;
      }
      if top != null && n > 0 {
        UsedUpTells(top.effect, old(top.ticks) + n - 1);
      }
    }

    /** The stable part of `led_effect_task`, with nothing over it. */
    method StableTask()
      requires Valid() && CanDisplay() && temp == null && realtime == null
      modifies `stable, `nodes, `items, `shown, nodes
      ensures Valid()
      ensures var drops := old(stable != null && stable.TimedOut());
        && items == (if drops then old(items)[1..] else old(items))
        && nodes == (if drops then old(nodes)[1..] else old(nodes))
      ensures if stable == null then shown == 0 else shown == stable.colors
      ensures stable != null ==> stable in old(Cells()) && stable.Displayed()
      ensures forall n :: n in old(Cells()) && n != stable ==> n.Untouched()
    {
      hide Ordered, Chain, Distinct, Ins.Ok, ColorOf;
      if stable == null {
        shown := 0;
        return;
      }
      if stable.TimedOut() {
        DropFirst();
        if stable == null {
          shown := 0;
          return;
        }
      }
      AdvanceFirst();
      shown := stable.colors;
    }

    method AdvanceOverride(ins: Ins)
      requires Valid() && ins in Overrides() && Displayable(ins.effect)
      modifies ins`time, ins`colors, ins`count, ins`ticks
      ensures Valid() && ins.Displayed()
    {
      hide Ordered, ColorOf, Breath;
      ins.Advance();
      ins.OkTells();
      assert forall i {:trigger nodes[i].Ok()} :: 0 <= i < |nodes| ==> nodes[i] in Cells();
    }

    method AdvanceFirst()
      requires Valid() && stable != null && Displayable(items[0].effect)
      modifies stable`time, stable`colors, stable`count, stable`ticks
      ensures Valid() && stable.Displayed()
    {
      hide Ordered, ColorOf;
      assert nodes[0].Ok();
      stable.Advance();
      stable.OkTells();
      assert forall i {:trigger nodes[i].Ok()} :: 0 <= i < |nodes| ==> i == 0 || nodes[i] != nodes[0];
    }

    method DropFirst()
      requires Valid() && stable != null
      modifies `stable, `nodes, `items, nodes`live, nodes`next
      ensures Valid() && nodes == old(nodes)[1..] && items == old(items)[1..]
    {
      WithoutFacts(items, 0, clock);
      WithoutAt(nodes, 0);
      hide Ordered, Chain, Distinct;
      Unlink(0, null, stable);
    }
  }
}
