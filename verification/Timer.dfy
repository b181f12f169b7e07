/**
 * The timer manager: a list of active timers sorted by deadline, a list of inactive ones, and the
 * thread that fires the expired timers outside the lock.
 */
module Timers {
  import opened Common

  // ---------- Time ----------

  const MILLION := 1_000_000

  datatype Timeval = Timeval(sec: int, usec: int)

  ghost predicate Normal(t: Timeval) {
    0 <= t.usec < MILLION
  }

  function Micros(t: Timeval): int {
    t.sec * MILLION + t.usec
  }

  /** `timeradd` */
  function TimerAdd(a: Timeval, b: Timeval): Timeval {
    var sec, usec := a.sec + b.sec, a.usec + b.usec;
    if usec >= MILLION then Timeval(sec + 1, usec - MILLION) else Timeval(sec, usec)
  }

  /** `timersub` */
  function TimerSub(a: Timeval, b: Timeval): Timeval {
    var sec, usec := a.sec - b.sec, a.usec - b.usec;
    if usec < 0 then Timeval(sec - 1, usec + MILLION) else Timeval(sec, usec)
  }

  /** `timercmp` with `<` */
  predicate Less(a: Timeval, b: Timeval) {
    if a.sec == b.sec then a.usec < b.usec else a.sec < b.sec
  }

  /** A C cast of a floating-point value to an integer type: towards zero. */
  function Truncate(x: real): int {
    if x >= 0.0 then x.Floor else -(-x).Floor
  }

  function SplitSeconds(seconds: real): Timeval {
    var sec := Truncate(seconds);
    Timeval(sec, Truncate((seconds - sec as real) * 1000000.0))
  }

  /** The field-wise arithmetic is arithmetic on microseconds; on normal values the order is theirs too. */
  lemma TimevalIsMicros(a: Timeval, b: Timeval)
    ensures Micros(TimerAdd(a, b)) == Micros(a) + Micros(b) && Micros(TimerSub(a, b)) == Micros(a) - Micros(b)
    ensures Normal(a) && Normal(b) ==> Normal(TimerAdd(a, b)) && Normal(TimerSub(a, b))
    ensures Normal(a) && Normal(b) ==> (Less(a, b) <==> Micros(a) < Micros(b))
    ensures Normal(a) && Normal(b) && Micros(a) == Micros(b) ==> a == b
  {
  }

  /** A non-negative duration gives a normal delay of that many whole microseconds. */
  lemma SplitSecondsNormal(seconds: real)
    requires seconds >= 0.0
    ensures Normal(SplitSeconds(seconds)) && SplitSeconds(seconds).sec >= 0
    ensures Micros(SplitSeconds(seconds)) == (seconds * 1000000.0).Floor
  {
    var frac := seconds - seconds.Floor as real;
    assert 0.0 <= frac < 1.0;
    assert seconds * 1000000.0 == (seconds.Floor * MILLION) as real + frac * 1000000.0;
  }

  /** A negative duration is split like the positive one, with both signs turned. */
  lemma SplitSecondsMirrors(seconds: real)
    ensures var d := SplitSeconds(seconds); SplitSeconds(-seconds) == Timeval(-d.sec, -d.usec)
  {
    var sec := Truncate(seconds);
    TruncateMirrors(seconds);
    assert -seconds - (-sec) as real == -(seconds - sec as real);
    TruncateMirrors((seconds - sec as real) * 1000000.0);
    hide Truncate;
    assert (-(seconds - sec as real)) * 1000000.0 == -((seconds - sec as real) * 1000000.0);
  }

  lemma TruncateMirrors(x: real)
    ensures Truncate(-x) == -Truncate(x)
  {
  }

  /** What every duration is split into: microseconds are negative only along with the seconds. */
  ghost predicate Shaped(d: Timeval) {
    -MILLION < d.usec < MILLION && (d.usec < 0 ==> d.sec <= 0)
  }

  lemma SplitSecondsShaped(seconds: real)
    ensures Shaped(SplitSeconds(seconds))
    ensures seconds >= 0.0 ==> SplitSeconds(seconds).usec >= 0
  {
    var sec := Truncate(seconds);
    var frac := seconds - sec as real;
    if seconds >= 0.0 {
      assert 0.0 <= frac < 1.0;
    } else {
      assert -1.0 < frac <= 0.0;
      var x := frac * 1000000.0;
      assert x < 0.0 ==> Truncate(x) == -(-x).Floor;
      assert -x < 1000000.0;
    }
  }

  // ---------- The two lists ----------

  class Timer {
    var delay: Timeval
    var deadline: Timeval
    const isPeriod: bool
    /** The ordinal of the latest insertion of this timer into the active list. */
    ghost var stamp: nat

    constructor (delay: Timeval, isPeriod: bool)
      ensures this.delay == delay && this.isPeriod == isPeriod && deadline == Timeval(0, 0) && stamp == 0
    {
      this.delay, this.isPeriod := delay, isPeriod;
      deadline, stamp := Timeval(0, 0), 0;
    }
  }

  /** A timer together with its fields at some moment. */
  datatype Rec = Rec(timer: Timer, delay: Timeval, deadline: Timeval, isPeriod: bool, stamp: nat)

  /** Both lists, and the ordinal of the next insertion. */
  datatype Lists = Lists(start: seq<Rec>, stop: seq<Rec>, next: nat)

  /** The position of a timer, or the length when it is not in the list. */
  ghost function Position(s: seq<Rec>, t: Timer): (k: nat)
    ensures k <= |s|
    ensures forall i :: 0 <= i < k ==> s[i].timer != t
    ensures k < |s| ==> s[k].timer == t
  {
    if s == [] then 0
    else if s[0].timer == t then 0
    else
      var r := Position(s[1..], t);
      assert forall i :: 0 < i < |s| ==> s[i] == s[1..][i - 1];
      1 + r
  }

  /** The first position whose deadline is later than `d`. */
  ghost function Slot(s: seq<Rec>, d: Timeval): (k: nat)
    ensures k <= |s|
    ensures forall i :: 0 <= i < k ==> !Less(d, s[i].deadline)
    ensures k < |s| ==> Less(d, s[k].deadline)
  {
    if s == [] then 0
    else if Less(d, s[0].deadline) then 0
    else
      var r := Slot(s[1..], d);
      assert forall i :: 0 < i < |s| ==> s[i] == s[1..][i - 1];
      1 + r
  }

  /** `timerInsert` */
  ghost function Insert(l: Lists, r: Rec, now: Timeval): Lists {
    var r' := r.(deadline := TimerAdd(now, r.delay), stamp := l.next);
    var k := Slot(l.start, r'.deadline);
    Lists(Placed(l.start, k, r'), l.stop, l.next + 1)
  }

  datatype Found = NotExist | InActive(rec: Rec) | InUnactive(rec: Rec)

  ghost function Find(l: Lists, t: Timer): Found {
    var i, j := Position(l.start, t), Position(l.stop, t);
    if i < |l.start| then InActive(l.start[i]) else if j < |l.stop| then InUnactive(l.stop[j]) else NotExist
  }

  /** `timerRemove` */
  ghost function Remove(l: Lists, t: Timer): Lists {
    match Find(l, t)
    case NotExist => l
    case InActive(_) => l.(start := Without(l.start, Position(l.start, t)))
    case InUnactive(_) => l.(stop := Without(l.stop, Position(l.stop, t)))
  }

  datatype Op = Start(now: Timeval) | Stop | Modify(seconds: real, now: Timeval) | Delete

  /** `timerStart`, `timerStop`, `timerModify` and `timerDelete` on one timer. */
  ghost function Apply(l: Lists, t: Timer, op: Op): Lists {
    var found, l' := Find(l, t), Remove(l, t);
    if found.NotExist? then l
    else match op
      case Start(now) => Insert(l', found.rec, now)
      case Stop => l'.(stop := l'.stop + [found.rec])
      case Modify(seconds, now) =>
        var r := found.rec.(delay := SplitSeconds(seconds));
        if found.InActive? then Insert(l', r, now) else l'.(stop := l'.stop + [r])
      case Delete => l'
  }

  /** `timer_create` */
  ghost function Create(l: Lists, t: Timer, seconds: real, isPeriod: bool, startNow: Option<Timeval>): Lists {
    var r := Rec(t, SplitSeconds(seconds), Timeval(0, 0), isPeriod, 0);
    match startNow
    case Some(now) => Insert(l, r, now)
    case None => l.(stop := l.stop + [r])
  }

  // ---------- Order and conservation over every run ----------

  /** Earlier deadline first, and among equal deadlines the earlier insertion first. */
  ghost predicate Before(a: Rec, b: Rec) {
    Less(a.deadline, b.deadline) || (a.deadline == b.deadline && a.stamp < b.stamp)
  }

  ghost predicate Sorted(s: seq<Rec>) {
    forall i, j :: 0 <= i < j < |s| ==> Before(s[i], s[j])
  }

  ghost predicate NoTwice(s: seq<Rec>) {
    forall i, j :: 0 <= i < j < |s| ==> s[i].timer != s[j].timer
  }

  ghost function Timers(s: seq<Rec>): set<Timer> {
    set i | 0 <= i < |s| :: s[i].timer
  }

  ghost predicate Ok(l: Lists) {
    && Sorted(l.start) && NoTwice(l.start) && NoTwice(l.stop)
    && Timers(l.start) !! Timers(l.stop)
    && forall i {:trigger l.start[i].stamp} :: 0 <= i < |l.start| ==> l.start[i].stamp < l.next
  }

  ghost function Members(l: Lists): set<Timer> {
    Timers(l.start) + Timers(l.stop)
  }

  lemma TimersInsert(s: seq<Rec>, k: nat, r: Rec)
    requires NoTwice(s) && k <= |s| && r.timer !in Timers(s)
    ensures var s' := Placed(s, k, r); NoTwice(s') && Timers(s') == Timers(s) + {r.timer}
  {
    var s' := Placed(s, k, r);
    PlacedAt(s, k, r);
    assert s'[k].timer in Timers(s');
    forall t | t in Timers(s)
      ensures t in Timers(s')
    {
      var i :| 0 <= i < |s| && s[i].timer == t;
      assert s'[if i < k then i else i + 1].timer == t;
    }
  }

  lemma TimersWithout(s: seq<Rec>, k: nat)
    requires NoTwice(s) && k < |s|
    ensures NoTwice(Without(s, k)) && Timers(Without(s, k)) == Timers(s) - {s[k].timer}
  {
    var s' := Without(s, k);
    assert forall i :: 0 <= i < |s| && i != k ==> s[i] == s'[if i < k then i else i - 1];
  }

  lemma OrderWithout(s: seq<Rec>, k: nat, next: nat)
    requires Sorted(s) && k < |s|
    requires forall i {:trigger s[i].stamp} :: 0 <= i < |s| ==> s[i].stamp < next
    ensures var s' := Without(s, k);
      Sorted(s') && forall i {:trigger s'[i].stamp} :: 0 <= i < |s'| ==> s'[i].stamp < next
  {
    hide Before;
    WithoutAt(s, k);
  }

  /** Inserting into the slot of the new deadline keeps the order, and ties stay first in, first out. */
  lemma SlotKeepsOrder(s: seq<Rec>, r: Rec)
    requires Sorted(s)
    requires forall i :: 0 <= i < |s| ==> s[i].stamp < r.stamp
    ensures Sorted(Placed(s, Slot(s, r.deadline), r))
  {
    hide Slot;
    var k := Slot(s, r.deadline);
    forall i | k <= i < |s|
      ensures Before(r, s[i])
    {
      assert i == k || Before(s[k], s[i]);
    }
    SortedInsert(s, k, r);
  }

  lemma SortedInsert(s: seq<Rec>, k: nat, r: Rec)
    requires Sorted(s) && k <= |s|
    requires forall i :: 0 <= i < k ==> Before(s[i], r)
    requires forall i :: k <= i < |s| ==> Before(r, s[i])
    ensures Sorted(Placed(s, k, r))
  {
    hide Before;
    PlacedAt(s, k, r);
  }

  lemma InsertOk(l: Lists, r: Rec, now: Timeval)
    requires Ok(l) && r.timer !in Members(l)
    ensures Ok(Insert(l, r, now)) && Members(Insert(l, r, now)) == Members(l) + {r.timer}
  {
    var r' := r.(deadline := TimerAdd(now, r.delay), stamp := l.next);
    SlotKeepsOrder(l.start, r');
    TimersInsert(l.start, Slot(l.start, r'.deadline), r');
  }

  lemma PositionMember(s: seq<Rec>, t: Timer)
    ensures t in Timers(s) <==> Position(s, t) < |s|
  {
  }

  lemma RemoveOk(l: Lists, t: Timer)
    requires Ok(l)
    ensures Ok(Remove(l, t)) && Members(Remove(l, t)) == Members(l) - {t}
    ensures Find(l, t).NotExist? <==> t !in Members(l)
  {
    hide Sorted, Position, Without;
    PositionMember(l.start, t);
    PositionMember(l.stop, t);
    match Find(l, t)
    case NotExist =>
    case InActive(_) =>
      TimersWithout(l.start, Position(l.start, t));
      OrderWithout(l.start, Position(l.start, t), l.next);
    case InUnactive(_) => TimersWithout(l.stop, Position(l.stop, t));
  }

  lemma StopAppendOk(l: Lists, r: Rec)
    requires Ok(l) && r.timer !in Members(l)
    ensures var l' := l.(stop := l.stop + [r]); Ok(l') && Members(l') == Members(l) + {r.timer}
  {
    TimersInsert(l.stop, |l.stop|, r);
    assert Placed(l.stop, |l.stop|, r) == l.stop + [r];
  }

  /** Starting, stopping and modifying conserve the timers; deleting takes out exactly one. */
  lemma ApplyOk(l: Lists, t: Timer, op: Op)
    requires Ok(l)
    ensures Ok(Apply(l, t, op))
    ensures Members(Apply(l, t, op)) == if op.Delete? then Members(l) - {t} else Members(l)
  {
    RemoveOk(l, t);
    var found, l' := Find(l, t), Remove(l, t);
    hide Ok, Members, Remove;
    if !found.NotExist? {
      match op
      case Start(now) => InsertOk(l', found.rec, now);
      case Stop => StopAppendOk(l', found.rec);
      case Modify(seconds, now) =>
        var r := found.rec.(delay := SplitSeconds(seconds));
        if found.InActive? { InsertOk(l', r, now); } else { StopAppendOk(l', r); }
      case Delete =>
    }
  }

  lemma CreateOk(l: Lists, t: Timer, seconds: real, isPeriod: bool, startNow: Option<Timeval>)
    requires Ok(l) && t !in Members(l)
    ensures var l' := Create(l, t, seconds, isPeriod, startNow); Ok(l') && Members(l') == Members(l) + {t}
  {
    var r := Rec(t, SplitSeconds(seconds), Timeval(0, 0), isPeriod, 0);
    match startNow
    case Some(now) => InsertOk(l, r, now);
    case None => StopAppendOk(l, r);
  }

  datatype Call =
    | CallCreate(timer: Timer, seconds: real, isPeriod: bool, startNow: Option<Timeval>)
    | CallOp(timer: Timer, op: Op)

  /** One call of the interface. A created timer is a new object. */
  ghost predicate Possible(l: Lists, c: Call) {
    c.CallCreate? ==> c.timer !in Members(l)
  }

  ghost function Step(l: Lists, c: Call): Lists {
    match c
    case CallCreate(t, seconds, isPeriod, startNow) => Create(l, t, seconds, isPeriod, startNow)
    case CallOp(t, op) => Apply(l, t, op)
  }

  ghost function Run(l: Lists, calls: seq<Call>): Lists
    decreases |calls|
  {
    if calls == [] then l else Run(Step(l, calls[0]), calls[1..])
  }

  ghost predicate PossibleRun(l: Lists, calls: seq<Call>)
    decreases |calls|
  {
    calls == [] || (Possible(l, calls[0]) && PossibleRun(Step(l, calls[0]), calls[1..]))
  }

  /** The timers that exist after a run: those created and not deleted since. */
  ghost function Alive(timers: set<Timer>, calls: seq<Call>): set<Timer>
    decreases |calls|
  {
    if calls == [] then timers
    else
      var c := calls[0];
      var timers' :=
        if c.CallCreate? then timers + {c.timer} else if c.op.Delete? then timers - {c.timer} else timers;
      Alive(timers', calls[1..])
  }

  /** Over every run the active list is sorted with ties in insertion order, and no timer is in two places or lost. */
  lemma {:induction false} RunOk(l: Lists, calls: seq<Call>)
    requires Ok(l) && PossibleRun(l, calls)
    ensures Ok(Run(l, calls)) && Members(Run(l, calls)) == Alive(Members(l), calls)
    decreases |calls|
  {
    if calls != [] {
      match calls[0] {
        case CallCreate(t, seconds, isPeriod, startNow) => CreateOk(l, t, seconds, isPeriod, startNow);
        case CallOp(t, op) => ApplyOk(l, t, op);
      }
      RunOk(Step(l, calls[0]), calls[1..]);
    }
  }

  // ---------- One timer at a time ----------

  /** What can be said about a timer: inactive, active until a deadline, or in neither list. */
  datatype Status =
    | Gone
    | Idle(delay: Timeval, isPeriod: bool)
    | Active(delay: Timeval, isPeriod: bool, deadline: Timeval)

  ghost function StatusOf(l: Lists, t: Timer): Status {
    match Find(l, t)
    case NotExist => Gone
    case InActive(r) => Active(r.delay, r.isPeriod, r.deadline)
    case InUnactive(r) => Idle(r.delay, r.isPeriod)
  }

  /** What an operation does to the timer it is called on. */
  ghost function Next(s: Status, op: Op): Status {
    if s.Gone? then Gone
    else match op
      case Start(now) => Active(s.delay, s.isPeriod, TimerAdd(now, s.delay))
      case Stop => Idle(s.delay, s.isPeriod)
      case Modify(seconds, now) =>
        var delay := SplitSeconds(seconds);
        if s.Active? then Active(delay, s.isPeriod, TimerAdd(now, delay)) else Idle(delay, s.isPeriod)
      case Delete => Gone
  }

  lemma FindStart(l: Lists, i: nat)
    requires Ok(l) && i < |l.start|
    ensures Find(l, l.start[i].timer) == InActive(l.start[i])
  {
    var k := Position(l.start, l.start[i].timer);
    assert k == i;
  }

  lemma FindStop(l: Lists, i: nat)
    requires Ok(l) && i < |l.stop|
    ensures Find(l, l.stop[i].timer) == InUnactive(l.stop[i])
  {
    var t := l.stop[i].timer;
    assert t in Timers(l.stop);
    assert Position(l.stop, t) == i;
    PositionMember(l.start, t);
  }

  /** In lists with the same records outside one timer, every other timer is found alike. */
  lemma FindAlike(l: Lists, l': Lists, x: Timer)
    requires Ok(l) && Ok(l')
    requires forall r :: r in l.start && r.timer == x ==> r in l'.start
    requires forall r :: r in l.stop && r.timer == x ==> r in l'.stop
    requires x in Members(l) <==> x in Members(l')
    ensures Find(l', x) == Find(l, x)
  {
    PositionMember(l.start, x);
    PositionMember(l.stop, x);
    PositionMember(l'.start, x);
    PositionMember(l'.stop, x);
    match Find(l, x) {
      case NotExist =>
      case InActive(r) =>
        assert r in l.start;
        var i :| 0 <= i < |l'.start| && l'.start[i] == r;
        FindStart(l', i);
      case InUnactive(r) =>
        assert r in l.stop;
        var i :| 0 <= i < |l'.stop| && l'.stop[i] == r;
        FindStop(l', i);
    }
  }

  lemma InsertFind(l: Lists, r: Rec, now: Timeval, x: Timer)
    requires Ok(l) && r.timer !in Members(l)
    ensures Find(Insert(l, r, now), x) ==
      if x == r.timer then InActive(r.(deadline := TimerAdd(now, r.delay), stamp := l.next)) else Find(l, x)
  {
    InsertOk(l, r, now);
    var l' := Insert(l, r, now);
    var k := Slot(l.start, TimerAdd(now, r.delay));
    if x == r.timer {
      FindStart(l', k);
    } else {
      PlacedMembers(l.start, k, l'.start[k]);
      FindAlike(l, l', x);
    }
  }

  lemma RemoveFind(l: Lists, t: Timer, x: Timer)
    requires Ok(l)
    ensures Find(Remove(l, t), x) == if x == t then NotExist else Find(l, x)
  {
    RemoveOk(l, t);
    var l' := Remove(l, t);
    if x == t {
      RemoveOk(l', x);
    } else {
      var i, j := Position(l.start, t), Position(l.stop, t);
      assert i < |l.start| ==> l.start == l.start[..i] + [l.start[i]] + l.start[i + 1..];
      assert j < |l.stop| ==> l.stop == l.stop[..j] + [l.stop[j]] + l.stop[j + 1..];
      FindAlike(l, l', x);
    }
  }

  lemma StopAppendFind(l: Lists, r: Rec, x: Timer)
    requires Ok(l) && r.timer !in Members(l)
    ensures Find(l.(stop := l.stop + [r]), x) == if x == r.timer then InUnactive(r) else Find(l, x)
  {
    StopAppendOk(l, r);
    var l' := l.(stop := l.stop + [r]);
    if x == r.timer {
      FindStop(l', |l.stop|);
    } else {
      FindAlike(l, l', x);
    }
  }

  /** An operation leaves every other timer's record alone. */
  lemma ApplyOthers(l: Lists, t: Timer, op: Op, x: Timer)
    requires Ok(l) && x != t
    ensures Find(Apply(l, t, op), x) == Find(l, x)
  {
    var found, l' := Find(l, t), Remove(l, t);
    RemoveOk(l, t);
    RemoveFind(l, t, x);
    hide Ok, Members, Find, Remove, Insert;
    if !found.NotExist? {
      match op
      case Start(now) => InsertFind(l', found.rec, now, x);
      case Stop => StopAppendFind(l', found.rec, x);
      case Modify(seconds, now) =>
        var r := found.rec.(delay := SplitSeconds(seconds));
        if found.InActive? { InsertFind(l', r, now, x); } else { StopAppendFind(l', r, x); }
      case Delete =>
    }
  }

  /** An operation moves the timer it is called on as `Next` says. */
  lemma ApplyOwn(l: Lists, t: Timer, op: Op)
    requires Ok(l)
    ensures StatusOf(Apply(l, t, op), t) == Next(StatusOf(l, t), op)
  {
    var found, l' := Find(l, t), Remove(l, t);
    RemoveOk(l, t);
    RemoveFind(l, t, t);
    FoundRec(l, t);
    hide Ok, Members, Find, Remove, Insert;
    if !found.NotExist? {
      match op
      case Start(now) => InsertFind(l', found.rec, now, t);
      case Stop => StopAppendFind(l', found.rec, t);
      case Modify(seconds, now) =>
        var r := found.rec.(delay := SplitSeconds(seconds));
        if found.InActive? { InsertFind(l', r, now, t); } else { StopAppendFind(l', r, t); }
      case Delete =>
    }
  }

  /**
   * What each operation makes of the timer it is called on; the inactive list gets it as its last one,
   * and nothing happens to a timer that is in no list.
   */
  lemma OperationsTell(l: Lists, t: Timer, seconds: real, now: Timeval)
    requires Ok(l)
    ensures var s := StatusOf(l, t);
      if s.Gone? then forall op :: Apply(l, t, op) == l
      else
        && StatusOf(Apply(l, t, Start(now)), t) == Active(s.delay, s.isPeriod, TimerAdd(now, s.delay))
        && StatusOf(Apply(l, t, Stop), t) == Idle(s.delay, s.isPeriod)
        && StatusOf(Apply(l, t, Modify(seconds, now)), t) ==
             (if s.Idle? then Idle(SplitSeconds(seconds), s.isPeriod)
              else Active(SplitSeconds(seconds), s.isPeriod, TimerAdd(now, SplitSeconds(seconds))))
        && StatusOf(Apply(l, t, Delete), t) == Gone
        && IsLast(Apply(l, t, Stop).stop, t)
        && (s.Idle? ==> IsLast(Apply(l, t, Modify(seconds, now)).stop, t))
  {
    ApplyOwn(l, t, Start(now));
    ApplyOwn(l, t, Stop);
    ApplyOwn(l, t, Modify(seconds, now));
    ApplyOwn(l, t, Delete);
    hide Ok, Remove, Insert, Position, SplitSeconds;
  }

  ghost predicate IsLast(s: seq<Rec>, t: Timer) {
    s != [] && s[|s| - 1].timer == t
  }

  /** A created timer has the delay and kind it was given, and is active from now on or the last inactive one. */
  lemma CreateOwn(l: Lists, t: Timer, seconds: real, isPeriod: bool, startNow: Option<Timeval>)
    requires Ok(l) && t !in Members(l)
    ensures var l' := Create(l, t, seconds, isPeriod, startNow);
      match startNow
      case Some(now) =>
        StatusOf(l', t) == Active(SplitSeconds(seconds), isPeriod, TimerAdd(now, SplitSeconds(seconds)))
      case None =>
        StatusOf(l', t) == Idle(SplitSeconds(seconds), isPeriod) && IsLast(l'.stop, t)
  {
    var r := Rec(t, SplitSeconds(seconds), Timeval(0, 0), isPeriod, 0);
    hide Ok, Members, Insert, SplitSeconds, Find;
    match startNow
    case Some(now) => InsertFind(l, r, now, t);
    case None => StopAppendFind(l, r, t);
  }

  /** A creation leaves every other timer's record alone. */
  lemma CreateOthers(l: Lists, t: Timer, seconds: real, isPeriod: bool, startNow: Option<Timeval>, x: Timer)
    requires Ok(l) && t !in Members(l) && x != t
    ensures Find(Create(l, t, seconds, isPeriod, startNow), x) == Find(l, x)
  {
    var r := Rec(t, SplitSeconds(seconds), Timeval(0, 0), isPeriod, 0);
    hide Ok, Members, Insert, SplitSeconds, Find;
    match startNow
    case Some(now) => InsertFind(l, r, now, x);
    case None => StopAppendFind(l, r, x);
  }

  lemma FoundRec(l: Lists, t: Timer)
    ensures Find(l, t).NotExist? || Find(l, t).rec.timer == t
  {
  }

  // ---------- One round of the thread ----------

  /** One firing: the reading of the clock in `timerStart`, and what the callback does to its own timer. */
  datatype Visit = Visit(now: Timeval, ops: seq<Op>)

  /** A periodic timer is restarted before its callback, a one-shot timer deleted after it. */
  ghost function Firing(isPeriod: bool, v: Visit): seq<Op> {
    if isPeriod then [Start(v.now)] + v.ops else v.ops + [Delete]
  }

  ghost function ApplyAll(l: Lists, t: Timer, ops: seq<Op>): Lists {
    if ops == [] then l else Apply(ApplyAll(l, t, ops[..|ops| - 1]), t, ops[|ops| - 1])
  }

  ghost function Fate(s: Status, ops: seq<Op>): Status {
    if ops == [] then s else Next(Fate(s, ops[..|ops| - 1]), ops[|ops| - 1])
  }

  ghost function FireAll(l: Lists, es: seq<Rec>, vs: seq<Visit>): Lists
    requires |es| == |vs|
  {
    if es == [] then l
    else
      var k := |es| - 1;
      ApplyAll(FireAll(l, es[..k], vs[..k]), es[k].timer, Firing(es[k].isPeriod, vs[k]))
  }

  lemma {:induction false} ApplyAllFind(l: Lists, t: Timer, ops: seq<Op>, x: Timer)
    requires Ok(l)
    ensures Ok(ApplyAll(l, t, ops))
    ensures x != t ==> Find(ApplyAll(l, t, ops), x) == Find(l, x)
    ensures StatusOf(ApplyAll(l, t, ops), t) == Fate(StatusOf(l, t), ops)
  {
    hide Ok, Apply, Find;
    if ops != [] {
      var front, op := ops[..|ops| - 1], ops[|ops| - 1];
      ApplyAllFind(l, t, front, x);
      ApplyOk(ApplyAll(l, t, front), t, op);
      ApplyOwn(ApplyAll(l, t, front), t, op);
      if x != t {
        ApplyOthers(ApplyAll(l, t, front), t, op, x);
      }
    }
  }

  lemma {:induction false} FireAllOk(l: Lists, es: seq<Rec>, vs: seq<Visit>)
    requires Ok(l) && |es| == |vs|
    ensures Ok(FireAll(l, es, vs))
  {
    if es != [] {
      var k := |es| - 1;
      FireAllOk(l, es[..k], vs[..k]);
      ApplyAllFind(FireAll(l, es[..k], vs[..k]), es[k].timer, Firing(es[k].isPeriod, vs[k]), es[k].timer);
    }
  }

  lemma TimersLast(es: seq<Rec>, k: nat)
    requires |es| == k + 1 && NoTwice(es)
    ensures NoTwice(es[..k]) && Timers(es) == Timers(es[..k]) + {es[k].timer} && es[k].timer !in Timers(es[..k])
  {
    assert forall i :: 0 <= i < k ==> es[i] == es[..k][i];
  }

  /** A round moves each fired timer through its own firing and leaves every other record as it was. */
  lemma {:induction false} RoundFind(l: Lists, es: seq<Rec>, vs: seq<Visit>, x: Timer)
    requires Ok(l) && |es| == |vs| && NoTwice(es)
    ensures x !in Timers(es) ==> Find(FireAll(l, es, vs), x) == Find(l, x)
    ensures forall k :: 0 <= k < |es| && es[k].timer == x ==>
              StatusOf(FireAll(l, es, vs), x) == Fate(StatusOf(l, x), Firing(es[k].isPeriod, vs[k]))
  {
    hide Ok, ApplyAll, Find, Fate, Firing;
    if es != [] {
      var k := |es| - 1;
      var t := es[k].timer;
      FireAllOk(l, es[..k], vs[..k]);
      RoundFind(l, es[..k], vs[..k], x);
      ApplyAllFind(FireAll(l, es[..k], vs[..k]), t, Firing(es[k].isPeriod, vs[k]), x);
      TimersLast(es, k);
      assert forall i :: 0 <= i < k ==> es[i] == es[..k][i] && vs[i] == vs[..k][i];
    }
  }

  ghost predicate NoDelete(ops: seq<Op>) {
    forall i :: 0 <= i < |ops| ==> !ops[i].Delete?
  }

  lemma {:induction false} FateStopped(s: Status, ops: seq<Op>)
    requires !s.Gone? && NoDelete(ops)
    ensures !Fate(s, ops).Gone?
    ensures ops != [] && ops[|ops| - 1].Stop? ==> Fate(s, ops).Idle?
  {
    if ops != [] {
      FateStopped(s, ops[..|ops| - 1]);
    }
  }

  lemma FateLast(s: Status, ops: seq<Op>, op: Op)
    ensures Fate(s, ops + [op]) == Next(Fate(s, ops), op)
    ensures op.Delete? ==> Fate(s, ops + [op]).Gone?
  {
    assert (ops + [op])[..|ops|] == ops;
  }

  /** What a firing comes to, by the kind of the timer and the behaviour of its callback. */
  lemma FiringFate(s: Status, v: Visit)
    ensures Fate(s, Firing(false, v)).Gone?
    ensures v.ops == [] ==> Fate(s, Firing(true, v)) == Next(s, Start(v.now))
    ensures !s.Gone? && NoDelete(v.ops) && v.ops != [] && v.ops[|v.ops| - 1].Stop? ==> Fate(s, Firing(true, v)).Idle?
    ensures !s.Gone? && NoDelete(v.ops) ==> !Fate(s, Firing(false, v)[..|v.ops|]).Gone?
  {
    hide Next;
    assert (v.ops + [Delete])[..|v.ops|] == v.ops;
    FateLast(s, v.ops, Delete);
    FateLast(s, [], Start(v.now));
    assert [] + [Start(v.now)] == [Start(v.now)] == [Start(v.now)] + [];
    if !s.Gone? && NoDelete(v.ops) {
      FateStopped(s, [Start(v.now)] + v.ops);
      FateStopped(s, v.ops);
    }
  }

  /**
   * What a round leaves of a fired timer: a one-shot timer is gone, an untouched periodic timer is
   * active with deadline now plus delay, and one that stopped itself is inactive.
   */
  ghost predicate FiredAs(r: Rec, v: Visit, s: Status) {
    && (!r.isPeriod ==> s == Gone)
    && (r.isPeriod && v.ops == [] ==> s == Active(r.delay, true, TimerAdd(v.now, r.delay)))
    && (r.isPeriod && NoDelete(v.ops) && v.ops != [] && v.ops[|v.ops| - 1].Stop? ==> s.Idle?)
  }

  lemma RoundFired(l: Lists, n: nat, vs: seq<Visit>, k: nat)
    requires Ok(l) && k < n <= |l.start| && |vs| == n
    ensures FiredAs(l.start[k], vs[k], StatusOf(FireAll(l, l.start[..n], vs), l.start[k].timer))
  {
    hide FireAll, Fate, Firing;
    var r, es := l.start[k], l.start[..n];
    FindStart(l, k);
    assert es[k] == r;
    RoundFind(l, es, vs, r.timer);
    FiringFate(StatusOf(l, r.timer), vs[k]);
  }

  lemma RoundKept(l: Lists, n: nat, vs: seq<Visit>, x: Timer)
    requires Ok(l) && n <= |l.start| && |vs| == n
    requires x !in Timers(l.start[..n])
    ensures Find(FireAll(l, l.start[..n], vs), x) == Find(l, x)
  {
    RoundFind(l, l.start[..n], vs, x);
  }

  /** A full round whose callbacks touch only their own timer: fired timers as above, nothing else changed. */
  lemma RoundResult(l: Lists, n: nat, vs: seq<Visit>)
    requires Ok(l) && n <= |l.start| && |vs| == n
    ensures var after := FireAll(l, l.start[..n], vs);
      && Ok(after)
      && (forall k :: 0 <= k < n ==> FiredAs(l.start[k], vs[k], StatusOf(after, l.start[k].timer)))
      && (forall i :: n <= i < |l.start| ==> Find(after, l.start[i].timer) == InActive(l.start[i]))
      && (forall i :: 0 <= i < |l.stop| ==> Find(after, l.stop[i].timer) == InUnactive(l.stop[i]))
  {
    var es := l.start[..n];
    FireAllOk(l, es, vs);
    forall k | 0 <= k < n
      ensures FiredAs(l.start[k], vs[k], StatusOf(FireAll(l, es, vs), l.start[k].timer))
    {
      RoundFired(l, n, vs, k);
    }
    forall i | n <= i < |l.start|
      ensures Find(FireAll(l, es, vs), l.start[i].timer) == InActive(l.start[i])
    {
      FindStart(l, i);
      RoundKept(l, n, vs, l.start[i].timer);
    }
    forall i | 0 <= i < |l.stop|
      ensures Find(FireAll(l, es, vs), l.stop[i].timer) == InUnactive(l.stop[i])
    {
      FindStop(l, i);
      assert l.stop[i].timer in Timers(l.stop);
      assert forall t :: t in Timers(es) ==> t in Timers(l.start);
      RoundKept(l, n, vs, l.stop[i].timer);
    }
  }

  // ---------- A round is a run of calls ----------

  /** The calls that a list of operations on one timer makes. */
  ghost function OpCalls(t: Timer, ops: seq<Op>): seq<Call> {
    if ops == [] then [] else OpCalls(t, ops[..|ops| - 1]) + [CallOp(t, ops[|ops| - 1])]
  }

  /** The calls of the thread and the callbacks in a round. */
  ghost function RoundCalls(es: seq<Rec>, vs: seq<Visit>): seq<Call>
    requires |es| == |vs|
  {
    if es == [] then []
    else
      var k := |es| - 1;
      RoundCalls(es[..k], vs[..k]) + OpCalls(es[k].timer, Firing(es[k].isPeriod, vs[k]))
  }

  lemma {:induction false} RunConcat(l: Lists, a: seq<Call>, b: seq<Call>)
    ensures Run(l, a + b) == Run(Run(l, a), b)
    decreases |a|
  {
    hide Step;
    if a == [] {
      assert a + b == b;
    } else {
      assert (a + b)[1..] == a[1..] + b;
      RunConcat(Step(l, a[0]), a[1..], b);
    }
  }

  lemma {:induction false} ApplyAllIsRun(l: Lists, t: Timer, ops: seq<Op>)
    ensures Run(l, OpCalls(t, ops)) == ApplyAll(l, t, ops)
  {
    hide Apply;
    if ops != [] {
      var front, c := ops[..|ops| - 1], CallOp(t, ops[|ops| - 1]);
      ApplyAllIsRun(l, t, front);
      RunConcat(l, OpCalls(t, front), [c]);
      assert [c][1..] == [];
    }
  }

  /** What holds over every run holds over runs with rounds of the thread in them. */
  lemma {:induction false} RoundIsRun(l: Lists, es: seq<Rec>, vs: seq<Visit>)
    requires |es| == |vs|
    ensures Run(l, RoundCalls(es, vs)) == FireAll(l, es, vs)
  {
    hide Run, ApplyAll, OpCalls, Firing;
    if es == [] {
      assert Run(l, []) == l by { RunOfNothing(l); }
    } else {
      var k := |es| - 1;
      RoundIsRun(l, es[..k], vs[..k]);
      var ops := Firing(es[k].isPeriod, vs[k]);
      RunConcat(l, RoundCalls(es[..k], vs[..k]), OpCalls(es[k].timer, ops));
      ApplyAllIsRun(FireAll(l, es[..k], vs[..k]), es[k].timer, ops);
    }
  }

  lemma RunOfNothing(l: Lists)
    ensures Run(l, []) == l
  {
  }

  // ---------- The expiry scan ----------

  /** Readings of the clock are normal and do not go back. */
  ghost predicate Forward(clock: nat -> Timeval) {
    && (forall i :: Normal(clock(i)))
    && (forall i, j :: i <= j ==> Micros(clock(i)) <= Micros(clock(j)))
  }

  /** The test of the scan: at most 500 microseconds are left. */
  predicate Due(delta: Timeval) {
    delta.sec < 0 || (delta.sec == 0 && delta.usec <= 500)
  }

  /** How many timers from position `i` on the scan collects: it stops at the first that is not due. */
  ghost function Collected(s: seq<Rec>, clock: nat -> Timeval, i: nat): (n: nat)
    requires i <= |s|
    ensures i <= n <= |s|
    ensures forall k :: i <= k < n ==> Due(TimerSub(s[k].deadline, clock(k)))
    ensures n < |s| ==> !Due(TimerSub(s[n].deadline, clock(n)))
    decreases |s| - i
  {
    if i < |s| && Due(TimerSub(s[i].deadline, clock(i))) then Collected(s, clock, i + 1) else i
  }

  /** The scan collects exactly the timers whose deadline is within 500 microseconds of its last reading. */
  ghost predicate Exact(s: seq<Rec>, clock: nat -> Timeval) {
    var n := Collected(s, clock, 0);
    s != [] ==>
      var last := clock(if n < |s| then n else n - 1);
      forall i :: 0 <= i < |s| ==> (i < n <==> Micros(s[i].deadline) <= Micros(last) + 500)
  }

  /** A deadline with at most one microsecond below zero. */
  ghost predicate Shallow(d: Timeval) {
    -1 <= d.usec < MILLION
  }

  /** A deadline that a clock at `now` compares right: shallow, or at a second that has been reached. */
  ghost predicate Readable(d: Timeval, now: Timeval) {
    Shallow(d) || (-MILLION < d.usec < 0 && d.sec <= now.sec)
  }

  lemma DueIsMicros(deadline: Timeval, now: Timeval)
    requires Readable(deadline, now) && Normal(now)
    ensures Due(TimerSub(deadline, now)) <==> Micros(deadline) <= Micros(now) + 500
  {
  }

  /** No deadline behind one that is not due is earlier than it. */
  lemma BehindIsLater(a: Timeval, b: Timeval, now: Timeval)
    requires Readable(a, now) && Readable(b, now) && Normal(now)
    requires Less(a, b) || a == b
    requires !Due(TimerSub(a, now))
    ensures Micros(a) <= Micros(b)
  {
    DueIsMicros(a, now);
  }

  lemma SecondsForward(a: Timeval, b: Timeval)
    requires Normal(a) && Normal(b) && Micros(a) <= Micros(b)
    ensures a.sec <= b.sec
  {
  }

  ghost predicate AllReadable(s: seq<Rec>, now: Timeval) {
    forall i {:trigger s[i].deadline} :: 0 <= i < |s| ==> Readable(s[i].deadline, now)
  }

  /** Stopping at the first timer that is not due misses no other, on a list that the first reading compares right. */
  lemma ScanIsExact(s: seq<Rec>, clock: nat -> Timeval)
    requires Sorted(s) && Forward(clock) && AllReadable(s, clock(0))
    ensures Exact(s, clock)
  {
    var n := Collected(s, clock, 0);
    forall i, k {:trigger Readable(s[i].deadline, clock(k))} | 0 <= i < |s| && 0 <= k
      ensures Readable(s[i].deadline, clock(k))
    {
      SecondsForward(clock(0), clock(k));
    }
    forall i | 0 <= i < n
      ensures Micros(s[i].deadline) <= Micros(clock(i)) + 500
    {
      assert Readable(s[i].deadline, clock(i));
      DueIsMicros(s[i].deadline, clock(i));
    }
    if n < |s| {
      assert Readable(s[n].deadline, clock(n));
      DueIsMicros(s[n].deadline, clock(n));
      forall i | n < i < |s|
        ensures Micros(s[n].deadline) <= Micros(s[i].deadline)
      {
        assert Before(s[n], s[i]) && Readable(s[i].deadline, clock(n));
        BehindIsLater(s[n].deadline, s[i].deadline, clock(n));
      }
    }
  }

  lemma ScanOfOk(l: Lists, clock: nat -> Timeval)
    ensures Ok(l) && Forward(clock) && AllReadable(l.start, clock(0)) ==> Exact(l.start, clock)
  {
    hide Exact, Forward, AllReadable;
    if Ok(l) && Forward(clock) && AllReadable(l.start, clock(0)) {
      ScanIsExact(l.start, clock);
    }
  }

  // ---------- The scan after every run ----------

  /** Every delay is a `p`, and every deadline of an active timer a `q`. */
  ghost predicate Fits(l: Lists, p: Timeval -> bool, q: Timeval -> bool) {
    && (forall i {:trigger l.start[i].delay} :: 0 <= i < |l.start| ==> p(l.start[i].delay))
    && (forall i {:trigger l.stop[i].delay} :: 0 <= i < |l.stop| ==> p(l.stop[i].delay))
    && (forall i {:trigger l.start[i].deadline} :: 0 <= i < |l.start| ==> q(l.start[i].deadline))
  }

  /** The duration that a call sets, and the reading of the clock that it makes. */
  ghost function DurationOf(c: Call): Option<real> {
    match c
    case CallCreate(_, seconds, _, _) => Some(seconds)
    case CallOp(_, Modify(seconds, _)) => Some(seconds)
    case CallOp(_, _) => None
  }

  ghost function ReadingOf(c: Call): Option<Timeval> {
    match c
    case CallCreate(_, _, _, startNow) => startNow
    case CallOp(_, Start(now)) => Some(now)
    case CallOp(_, Modify(_, now)) => Some(now)
    case CallOp(_, _) => None
  }

  lemma InsertFits(l: Lists, r: Rec, now: Timeval, p: Timeval -> bool, q: Timeval -> bool)
    requires Fits(l, p, q) && p(r.delay) && q(TimerAdd(now, r.delay))
    ensures Fits(Insert(l, r, now), p, q)
  {
    hide Slot, TimerAdd;
    var d := TimerAdd(now, r.delay);
    PlacedAt(l.start, Slot(l.start, d), r.(deadline := d, stamp := l.next));
  }

  lemma StepFits(l: Lists, c: Call, p: Timeval -> bool, q: Timeval -> bool)
    requires Fits(l, p, q)
    requires DurationOf(c).Some? ==> p(SplitSeconds(DurationOf(c).value))
    requires ReadingOf(c).Some? ==> forall d :: p(d) ==> q(TimerAdd(ReadingOf(c).value, d))
    ensures Fits(Step(l, c), p, q)
  {
    hide Insert, Position, SplitSeconds, TimerAdd;
    match c {
      case CallCreate(t, seconds, isPeriod, startNow) =>
        if startNow.Some? {
          InsertFits(l, Rec(t, SplitSeconds(seconds), Timeval(0, 0), isPeriod, 0), startNow.value, p, q);
        }
      case CallOp(t, op) =>
        var found, l' := Find(l, t), Remove(l, t);
        assert Fits(l', p, q);
        if !found.NotExist? {
          match op
          case Start(now) => InsertFits(l', found.rec, now, p, q);
          case Stop =>
          case Modify(seconds, now) =>
            if found.InActive? {
              InsertFits(l', found.rec.(delay := SplitSeconds(seconds)), now, p, q);
            }
          case Delete =>
        }
    }
  }

  /** The readings of the calls are normal and do not go back, from one time to another. */
  ghost predicate Timely(calls: seq<Call>, from: Timeval, until: Timeval)
    decreases |calls|
  {
    if calls == [] then Micros(from) <= Micros(until)
    else match ReadingOf(calls[0])
      case None => Timely(calls[1..], from, until)
      case Some(now) => Normal(now) && Micros(from) <= Micros(now) && Timely(calls[1..], now, until)
  }

  ghost function ReadableAt(now: Timeval): Timeval -> bool {
    d => Readable(d, now)
  }

  lemma DeadlineReadable(at: Timeval, delay: Timeval)
    requires Normal(at) && Shaped(delay)
    ensures Readable(TimerAdd(at, delay), at)
  {
  }

  lemma FitsLater(l: Lists, p: Timeval -> bool, from: Timeval, now: Timeval)
    requires Fits(l, p, ReadableAt(from)) && Normal(from) && Normal(now) && Micros(from) <= Micros(now)
    ensures Fits(l, p, ReadableAt(now))
  {
    SecondsForward(from, now);
  }

  lemma {:induction false} TimelyFits(l: Lists, calls: seq<Call>, from: Timeval, until: Timeval)
    requires Fits(l, Shaped, ReadableAt(from)) && Normal(from) && Normal(until) && Timely(calls, from, until)
    ensures Fits(Run(l, calls), Shaped, ReadableAt(until))
    decreases |calls|
  {
    hide Fits, Step, SplitSeconds, TimerAdd, Micros, Shaped, Readable;
    if calls == [] {
      FitsLater(l, Shaped, from, until);
    } else {
      var c := calls[0];
      var now := if ReadingOf(c).Some? then ReadingOf(c).value else from;
      FitsLater(l, Shaped, from, now);
      forall d | Shaped(d)
        ensures Readable(TimerAdd(now, d), now)
      {
        DeadlineReadable(now, d);
      }
      if DurationOf(c).Some? {
        SplitSecondsShaped(DurationOf(c).value);
      }
      StepFits(l, c, Shaped, ReadableAt(now));
      TimelyFits(Step(l, c), calls[1..], now, until);
    }
  }

  const NO_TIMERS := Lists([], [], 0)

  /**
   * For all durations, negative ones included: after every run of calls whose readings do not go back,
   * a scan at later readings that do not go back either collects exactly the expired timers.
   */
  lemma ForwardRunsScanExactly(calls: seq<Call>, from: Timeval, clock: nat -> Timeval)
    requires PossibleRun(NO_TIMERS, calls)
    requires Normal(from) && Forward(clock) && Timely(calls, from, clock(0))
    ensures Exact(Run(NO_TIMERS, calls).start, clock)
  {
    hide Exact, Run, PossibleRun, Timely;
    RunOk(NO_TIMERS, calls);
    TimelyFits(NO_TIMERS, calls, from, clock(0));
    ScanIsExact(Run(NO_TIMERS, calls).start, clock);
  }

  /** The readings of the calls are normal, in any order, and their durations are `ok`. */
  ghost predicate Uses(calls: seq<Call>, ok: real -> bool) {
    forall i {:trigger calls[i]} :: 0 <= i < |calls| ==>
      && (ReadingOf(calls[i]).Some? ==> Normal(ReadingOf(calls[i]).value))
      && (DurationOf(calls[i]).Some? ==> ok(DurationOf(calls[i]).value))
  }

  /** The microseconds of every `ok` duration are at least -1. */
  ghost predicate ShallowDurations(ok: real -> bool) {
    forall d :: ok(d) ==> SplitSeconds(d).usec >= -1
  }

  lemma {:induction false} ShallowFits(l: Lists, calls: seq<Call>, ok: real -> bool)
    requires Fits(l, Shallow, Shallow) && Uses(calls, ok) && ShallowDurations(ok)
    ensures Fits(Run(l, calls), Shallow, Shallow)
    decreases |calls|
  {
    hide Fits, Step, SplitSeconds;
    if calls != [] {
      var c := calls[0];
      if DurationOf(c).Some? {
        SplitSecondsShaped(DurationOf(c).value);
      }
      StepFits(l, c, Shallow, Shallow);
      ShallowFits(Step(l, c), calls[1..], ok);
    }
  }

  /** Two timers, created while the clock goes back, of which the one in front hides the one behind. */
  ghost function HidingRun(d: real, t: Timer, u: Timer): seq<Call> {
    var s := SplitSeconds(d).sec;
    [CallCreate(t, d, false, Some(Timeval(10 - s, 0))), CallCreate(u, 0.0, false, Some(Timeval(9, 999999)))]
  }

  /** The time at which the hidden timer has just expired. */
  ghost function HidingTime(d: real): Timeval {
    var u := SplitSeconds(d).usec;
    if u >= -999500 then Timeval(9, 999500 + u) else Timeval(8, 1999500 + u)
  }

  lemma HidingRunStart(d: real, t: Timer, u: Timer)
    requires t != u && SplitSeconds(d).usec <= -2
    ensures PossibleRun(NO_TIMERS, HidingRun(d, t, u)) && Normal(HidingTime(d))
    ensures var s := Run(NO_TIMERS, HidingRun(d, t, u)).start;
      |s| == 2 && s[0].deadline == Timeval(9, 999999) && s[1].deadline == Timeval(10, SplitSeconds(d).usec)
  {
    SplitSecondsShaped(d);
    assert SplitSeconds(0.0) == Timeval(0, 0);
    var delay := SplitSeconds(d);
    hide SplitSeconds;
    var calls := HidingRun(d, t, u);
    var l1 := Step(NO_TIMERS, calls[0]);
    assert l1.start == [Rec(t, delay, Timeval(10, delay.usec), false, 0)];
    var l2 := Step(l1, calls[1]);
    assert l2.start == [Rec(u, Timeval(0, 0), Timeval(9, 999999), false, 1)] + l1.start;
    assert calls[1..][1..] == [];
    assert Run(NO_TIMERS, calls) == Run(l1, calls[1..]) == Run(l2, []) == l2;
    assert PossibleRun(l1, calls[1..]) by { assert PossibleRun(l2, []); }
  }

  lemma HidingRunIsNotExact(d: real, t: Timer, u: Timer)
    requires t != u && SplitSeconds(d).usec <= -2
    ensures var clock := (i: nat) => HidingTime(d);
      Forward(clock) && !Exact(Run(NO_TIMERS, HidingRun(d, t, u)).start, clock)
  {
    HidingRunStart(d, t, u);
    SplitSecondsShaped(d);
    hide Run, PossibleRun, HidingRun, SplitSeconds;
    var s, clock := Run(NO_TIMERS, HidingRun(d, t, u)).start, (i: nat) => HidingTime(d);
    assert !Due(TimerSub(s[0].deadline, clock(0)));
    assert Collected(s, clock, 0) == 0;
    assert Micros(s[1].deadline) == Micros(clock(0)) + 500;
  }

  lemma HidingRunUses(d: real, t: Timer, u: Timer, ok: real -> bool)
    requires ok(d) && ok(0.0)
    ensures Uses(HidingRun(d, t, u), ok)
  {
  }

  /**
   * When the readings of earlier calls may go back, and the durations may be zero and whatever else is
   * `ok`, the scan is exact after every run if and only if the microseconds of every such duration are
   * at least -1.
   */
  lemma BackwardRunsScanExactly(ok: real -> bool, t: Timer, u: Timer)
    requires t != u && ok(0.0)
    ensures (forall calls, clock :: PossibleRun(NO_TIMERS, calls) && Uses(calls, ok) && Forward(clock) ==>
               Exact(Run(NO_TIMERS, calls).start, clock)) <==> (forall d :: ok(d) ==> SplitSeconds(d).usec >= -1)
  {
    hide Exact, Run, PossibleRun, Uses, SplitSeconds, Forward, HidingRun, HidingTime;
    if d :| ok(d) && SplitSeconds(d).usec < -1 {
      HidingRunStart(d, t, u);
      HidingRunUses(d, t, u, ok);
      HidingRunIsNotExact(d, t, u);
      var clock := (i: nat) => HidingTime(d);
      assert !Exact(Run(NO_TIMERS, HidingRun(d, t, u)).start, clock);
    } else {
      forall calls, clock | PossibleRun(NO_TIMERS, calls) && Uses(calls, ok) && Forward(clock)
        ensures Exact(Run(NO_TIMERS, calls).start, clock)
      {
        BackwardRunScansExactly(calls, ok, clock);
      }
    }
  }

  lemma BackwardRunScansExactly(calls: seq<Call>, ok: real -> bool, clock: nat -> Timeval)
    requires PossibleRun(NO_TIMERS, calls) && Uses(calls, ok) && Forward(clock) && ShallowDurations(ok)
    ensures Exact(Run(NO_TIMERS, calls).start, clock)
  {
    hide Exact, Run, PossibleRun, Uses, SplitSeconds, ShallowDurations;
    RunOk(NO_TIMERS, calls);
    ShallowFits(NO_TIMERS, calls, ok);
    ScanIsExact(Run(NO_TIMERS, calls).start, clock);
  }

  // ---------- The manager ----------

  datatype TimerRet = TIMER_NOT_EXIST | TIMER_IN_ACTIVE | TIMER_IN_UNACTIVE

  class TimerManager {
    var startList: seq<Timer>
    var stopList: seq<Timer>
    ghost var next: nat
    /** The timers whose callbacks have been called, in that order. */
    ghost var called: seq<Timer>

    static ghost function RecOf(t: Timer): Rec
      reads t
    {
      Rec(t, t.delay, t.deadline, t.isPeriod, t.stamp)
    }

    static ghost function Snap(s: seq<Timer>): (r: seq<Rec>)
      reads s
      ensures |r| == |s| && forall i :: 0 <= i < |s| ==> r[i] == RecOf(s[i])
    {
      seq(|s|, i requires 0 <= i < |s| reads s => RecOf(s[i]))
    }

    ghost function View(): Lists
      reads `startList, `stopList, `next, startList, stopList
    {
      Lists(Snap(startList), Snap(stopList), next)
    }

    constructor ()
      ensures View() == Lists([], [], 0) && Ok(View()) && called == []
    {
      startList, stopList, next, called := [], [], 0, [];
    }

    static lemma SnapPlace(s: seq<Timer>, k: nat, t: Timer)
      requires k <= |s|
      ensures Snap(s[..k] + [t] + s[k..]) == Placed(Snap(s), k, RecOf(t))
    {
    }

    method TimerInsert(timer: Timer, now: Timeval)
      requires timer !in startList && timer !in stopList
      modifies `startList, `next, timer`deadline, timer`stamp
      ensures View() == Insert(old(View()), old(RecOf(timer)), now)
    {
      ghost var recs := Snap(startList);
      timer.deadline := TimerAdd(now, timer.delay);
      timer.stamp := next;
      assert Snap(startList) == recs;
      hide Placed, TimerAdd;
      var it := 0;
      while it < |startList|
        invariant it <= |startList|
        invariant forall i :: 0 <= i < it ==> !Less(timer.deadline, recs[i].deadline)
      {
        if Less(timer.deadline, startList[it].deadline) {
          break;
        }
        it := it + 1;
      }
      assert it == Slot(recs, timer.deadline);
      SnapPlace(startList, it, timer);
      startList := startList[..it] + [timer] + startList[it..];
      next := next + 1;
    }

    static lemma SnapErase(s: seq<Timer>, k: nat)
      requires k < |s|
      ensures Snap(s[..k] + s[k + 1..]) == Without(Snap(s), k)
    {
    }

    method TimerRemove(timer: Timer) returns (ret: TimerRet)
      modifies `startList, `stopList
      ensures View() == Remove(old(View()), timer)
      ensures ret == match Find(old(View()), timer)
                     case NotExist => TIMER_NOT_EXIST
                     case InActive(_) => TIMER_IN_ACTIVE
                     case InUnactive(_) => TIMER_IN_UNACTIVE
    {
      hide Position;
      var it := Seek(startList, timer);
      if it < |startList| {
        SnapErase(startList, it);
        startList := startList[..it] + startList[it + 1..];
        return TIMER_IN_ACTIVE;
      }
      it := Seek(stopList, timer);
      if it < |stopList| {
        SnapErase(stopList, it);
        stopList := stopList[..it] + stopList[it + 1..];
        return TIMER_IN_UNACTIVE;
      }
      return TIMER_NOT_EXIST;
    }

    static method Seek(s: seq<Timer>, timer: Timer) returns (it: nat)
      ensures it == Position(Snap(s), timer)
    {
      it := 0;
      while it < |s| && timer != s[it]
        invariant it <= |s|
        invariant forall i :: 0 <= i < it ==> s[i] != timer
      {
        it := it + 1;
      }
    }

    /** In consistent lists a found timer is the object itself, and after its removal it is in neither list. */
    lemma ViewFind(timer: Timer)
      requires Ok(View())
      ensures !Find(View(), timer).NotExist? ==> Find(View(), timer).rec == RecOf(timer)
      ensures Find(View(), timer).NotExist? ==>
                timer !in startList && timer !in stopList && Remove(View(), timer) == View()
    {
      assert forall i :: 0 <= i < |startList| ==> View().start[i].timer == startList[i];
      assert forall i :: 0 <= i < |stopList| ==> View().stop[i].timer == stopList[i];
    }

    method TimerCreate(seconds: real, isPeriod: bool, startOnCreate: bool, now: Timeval) returns (timer: Timer)
      requires Ok(View())
      modifies `startList, `stopList, `next
      ensures fresh(timer) && timer.isPeriod == isPeriod && timer.delay == SplitSeconds(seconds)
      ensures View() == Create(old(View()), timer, seconds, isPeriod, if startOnCreate then Some(now) else None)
      ensures Ok(View()) && Members(View()) == old(Members(View())) + {timer}
    {
      timer := new Timer(SplitSeconds(seconds), isPeriod);
      ghost var before := View();
      if startOnCreate {
        TimerInsert(timer, now);
      } else {
        SnapAppend(stopList, timer);
        stopList := stopList + [timer];
      }
      assert timer !in Members(before);
      CreateOk(before, timer, seconds, isPeriod, if startOnCreate then Some(now) else None);
    }

    static lemma SnapAppend(s: seq<Timer>, t: Timer)
      ensures Snap(s + [t]) == Snap(s) + [RecOf(t)]
    {
    }

    method TimerDelete(timer: Timer?)
      requires Ok(View())
      modifies `startList, `stopList, `next
      ensures timer == null ==> View() == old(View())
      ensures timer != null ==> View() == Apply(old(View()), timer, Delete)
    {
      if timer == null {
        return;
      }
      var _ := TimerRemove(timer);
    }

    method TimerStart(timer: Timer, now: Timeval)
      requires Ok(View())
      modifies `startList, `stopList, `next, timer`deadline, timer`stamp
      ensures View() == Apply(old(View()), timer, Start(now))
    {
      hide Ok, Position, Insert;
      RemoveOk(View(), timer);
      RemoveFind(View(), timer, timer);
      ViewFind(timer);
      var ret := TimerRemove(timer);
      if ret != TIMER_NOT_EXIST {
        ViewFind(timer);
        TimerInsert(timer, now);
      }
    }

    method TimerStop(timer: Timer)
      requires Ok(View())
      modifies `startList, `stopList, `next
      ensures View() == Apply(old(View()), timer, Stop)
    {
      hide Ok, Position;
      ViewFind(timer);
      var ret := TimerRemove(timer);
      if ret != TIMER_NOT_EXIST {
        SnapAppend(stopList, timer);
        stopList := stopList + [timer];
      }
    }

    static lemma InsertForgets(l: Lists, r: Rec, deadline: Timeval, now: Timeval)
      ensures Insert(l, r.(deadline := deadline), now) == Insert(l, r, now)
    {
    }

    /** The deadline set at reading `first` is overwritten by the insertion at reading `now`. */
    method TimerModify(timer: Timer, seconds: real, first: Timeval, now: Timeval)
      requires Ok(View())
      modifies `startList, `stopList, `next, timer`delay, timer`deadline, timer`stamp
      ensures View() == Apply(old(View()), timer, Modify(seconds, now))
    {
      hide Ok, Position, Insert, Remove, SplitSeconds, TimerAdd;
      RemoveOk(View(), timer);
      RemoveFind(View(), timer, timer);
      ViewFind(timer);
      var ret := TimerRemove(timer);
      if ret == TIMER_NOT_EXIST {
        return;
      }
      ViewFind(timer);
      Rearm(timer, seconds, ret == TIMER_IN_ACTIVE, first, now);
    }

    /** Gives a timer in neither list its new delay and puts it back into the list it came from. */
    method Rearm(timer: Timer, seconds: real, active: bool, first: Timeval, now: Timeval)
      requires timer !in startList && timer !in stopList
      modifies `startList, `stopList, `next, timer`delay, timer`deadline, timer`stamp
      ensures var l, r := old(View()), old(RecOf(timer)).(delay := SplitSeconds(seconds));
        View() == if active then Insert(l, r, now) else l.(stop := l.stop + [r])
    {
      hide Insert;
      timer.delay := SplitSeconds(seconds);
      if active {
        InsertForgets(View(), RecOf(timer), TimerAdd(first, timer.delay), now);
        timer.deadline := TimerAdd(first, timer.delay);
        TimerInsert(timer, now);
      } else {
        SnapAppend(stopList, timer);
        stopList := stopList + [timer];
      }
    }

    /**
     * The time to sleep after `n` timers of the list have been collected: up to the next deadline, but 50 ms
     * at most; with none left, what the last one had left, which may be negative.
     */
    static ghost predicate WaitTells(s: seq<Rec>, clock: nat -> Timeval, n: nat, wait: Timeval) {
      && (s == [] ==> wait == Timeval(0, 50000))
      && (n < |s| && Normal(clock(n)) && Readable(s[n].deadline, clock(n)) ==>
            var left := Micros(s[n].deadline) - Micros(clock(n));
            Micros(wait) == if left < 50000 then left else 50000)
      && (0 < n == |s| ==>
            var delta := TimerSub(s[n - 1].deadline, clock(n - 1));
            wait == if delta.usec > 50000 then Timeval(0, 50000) else delta)
    }

    /** The locked part of one thread round: the expired timers and the time to sleep. */
    method ScanExpired(clock: nat -> Timeval) returns (expired: seq<Timer>, wait: Timeval)
      ensures expired <= startList && |expired| == Collected(View().start, clock, 0)
      ensures Ok(View()) && Forward(clock) && AllReadable(View().start, clock(0)) ==> Exact(View().start, clock)
      ensures WaitTells(View().start, clock, |expired|, wait)
    {
      hide Ok, Exact, Forward;
      var delta := Timeval(0, 50000);
      expired := [];
      var it := 0;
      ghost var recs := View().start;
      while it < |startList|
        invariant it <= |startList| && expired == startList[..it]
        invariant Collected(recs, clock, 0) == Collected(recs, clock, it)
        invariant it > 0 ==> Due(delta)
        invariant delta == if it == 0 then Timeval(0, 50000) else TimerSub(recs[it - 1].deadline, clock(it - 1))
      {
        var now := clock(it);
        delta := TimerSub(startList[it].deadline, now);
        if Due(delta) {
          expired := expired + [startList[it]];
        } else {
          break;
        }
        it := it + 1;
      }
      wait := if delta.sec >= 1 || delta.usec > 50000 then Timeval(0, 50000) else delta;
      ScanOfOk(View(), clock);
    }

    /** What the callback of `timer` does to it, reading the clock where the operation does. */
    method RunCallback(timer: Timer, ops: seq<Op>)
      requires Ok(View())
      modifies this, timer
      ensures View() == ApplyAll(old(View()), timer, ops) && Ok(View())
      ensures called == old(called) + [timer]
    {
      hide Ok, View, Apply;
      called := called + [timer];
      var i := 0;
      while i < |ops|
        invariant i <= |ops| && called == old(called) + [timer]
        invariant Ok(View()) && View() == ApplyAll(old(View()), timer, ops[..i])
      {
        assert ops[..i + 1][..i] == ops[..i];
        ApplyOk(View(), timer, ops[i]);
        match ops[i] {
          case Start(now) => TimerStart(timer, now);
          case Stop => TimerStop(timer);
          case Modify(seconds, now) => TimerModify(timer, seconds, now, now);
          case Delete => TimerDelete(timer);
        }
        i := i + 1;
      }
      assert ops[..|ops|] == ops;
    }

    /** The unlocked part of a round: a periodic timer is restarted first, a one-shot timer deleted last. */
    method FireTimer(timer: Timer, v: Visit)
      requires Ok(View())
      modifies this, timer
      ensures View() == ApplyAll(old(View()), timer, Firing(timer.isPeriod, v)) && Ok(View())
      ensures called == old(called) + [timer]
    {
      if timer.isPeriod {
        ApplyOk(View(), timer, Start(v.now));
        ApplyAllConcat(View(), timer, [Start(v.now)], v.ops);
        assert ApplyAll(View(), timer, [Start(v.now)]) == Apply(View(), timer, Start(v.now));
        TimerStart(timer, v.now);
        RunCallback(timer, v.ops);
      } else {
        assert (v.ops + [Delete])[..|v.ops|] == v.ops;
        RunCallback(timer, v.ops);
        ApplyOk(View(), timer, Delete);
        TimerDelete(timer);
      }
    }

    static lemma {:induction false} ApplyAllConcat(l: Lists, t: Timer, a: seq<Op>, b: seq<Op>)
      ensures ApplyAll(l, t, a + b) == ApplyAll(ApplyAll(l, t, a), t, b)
    {
      if b == [] {
        assert a + b == a;
      } else {
        assert (a + b)[..|a + b| - 1] == a + b[..|b| - 1];
        ApplyAllConcat(l, t, a, b[..|b| - 1]);
      }
    }

    method FireExpired(expired: seq<Timer>, visits: seq<Visit>)
      requires Ok(View()) && |visits| == |expired|
      modifies this, expired
      ensures View() == FireAll(old(View()), old(Snap(expired)), visits) && Ok(View())
      ensures called == old(called) + expired
    {
      hide Ok, ApplyAll, Firing, View;
      var it := 0;
      ghost var es, l := Snap(expired), View();
      while it < |expired|
        invariant it <= |expired|
        invariant Ok(View()) && View() == FireAll(l, es[..it], visits[..it])
        invariant called == old(called) + expired[..it]
      {
        assert es[..it + 1][..it] == es[..it] && visits[..it + 1][..it] == visits[..it];
        FireTimer(expired[it], visits[it]);
        it := it + 1;
      }
      assert es[..it] == es && visits[..it] == visits;
    }

    /** One round of `timerThread`. */
    method TimerRound(clock: nat -> Timeval, visits: seq<Visit>) returns (fired: nat, wait: Timeval)
      requires Ok(View()) && |visits| >= |startList|
      modifies this, startList
      ensures fired == Collected(old(View()).start, clock, 0)
      ensures Forward(clock) && AllReadable(old(View()).start, clock(0)) ==> Exact(old(View()).start, clock)
      ensures View() == FireAll(old(View()), old(View()).start[..fired], visits[..fired]) && Ok(View())
      ensures called == old(called) + old(startList)[..fired]
      ensures WaitTells(old(View()).start, clock, fired, wait)
    {
      hide Ok, WaitTells, Exact, FireAll, Collected, AllReadable;
      var expired;
      expired, wait := ScanExpired(clock);
      fired := |expired|;
      assert Snap(expired) == Snap(startList)[..fired];
      assert forall t :: t in expired ==> t in startList;
      FireExpired(expired, visits[..fired]);
    }
  }
}
