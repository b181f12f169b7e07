/** Key transactions: sequences of keys recognised on line, on their decimal text. */
module KeyTransaction {
  import opened Common

  // ---------- Decimal text ----------

  const DIGITS := "0123456789"

  function Dec(n: nat): (s: string)
    ensures |s| >= 1
    ensures forall i :: 0 <= i < |s| ==> s[i] in DIGITS
  {
    if n < 10 then [DIGITS[n]] else Dec(n / 10) + [DIGITS[n % 10]]
  }

  /** `%d` */
  function Rendered(k: int): string {
    if k < 0 then "-" + Dec(-k) else Dec(k)
  }

  /** What `snprintf` leaves in a buffer of `size` characters, the last one being the terminator. */
  function Cut(s: string, size: nat): string
    requires size > 0
  {
    if |s| < size then s else s[..size - 1]
  }

  /** The text of a pressed key, in a buffer of 10. */
  function StrCode(code: int): string {
    Cut(" " + Rendered(code) + " ", 10)
  }

  /** The text of a registered key, in a buffer of 8. */
  function Token(key: int): string {
    Cut(Rendered(key) + " ", 8)
  }

  function Tokens(keys: seq<int>): string {
    if keys == [] then "" else Token(keys[0]) + Tokens(keys[1..])
  }

  /** The text of a transaction: delimited in front and behind every key. */
  function Text(keys: seq<int>): string {
    " " + Tokens(keys)
  }

  /** Keys that fit their buffer with the delimiter: every 16-bit key code does. */
  ghost predicate Short(k: int) {
    |Rendered(k)| <= 6
  }

  ghost predicate AllShort(keys: seq<int>) {
    forall i :: 0 <= i < |keys| ==> Short(keys[i])
  }

  lemma {:induction false} DecLength(n: nat, bound: nat, digits: nat)
    requires n < bound && digits >= 1
    requires bound == if digits == 1 then 10 else if digits == 2 then 100 else if digits == 3 then 1000
                      else if digits == 4 then 10000 else 100000
    requires digits <= 5
    ensures |Dec(n)| <= digits
  {
    if n >= 10 {
      DecLength(n / 10, bound / 10, digits - 1);
    }
  }

  /** Key codes are 16 bits wide. */
  lemma KeyCodesAreShort(code: nat)
    requires code < 0x10000
    ensures Short(code)
  {
    DecLength(code, 100000, 5);
  }

  lemma DigitInjective(a: nat, b: nat)
    requires a < 10 && b < 10 && DIGITS[a] == DIGITS[b]
    ensures a == b
  {
  }

  lemma {:induction false} DecInjective(m: nat, n: nat)
    requires Dec(m) == Dec(n)
    ensures m == n
  {
    var s, t := Dec(m), Dec(n);
    if m >= 10 && n >= 10 {
      assert s[..|s| - 1] == Dec(m / 10) && t[..|t| - 1] == Dec(n / 10);
      DecInjective(m / 10, n / 10);
      assert s[|s| - 1] == DIGITS[m % 10] && t[|t| - 1] == DIGITS[n % 10];
      DigitInjective(m % 10, n % 10);
    } else if m < 10 && n < 10 {
      assert s == [DIGITS[m]] && t == [DIGITS[n]];
      DigitInjective(m, n);
    }
  }

  lemma SignDiffers(j: int, k: int)
    requires j < 0 <= k
    ensures Rendered(j) != Rendered(k)
  {
    assert Rendered(j)[0] == '-';
    assert Rendered(k)[0] in DIGITS;
  }

  lemma RenderedInjective(j: int, k: int)
    ensures Rendered(j) == Rendered(k) ==> j == k
  {
    if Rendered(j) == Rendered(k) {
      if j < 0 && k < 0 {
        assert Dec(-j) == Rendered(j)[1..];
        assert Dec(-k) == Rendered(k)[1..];
        DecInjective(-j, -k);
      } else if j >= 0 && k >= 0 {
        DecInjective(j, k);
      } else if j < 0 {
        SignDiffers(j, k);
      } else {
        SignDiffers(k, j);
      }
    }
  }

  lemma NoSpace(k: int)
    ensures ' ' !in Rendered(k)
  {
  }

  /** Delimited words without a delimiter inside are decided by prefix comparison. */
  lemma DelimitedPrefix(a: string, b: string, rest: string)
    requires ' ' !in a && ' ' !in b
    ensures a + " " <= b + " " + rest <==> a == b
  {
    var s, t := a + " ", b + " " + rest;
    assert forall i :: 0 <= i < |a| ==> s[i] == a[i] && a[i] != ' ';
    assert forall i :: 0 <= i < |b| ==> t[i] == b[i] && b[i] != ' ';
    assert s[|a|] == ' ' && t[|b|] == ' ';
    if s <= t {
      var m := if |a| < |b| then |a| else |b|;
      assert s[m] == t[m];
      assert forall i :: 0 <= i < |a| ==> a[i] == s[i] == t[i] == b[i];
    }
  }

  /**
   * `strncmp` with the text of the pressed key decides whether it is the first key, the lengths agree
   * exactly for the last key, and cutting the text off leaves the text of the other keys.
   */
  lemma PrefixDecides(code: int, keys: seq<int>)
    requires Short(code) && AllShort(keys)
    ensures var c, t := StrCode(code), Text(keys);
      && (c <= t <==> keys != [] && keys[0] == code)
      && (c <= t ==> |c| >= 2 && t[|c| - 1..] == Text(keys[1..]) && (|t| == |c| <==> |keys| == 1))
  {
    hide Rendered, Dec;
    var c, t := StrCode(code), Text(keys);
    if keys == [] {
      assert |c| >= 2 && |t| == 1;
    } else {
      var a, b, rest := Rendered(code), Rendered(keys[0]), Tokens(keys[1..]);
      NoSpace(code);
      NoSpace(keys[0]);
      DelimitedPrefix(a, b, rest);
      RenderedInjective(code, keys[0]);
      assert c == " " + (a + " ");
      assert t == " " + (b + " " + rest);
      assert c <= t <==> a + " " <= b + " " + rest by {
        assert c[1..] == a + " " && t[1..] == b + " " + rest;
      }
      if c <= t {
        assert t[|c| - 1..] == " " + rest;
        TokensLength(keys[1..]);
      }
    }
  }

  lemma TokensLength(keys: seq<int>)
    requires AllShort(keys)
    ensures |Tokens(keys)| == 0 <==> keys == []
  {
  }

  // ---------- The matcher on text ----------

  /** Milliseconds, in an unsigned 64-bit word. */
  type Time = t: nat | t < 0x1_0000_0000_0000_0000

  /** `now - last > limit` on unsigned words: a clock that went back looks like a very long gap. */
  predicate TooLate(now: Time, last: Time, limit: nat) {
    (now - last) % 0x1_0000_0000_0000_0000 > limit
  }

  type Callback(==) = int

  /** A registered transaction. */
  datatype Trans = Trans(keys: string, time: nat, cb: Callback)

  /** The transaction being matched: the text still expected, and the time of the latest key. */
  datatype Event = Event(keys: string, remain: string, time: nat, lastTime: Time, cb: Callback)

  /** A call of a callback, with its arguments. */
  datatype Fired = Fired(cb: Callback, keys: string, time: nat)

  /** A key press, with the readings of the clock for the gap and for the stored time. */
  datatype Press = Press(code: int, check: Time, store: Time)

  /** The first registered transaction whose text starts with the key. */
  ghost function Starting(registry: seq<Trans>, strcode: string): (r: Option<Trans>)
    ensures r.Some? ==> r.value in registry && strcode <= r.value.keys
  {
    if registry == [] then None
    else if strcode <= registry[0].keys then Some(registry[0])
    else Starting(registry[1..], strcode)
  }

  class Matcher {
    /** `m_transaction_press_head`: the registered transactions, newest first. */
    var registry: seq<Trans>
    /** `m_transaction_event_head` */
    var active: Option<Event>

    constructor ()
      ensures registry == [] && active == None
    {
      registry, active := [], None;
    }

    /** `RK_input_register_transaction_press_callback`; the text is assembled in a buffer of 64. */
    method Register(cb: Callback, time: nat, keys: seq<int>)
      requires |Text(keys)| < 64
      modifies `registry
      ensures registry == [Trans(Text(keys), time, cb)] + old(registry)
    {
      hide Rendered;
      var strKey := " ";
      var i := 0;
      while i < |keys|
        invariant i <= |keys|
        invariant strKey + Tokens(keys[i..]) == Text(keys)
      {
        assert keys[i..][1..] == keys[i + 1..];
        assert strKey + (Token(keys[i]) + Tokens(keys[i + 1..])) == (strKey + Token(keys[i])) + Tokens(keys[i + 1..]);
        strKey := strKey + Cut(Rendered(keys[i]) + " ", 8);
        i := i + 1;
      }
      assert Tokens(keys[i..]) == "" && strKey + "" == strKey;
      registry := [Trans(strKey, time, cb)] + registry;
    }

    /** The `recheck` part: starts the first transaction that begins with the key. */
    method Recheck(strcode: string, now: Time)
      requires |strcode| >= 1
      modifies `active
      ensures active == match Starting(registry, strcode)
                        case None => old(active)
                        case Some(t) => Some(Event(t.keys, t.keys[|strcode| - 1..], t.time, now, t.cb))
    {
      var i := 0;
      while i < |registry| && !(strcode <= registry[i].keys)
        invariant i <= |registry|
        invariant Starting(registry, strcode) == Starting(registry[i..], strcode)
      {
        i := i + 1;
      }
      if i < |registry| {
        var t := registry[i];
        active := Some(Event(t.keys, t.keys[|strcode| - 1..], t.time, now, t.cb));
      }
    }

    /** `check_transaction_event` */
    method Check(p: Press) returns (fired: Option<Fired>)
      modifies `active
      ensures (active, fired) == TextStep(registry, old(active), p)
    {
      fired := None;
      var strcode := StrCode(p.code);
      if active.Some? {
        var e := active.value;
        if strcode <= e.remain {
          if |e.remain| == |strcode| {
            fired := Some(Fired(e.cb, e.keys, e.time));
            active := None;
            return;
          }
          if !TooLate(p.check, e.lastTime, e.time) {
            active := Some(e.(remain := e.remain[|strcode| - 1..], lastTime := p.store));
            return;
          }
        }
        active := None;
      }
      Recheck(strcode, p.store);
    }
  }

  lemma StrCodeNotEmpty(code: int)
    ensures |StrCode(code)| >= 2
  {
  }

  /** The transaction that a key starts. */
  ghost function TextRestart(registry: seq<Trans>, p: Press): Option<Event> {
    StrCodeNotEmpty(p.code);
    var c := StrCode(p.code);
    match Starting(registry, c)
    case None => None
    case Some(t) => Some(Event(t.keys, t.keys[|c| - 1..], t.time, p.store, t.cb))
  }

  /** One key press on the text. */
  ghost function TextStep(registry: seq<Trans>, active: Option<Event>, p: Press): (Option<Event>, Option<Fired>) {
    StrCodeNotEmpty(p.code);
    var c := StrCode(p.code);
    if active.None? || !(c <= active.value.remain) then (TextRestart(registry, p), None)
    else
      var e := active.value;
      if |e.remain| == |c| then (None, Some(Fired(e.cb, e.keys, e.time)))
      else if TooLate(p.check, e.lastTime, e.time) then (TextRestart(registry, p), None)
      else (Some(e.(remain := e.remain[|c| - 1..], lastTime := p.store)), None)
  }

  // ---------- The same matcher on key codes ----------

  datatype Reg = Reg(codes: seq<int>, time: nat, cb: Callback)

  /** A transaction of which the first `matched` keys have been seen. */
  datatype Progress = Progress(reg: Reg, matched: nat, lastTime: Time)

  ghost function FirstWith(regs: seq<Reg>, code: int): (r: Option<Reg>)
    ensures r.Some? ==> r.value in regs && r.value.codes != [] && r.value.codes[0] == code
  {
    if regs == [] then None
    else if regs[0].codes != [] && regs[0].codes[0] == code then Some(regs[0])
    else FirstWith(regs[1..], code)
  }

  ghost function CodeRestart(regs: seq<Reg>, p: Press): Option<Progress> {
    match FirstWith(regs, p.code) case None => None case Some(r) => Some(Progress(r, 1, p.store))
  }

  ghost function CodeStep(regs: seq<Reg>, active: Option<Progress>, p: Press): (Option<Progress>, Option<Reg>) {
    var restarted := CodeRestart(regs, p);
    if active.None? then (restarted, None)
    else
      var e := active.value;
      if e.matched >= |e.reg.codes| || e.reg.codes[e.matched] != p.code then (restarted, None)
      else if e.matched == |e.reg.codes| - 1 then (None, Some(e.reg))
      else if TooLate(p.check, e.lastTime, e.reg.time) then (restarted, None)
      else (Some(Progress(e.reg, e.matched + 1, p.store)), None)
  }

  ghost function TransOf(r: Reg): Trans {
    Trans(Text(r.codes), r.time, r.cb)
  }

  /** The text state that stands for a state on codes: `remain` is the text of the keys still expected. */
  ghost function EventOf(e: Progress): Event
    requires e.matched <= |e.reg.codes|
  {
    Event(Text(e.reg.codes), Text(e.reg.codes[e.matched..]), e.reg.time, e.lastTime, e.reg.cb)
  }

  ghost function FiredOf(r: Reg): Fired {
    Fired(r.cb, Text(r.codes), r.time)
  }

  ghost predicate Represents(registry: seq<Trans>, regs: seq<Reg>) {
    && |registry| == |regs|
    && forall i :: 0 <= i < |regs| ==> registry[i] == TransOf(regs[i]) && AllShort(regs[i].codes)
  }

  ghost predicate Stands(active: Option<Event>, e: Option<Progress>) {
    match e
    case None => active == None
    case Some(e) => e.matched <= |e.reg.codes| && AllShort(e.reg.codes) && active == Some(EventOf(e))
  }

  lemma {:induction false} StartingIsFirstWith(registry: seq<Trans>, regs: seq<Reg>, code: int)
    requires Represents(registry, regs) && Short(code)
    ensures Starting(registry, StrCode(code)) ==
      match FirstWith(regs, code) case None => None case Some(r) => Some(TransOf(r))
    ensures FirstWith(regs, code).Some? ==> AllShort(FirstWith(regs, code).value.codes)
  {
    hide StrCode, Text;
    if regs != [] {
      PrefixDecides(code, regs[0].codes);
      StartingIsFirstWith(registry[1..], regs[1..], code);
    }
  }

  lemma RestartAgrees(registry: seq<Trans>, regs: seq<Reg>, p: Press)
    requires Represents(registry, regs) && Short(p.code)
    ensures Stands(TextRestart(registry, p), CodeRestart(regs, p))
  {
    StartingIsFirstWith(registry, regs, p.code);
    if FirstWith(regs, p.code).Some? {
      PrefixDecides(p.code, FirstWith(regs, p.code).value.codes);
    }
  }

  /** `PrefixDecides` on what a transaction in progress still expects. */
  lemma LeftDecides(code: int, e: Progress)
    requires Short(code) && e.matched <= |e.reg.codes| && AllShort(e.reg.codes)
    ensures var c, t, m := StrCode(code), EventOf(e).remain, e.matched;
      && (c <= t <==> m < |e.reg.codes| && e.reg.codes[m] == code)
      && (c <= t ==> |c| >= 2 && t[|c| - 1..] == Text(e.reg.codes[m + 1..]) && (|t| == |c| <==> m + 1 == |e.reg.codes|))
  {
    hide StrCode, Text, Short, AllShort;
    RestShort(e.reg.codes, e.matched);
    RestOf(e.reg.codes, e.matched, code);
    PrefixDecides(code, e.reg.codes[e.matched..]);
  }

  lemma RestOf(codes: seq<int>, m: nat, code: int)
    requires m <= |codes|
    ensures var left := codes[m..];
      && (left != [] && left[0] == code <==> m < |codes| && codes[m] == code)
      && (left != [] ==> left[1..] == codes[m + 1..] && (|left| == 1 <==> m + 1 == |codes|))
  {
  }

  lemma RestShort(codes: seq<int>, m: nat)
    requires AllShort(codes) && m <= |codes|
    ensures AllShort(codes[m..])
  {
    hide Short;
  }

  /** The text matcher does on every key press what the matcher on codes does. */
  lemma TextStepIsCodeStep(registry: seq<Trans>, regs: seq<Reg>, active: Option<Event>, e: Option<Progress>, p: Press)
    requires Represents(registry, regs) && Stands(active, e) && Short(p.code)
    ensures var (a', f) := TextStep(registry, active, p);
      var (e', r) := CodeStep(regs, e, p);
      && Stands(a', e')
      && f == match r case None => None case Some(r) => Some(FiredOf(r))
  {
    hide StrCode, Text, TextRestart, CodeRestart, Short, AllShort, Represents, Rendered, TooLate, FirstWith;
    RestartAgrees(registry, regs, p);
    if e.Some? {
      LeftDecides(p.code, e.value);
    }
  }

  // ---------- Every run ----------

  datatype Input = Registered(reg: Reg) | Pressed(p: Press)

  /** Registrations whose keys fit their buffers, and presses of keys that do. */
  ghost predicate Fitting(inputs: seq<Input>) {
    forall i :: 0 <= i < |inputs| ==>
      match inputs[i] case Registered(r) => AllShort(r.codes) case Pressed(p) => Short(p.code)
  }

  /** The text matcher after a run, and what its last input fired. */
  datatype TextState = TextState(registry: seq<Trans>, active: Option<Event>, fired: Option<Fired>)

  datatype CodeState = CodeState(regs: seq<Reg>, active: Option<Progress>, fired: Option<Reg>)

  ghost function TextRun(inputs: seq<Input>): TextState {
    if inputs == [] then TextState([], None, None)
    else
      var s := TextRun(inputs[..|inputs| - 1]);
      match inputs[|inputs| - 1]
      case Registered(r) => TextState([TransOf(r)] + s.registry, s.active, None)
      case Pressed(p) =>
        var (active, fired) := TextStep(s.registry, s.active, p);
        TextState(s.registry, active, fired)
  }

  ghost function CodeRun(inputs: seq<Input>): CodeState {
    if inputs == [] then CodeState([], None, None)
    else
      var s := CodeRun(inputs[..|inputs| - 1]);
      match inputs[|inputs| - 1]
      case Registered(r) => CodeState([r] + s.regs, s.active, None)
      case Pressed(p) =>
        var (active, fired) := CodeStep(s.regs, s.active, p);
        CodeState(s.regs, active, fired)
  }

  lemma {:induction false} RunsAgree(inputs: seq<Input>)
    requires Fitting(inputs)
    ensures var t, c := TextRun(inputs), CodeRun(inputs);
      && Represents(t.registry, c.regs) && Stands(t.active, c.active)
      && t.fired == match c.fired case None => None case Some(r) => Some(FiredOf(r))
  {
    hide TextStep, CodeStep, Text, Short;
    if inputs != [] {
      var front := inputs[..|inputs| - 1];
      RunsAgree(front);
      var t, c := TextRun(front), CodeRun(front);
      match inputs[|inputs| - 1]
      case Registered(r) =>
      case Pressed(p) => TextStepIsCodeStep(t.registry, c.regs, t.active, c.active, p);
    }
  }

  /** The key presses of a run. */
  ghost function Presses(inputs: seq<Input>): seq<Press> {
    if inputs == [] then []
    else
      var front, last := Presses(inputs[..|inputs| - 1]), inputs[|inputs| - 1];
      if last.Pressed? then front + [last.p] else front
  }

  /** The last `m` presses. */
  ghost function Last(h: seq<Press>, m: nat): seq<Press>
    requires m <= |h|
  {
    h[|h| - m..]
  }

  /** The presses are those of the first keys. */
  ghost predicate Keys(w: seq<Press>, codes: seq<int>) {
    |w| <= |codes| && forall i :: 0 <= i < |w| ==> w[i].code == codes[i]
  }

  /** The presses before number `upto` came within the limit of the one before them. */
  ghost predicate InTime(w: seq<Press>, upto: nat, limit: nat) {
    forall i {:trigger w[i]} :: 1 <= i < upto && i < |w| ==> !TooLate(w[i].check, w[i - 1].store, limit)
  }

  /** What the presses so far say about a transaction in progress. */
  ghost predicate Explained(h: seq<Press>, regs: seq<Reg>, e: Progress) {
    && e.reg in regs && 1 <= e.matched <= |h|
    && Keys(Last(h, e.matched), e.reg.codes) && InTime(Last(h, e.matched), e.matched, e.reg.time)
    && e.lastTime == h[|h| - 1].store
  }

  /** What the presses so far say about a transaction that has just fired. */
  ghost predicate Earned(h: seq<Press>, r: Reg) {
    var n := |r.codes|;
    2 <= n <= |h| && Keys(Last(h, n), r.codes) && InTime(Last(h, n), n - 1, r.time)
  }

  lemma RestartExplained(h: seq<Press>, regs: seq<Reg>, p: Press)
    ensures var e := CodeRestart(regs, p); e.Some? ==> Explained(h + [p], regs, e.value)
  {
    assert Last(h + [p], 1) == [p];
  }

  lemma StepExplained(h: seq<Press>, regs: seq<Reg>, active: Option<Progress>, p: Press)
    requires active.Some? ==> Explained(h, regs, active.value)
    ensures var (e, r) := CodeStep(regs, active, p);
      && (e.Some? ==> Explained(h + [p], regs, e.value))
      && (r.Some? ==> r.value in regs && Earned(h + [p], r.value))
  {
    hide Keys, InTime, CodeRestart;
    RestartExplained(h, regs, p);
    if active.Some? {
      var m := active.value.matched;
      var w := Last(h, m);
      assert Last(h + [p], m + 1) == w + [p];
      if m < |active.value.reg.codes| && active.value.reg.codes[m] == p.code {
        KeysGrow(w, p, active.value.reg.codes);
        InTimeGrow(w, p, active.value.reg.time);
      }
    }
  }

  lemma KeysGrow(w: seq<Press>, p: Press, codes: seq<int>)
    requires |w| < |codes|
    ensures Keys(w + [p], codes) <==> Keys(w, codes) && codes[|w|] == p.code
  {
    var w' := w + [p];
    assert w'[|w|] == p;
    assert forall i :: 0 <= i < |w| ==> w'[i] == w[i];
  }

  lemma InTimeGrow(w: seq<Press>, p: Press, limit: nat)
    requires w != []
    ensures InTime(w + [p], |w|, limit) <==> InTime(w, |w|, limit)
    ensures InTime(w + [p], |w| + 1, limit) <==> InTime(w, |w|, limit) && !TooLate(p.check, w[|w| - 1].store, limit)
  {
    hide TooLate;
    var w' := w + [p];
    assert w'[|w|] == p && w'[|w| - 1] == w[|w| - 1];
    assert forall i :: 0 <= i < |w| ==> w'[i] == w[i];
  }

  lemma {:induction false} RunExplained(inputs: seq<Input>)
    ensures var s := CodeRun(inputs);
      && (s.active.Some? ==> Explained(Presses(inputs), s.regs, s.active.value))
      && (s.fired.Some? ==> s.fired.value in s.regs && Earned(Presses(inputs), s.fired.value))
    ensures forall r :: r in CodeRun(inputs).regs <==> Registered(r) in inputs
  {
    hide CodeStep, Earned;
    if inputs != [] {
      var front, last := inputs[..|inputs| - 1], inputs[|inputs| - 1];
      RunExplained(front);
      assert inputs == front + [last];
      var s := CodeRun(front);
      if last.Pressed? {
        StepExplained(Presses(front), s.regs, s.active, last.p);
      }
    }
  }

  /**
   * Whenever a callback fires, it is that of a registered transaction of at least two keys, the last
   * presses are exactly its keys in order, and every gap before a key that is not the last was
   * within its limit.
   */
  lemma FiredIsEarned(inputs: seq<Input>)
    requires Fitting(inputs) && TextRun(inputs).fired.Some?
    ensures exists r ::
              Registered(r) in inputs && TextRun(inputs).fired.value == FiredOf(r) && Earned(Presses(inputs), r)
  {
    RunsAgree(inputs);
    RunExplained(inputs);
  }

  /** On readings below 2^63 and 32-bit limits the unsigned test is the test of a gap that did not go back. */
  lemma TooLateMeaning(now: Time, last: Time, limit: nat)
    requires now < 0x8000_0000_0000_0000 && last < 0x8000_0000_0000_0000 && limit < 0x1_0000_0000
    ensures TooLate(now, last, limit) <==> now < last || now - last > limit
  {
  }

  /** The presses of a whole transaction from the idle state, and what the last of them fires. */
  ghost function CodePresses(regs: seq<Reg>, active: Option<Progress>, ps: seq<Press>)
    : (Option<Progress>, Option<Reg>)
  {
    if ps == [] then (active, None)
    else CodeStep(regs, CodePresses(regs, active, ps[..|ps| - 1]).0, ps[|ps| - 1])
  }

  /** Conversely, from the idle state the keys of the transaction that its first key starts do fire it. */
  lemma {:induction false} KeysInTimeFire(regs: seq<Reg>, r: Reg, ps: seq<Press>)
    requires |ps| >= 1 && Keys(ps, r.codes) && FirstWith(regs, r.codes[0]) == Some(r)
    requires |r.codes| >= 2
    requires InTime(ps, if |ps| < |r.codes| then |ps| else |ps| - 1, r.time)
    ensures CodePresses(regs, None, ps) ==
      if |ps| < |r.codes| then (Some(Progress(r, |ps|, ps[|ps| - 1].store)), None) else (None, Some(r))
  {
    var front := ps[..|ps| - 1];
    if front == [] {
      assert CodePresses(regs, None, front) == (None, None);
    } else {
      KeysInTimeFire(regs, r, front);
    }
  }

  /** The press that is `m` from the end of the run started the transaction, as its newest match. */
  ghost predicate StartedAt(regs: seq<Reg>, h: seq<Press>, m: nat, r: Reg)
    requires 1 <= m <= |h|
  {
    var k := |h| - m;
    CodePresses(regs, None, h[..k + 1]).0 == Some(Progress(r, 1, h[k].store))
  }

  /** The last `m` presses are keys of the transaction from its start on, in time up to number `upto`. */
  ghost predicate Window(regs: seq<Reg>, h: seq<Press>, m: nat, r: Reg, upto: nat) {
    1 <= m <= |h| && StartedAt(regs, h, m, r) && Keys(Last(h, m), r.codes) && InTime(Last(h, m), upto, r.time)
  }

  lemma {:induction false} ProgressFacts(regs: seq<Reg>, h: seq<Press>)
    ensures var e := CodePresses(regs, None, h).0;
      e.Some? ==> h != [] && e.value.matched >= 1 && e.value.lastTime == h[|h| - 1].store
                  && e.value.matched <= |e.value.reg.codes| && e.value.reg.codes[e.value.matched - 1] == h[|h| - 1].code
  {
    if h != [] {
      ProgressFacts(regs, h[..|h| - 1]);
    }
  }

  /** One more press makes the window longer, if it is the next key. */
  lemma WindowStep(regs: seq<Reg>, h: seq<Press>, p: Press, m: nat, r: Reg)
    requires 1 <= m <= |h| && m < |r.codes|
    ensures Window(regs, h + [p], m + 1, r, m) <==> Window(regs, h, m, r, m) && r.codes[m] == p.code
    ensures Window(regs, h + [p], m + 1, r, m + 1) <==>
              Window(regs, h, m, r, m) && r.codes[m] == p.code && !TooLate(p.check, h[|h| - 1].store, r.time)
  {
    hide CodePresses, TooLate, Keys, InTime;
    var h', w := h + [p], Last(h, m);
    assert Last(h', m + 1) == w + [p];
    assert h'[..|h'| - m] == h[..|h| - m + 1];
    KeysGrow(w, p, r.codes);
    InTimeGrow(w, p, r.time);
  }

  /** A transaction is in progress with `m` keys matched exactly when the last presses are its window. */
  lemma {:induction false} ProgressExactly(regs: seq<Reg>, h: seq<Press>, m: nat, r: Reg)
    requires h != [] && 1 <= m < |r.codes|
    ensures CodePresses(regs, None, h).0 == Some(Progress(r, m, h[|h| - 1].store)) <==> Window(regs, h, m, r, m)
  {
    hide CodePresses, CodeStep, FirstWith, TooLate, Keys, InTime, Window;
    var front, p := h[..|h| - 1], h[|h| - 1];
    WindowIsShort(regs, h, m, r, m);
    if m == 1 {
      assert h[..|h|] == h;
      OneKeyWindow(regs, h, r);
    } else {
      assert h == front + [p];
      ProgressFacts(regs, front);
      PressesSnoc(regs, front, p);
      StepProgresses(regs, CodePresses(regs, None, front).0, p, r, m);
      if front != [] {
        ProgressExactly(regs, front, m - 1, r);
        WindowIsShort(regs, front, m - 1, r, m - 1);
        if m - 1 <= |front| {
          WindowStep(regs, front, p, m - 1, r);
        }
      }
    }
  }

  /** A press takes a transaction on exactly when it is the next key, is not the last, and came in time. */
  lemma StepProgresses(regs: seq<Reg>, e: Option<Progress>, p: Press, r: Reg, m: nat)
    requires m >= 2
    ensures CodeStep(regs, e, p).0 == Some(Progress(r, m, p.store)) <==>
              && e.Some? && e.value.reg == r && e.value.matched == m - 1 && m < |r.codes|
              && r.codes[m - 1] == p.code && !TooLate(p.check, e.value.lastTime, r.time)
  {
    hide TooLate, CodeRestart;
    RestartMatchesOne(regs, p);
  }

  lemma RestartMatchesOne(regs: seq<Reg>, p: Press)
    ensures CodeRestart(regs, p).Some? ==> CodeRestart(regs, p).value.matched == 1
  {
  }

  lemma OneKeyWindow(regs: seq<Reg>, h: seq<Press>, r: Reg)
    requires h != [] && |r.codes| > 1
    ensures Window(regs, h, 1, r, 1) <==> StartedAt(regs, h, 1, r)
  {
    ProgressFacts(regs, h);
    assert h[..|h|] == h;
    assert Last(h, 1) == [h[|h| - 1]];
  }

  /** A transaction in progress takes the press: it waits for that key, which is its last one or came in time. */
  ghost predicate Taken(regs: seq<Reg>, h: seq<Press>, p: Press) {
    exists q: Reg, j: nat ::
      && 1 <= j < |q.codes| && Window(regs, h, j, q, j) && q.codes[j] == p.code
      && (j + 1 == |q.codes| || !TooLate(p.check, h[|h| - 1].store, q.time))
  }

  /**
   * A press starts a transaction exactly when that is the newest with its key, and no transaction in
   * progress takes the press: a wrong key and one that comes too late both start over.
   */
  lemma StartsExactly(regs: seq<Reg>, h: seq<Press>, p: Press, r: Reg)
    ensures CodePresses(regs, None, h + [p]).0 == Some(Progress(r, 1, p.store)) <==>
              FirstWith(regs, p.code) == Some(r) && !Taken(regs, h, p)
  {
    hide CodePresses, FirstWith, TooLate, Window;
    PressesSnoc(regs, h, p);
    var e := CodePresses(regs, None, h).0;
    if h == [] {
      NoPresses(regs);
      NothingTaken(regs, p);
    } else {
      ProgressFacts(regs, h);
      forall q: Reg, j: nat | 1 <= j < |q.codes|
        ensures Window(regs, h, j, q, j) <==> e == Some(Progress(q, j, h[|h| - 1].store))
      {
        ProgressExactly(regs, h, j, q);
      }
    }
  }

  lemma NothingTaken(regs: seq<Reg>, p: Press)
    ensures !Taken(regs, [], p)
  {
  }

  /** The transaction at `i` begins with the key, and none in front of it, which are newer, does. */
  ghost predicate NewestAt(regs: seq<Reg>, code: int, i: nat) {
    && i < |regs| && regs[i].codes != [] && regs[i].codes[0] == code
    && forall j :: 0 <= j < i ==> regs[j].codes == [] || regs[j].codes[0] != code
  }

  lemma {:induction false} FirstWithIsNewest(regs: seq<Reg>, code: int, r: Reg)
    ensures FirstWith(regs, code) == Some(r) <==> exists i: nat :: NewestAt(regs, code, i) && regs[i] == r
  {
    if regs != [] {
      var rest := regs[1..];
      FirstWithIsNewest(rest, code, r);
      if NewestAt(regs, code, 0) {
        assert forall i: nat :: i > 0 ==> !NewestAt(regs, code, i);
      } else {
        assert !NewestAt(regs, code, 0);
        forall i: nat
          ensures NewestAt(regs, code, i + 1) <==> NewestAt(rest, code, i)
        {
          assert forall j :: 0 < j < |regs| ==> regs[j] == rest[j - 1];
          assert forall j :: 0 <= j < |rest| ==> rest[j] == regs[j + 1];
        }
        if FirstWith(regs, code) == Some(r) {
          var i: nat :| NewestAt(rest, code, i) && rest[i] == r;
          assert NewestAt(regs, code, i + 1) && regs[i + 1] == r;
        }
        if i: nat :| NewestAt(regs, code, i) && regs[i] == r {
          assert NewestAt(rest, code, i - 1) && rest[i - 1] == r;
        }
      }
    }
  }

  /**
   * Exactly when the last presses are the keys of a transaction of two keys or more from a press that
   * started it, and came in time but for the last one, does the last press fire it.
   */
  lemma FiresExactly(regs: seq<Reg>, h: seq<Press>, r: Reg)
    ensures CodePresses(regs, None, h).1 == Some(r) <==>
              |r.codes| >= 2 && Window(regs, h, |r.codes|, r, |r.codes| - 1)
  {
    hide CodePresses, CodeStep, Window, FirstWith, TooLate;
    var n := |r.codes|;
    WindowIsShort(regs, h, n, r, n - 1);
    if h == [] {
      NoPresses(regs);
    } else {
      var front, p := h[..|h| - 1], h[|h| - 1];
      assert h == front + [p];
      ProgressFacts(regs, front);
      PressesSnoc(regs, front, p);
      StepFires(regs, CodePresses(regs, None, front).0, p, r);
      if n >= 2 && front != [] {
        ProgressExactly(regs, front, n - 1, r);
        WindowIsShort(regs, front, n - 1, r, n - 1);
        if n - 1 <= |front| {
          WindowStep(regs, front, p, n - 1, r);
        }
      }
    }
  }

  lemma NoPresses(regs: seq<Reg>)
    ensures CodePresses(regs, None, []) == (None, None)
  {
  }

  lemma WindowIsShort(regs: seq<Reg>, h: seq<Press>, m: nat, r: Reg, upto: int)
    ensures upto >= 0 && Window(regs, h, m, r, upto) ==> 1 <= m <= |h|
  {
  }

  lemma PressesSnoc(regs: seq<Reg>, front: seq<Press>, p: Press)
    ensures CodePresses(regs, None, front + [p]) == CodeStep(regs, CodePresses(regs, None, front).0, p)
  {
    hide CodeStep;
    assert (front + [p])[..|front|] == front;
  }

  /** A press fires exactly the transaction of which only its key is missing. */
  lemma StepFires(regs: seq<Reg>, e: Option<Progress>, p: Press, r: Reg)
    ensures CodeStep(regs, e, p).1 == Some(r) <==>
              && e.Some? && e.value.reg == r && e.value.matched + 1 == |r.codes|
              && r.codes[e.value.matched] == p.code
  {
    hide FirstWith, TooLate;
  }

  // ---------- When a transaction cannot be missed ----------

  /** The transaction that a first key starts; others with that first key are never in progress. */
  ghost predicate Starts(regs: seq<Reg>, q: Reg) {
    q.codes != [] && FirstWith(regs, q.codes[0]) == Some(q)
  }

  /** No transaction that can be in progress waits for the first key of `r`. */
  ghost predicate Unshadowed(regs: seq<Reg>, r: Reg)
    requires r.codes != []
  {
    forall q, i {:trigger Starts(regs, q), q.codes[i]} ::
      Starts(regs, q) && 1 <= i < |q.codes| ==> q.codes[i] != r.codes[0]
  }

  lemma {:induction false} ProgressStarts(regs: seq<Reg>, h: seq<Press>)
    ensures var e := CodePresses(regs, None, h).0;
      e.Some? ==> Starts(regs, e.value.reg) && e.value.matched >= 1
    ensures CodePresses(regs, None, h).1.Some? ==> Starts(regs, CodePresses(regs, None, h).1.value)
  {
    hide FirstWith, TooLate;
    if h != [] {
      ProgressStarts(regs, h[..|h| - 1]);
    }
  }

  /** The first of the latest presses starts the transaction: whatever is in progress does not wait for that key. */
  lemma UnshadowedStarts(regs: seq<Reg>, h: seq<Press>, r: Reg)
    requires |r.codes| >= 2 && Starts(regs, r) && Unshadowed(regs, r) && Earned(h, r)
    ensures StartedAt(regs, h, |r.codes|, r)
  {
    hide FirstWith, TooLate, InTime;
    var k := |h| - |r.codes|;
    var upto := h[..k + 1];
    assert upto[..|upto| - 1] == h[..k] && upto[|upto| - 1] == h[k] == Last(h, |r.codes|)[0];
    ProgressStarts(regs, h[..k]);
  }

  /** The presses of the keys, without a pause. */
  ghost function AtOnce(codes: seq<int>): (h: seq<Press>)
    ensures |h| == |codes| && forall i :: 0 <= i < |h| ==> h[i] == Press(codes[i], 0, 0)
  {
    seq(|codes|, i requires 0 <= i < |codes| => Press(codes[i], 0, 0))
  }

  lemma AtOnceEarned(before: seq<Press>, r: Reg)
    requires |r.codes| >= 2
    ensures Earned(before + AtOnce(r.codes), r)
  {
    assert Last(before + AtOnce(r.codes), |r.codes|) == AtOnce(r.codes);
  }

  /** The presses that make `r` missed: the first keys of `q` up to the one it shares, then all keys of `r`. */
  ghost function Shadow(q: Reg, i: nat, r: Reg): seq<Press>
    requires i <= |q.codes|
  {
    AtOnce(q.codes[..i]) + AtOnce(r.codes)
  }

  lemma KeysAtOnce(regs: seq<Reg>, q: Reg, m: nat)
    requires Starts(regs, q) && 1 <= m <= |q.codes| && |q.codes| >= 2
    ensures CodePresses(regs, None, AtOnce(q.codes[..m])).0 == if m < |q.codes| then Some(Progress(q, m, 0)) else None
  {
    hide FirstWith, CodePresses;
    KeysInTimeFire(regs, q, AtOnce(q.codes[..m]));
  }

  lemma ShadowStart(q: Reg, i: nat, r: Reg)
    requires |r.codes| >= 2 && i < |q.codes| && q.codes[i] == r.codes[0]
    ensures var h := Shadow(q, i, r); |h| == i + |r.codes| && h[..i + 1] == AtOnce(q.codes[..i + 1])
  {
  }

  lemma ShadowIsMissed(regs: seq<Reg>, q: Reg, i: nat, r: Reg)
    requires |r.codes| >= 2 && Starts(regs, q) && 1 <= i < |q.codes| && q.codes[i] == r.codes[0]
    ensures Earned(Shadow(q, i, r), r) && CodePresses(regs, None, Shadow(q, i, r)).1 != Some(r)
  {
    hide FirstWith, CodePresses, AtOnce, Earned, Keys, InTime;
    AtOnceEarned(AtOnce(q.codes[..i]), r);
    FiresExactly(regs, Shadow(q, i, r), r);
    ShadowStart(q, i, r);
    KeysAtOnce(regs, q, i + 1);
  }

  lemma UnstartedIsMissed(regs: seq<Reg>, r: Reg)
    requires |r.codes| >= 2 && !Starts(regs, r)
    ensures Earned(AtOnce(r.codes), r) && CodePresses(regs, None, AtOnce(r.codes)).1 != Some(r)
  {
    hide CodePresses, FirstWith;
    AtOnceEarned([], r);
    assert [] + AtOnce(r.codes) == AtOnce(r.codes);
    ProgressStarts(regs, AtOnce(r.codes));
  }

  /**
   * A transaction of two keys or more fires after all presses that earn it, if and only if it is the
   * newest with its first key, and no transaction that is the newest with its own first key has the
   * first key of this one at a later place.
   */
  lemma NeverMissedExactly(regs: seq<Reg>, r: Reg)
    requires |r.codes| >= 2
    ensures (forall h {:trigger Earned(h, r)} :: Earned(h, r) ==> CodePresses(regs, None, h).1 == Some(r)) <==>
              Starts(regs, r) && Unshadowed(regs, r)
  {
    hide CodePresses, Earned, Starts, StartedAt, Shadow, AtOnce;
    if !Starts(regs, r) {
      UnstartedIsMissed(regs, r);
    } else if !Unshadowed(regs, r) {
      var q, i :| Starts(regs, q) && 1 <= i < |q.codes| && q.codes[i] == r.codes[0];
      ShadowIsMissed(regs, q, i, r);
    } else {
      forall h | Earned(h, r)
        ensures CodePresses(regs, None, h).1 == Some(r)
      {
        UnshadowedStarts(regs, h, r);
        EarnedWindow(regs, h, r);
        FiresExactly(regs, h, r);
      }
    }
  }

  lemma EarnedWindow(regs: seq<Reg>, h: seq<Press>, r: Reg)
    requires Earned(h, r) && StartedAt(regs, h, |r.codes|, r)
    ensures Window(regs, h, |r.codes|, r, |r.codes| - 1)
  {
    hide StartedAt, Keys, InTime;
  }

  // ---------- The same on the text ----------

  /** Registrations, the last of which is the newest and comes first in the list. */
  ghost function Registering(regs: seq<Reg>): seq<Input> {
    if regs == [] then [] else Registering(regs[1..]) + [Registered(regs[0])]
  }

  ghost function Pressing(inputs: seq<Input>, h: seq<Press>): seq<Input> {
    if h == [] then inputs else Pressing(inputs, h[..|h| - 1]) + [Pressed(h[|h| - 1])]
  }

  lemma {:induction false} RegisteringRun(regs: seq<Reg>)
    ensures CodeRun(Registering(regs)) == CodeState(regs, None, None)
  {
    hide CodeStep;
    if regs != [] {
      RegisteringRun(regs[1..]);
      var front := Registering(regs[1..]);
      assert (front + [Registered(regs[0])])[..|front|] == front;
    }
  }

  lemma {:induction false} PressingRun(regs: seq<Reg>, h: seq<Press>)
    ensures CodeRun(Pressing(Registering(regs), h)) ==
      CodeState(regs, CodePresses(regs, None, h).0, CodePresses(regs, None, h).1)
  {
    hide CodeStep, Registering;
    if h == [] {
      RegisteringRun(regs);
    } else {
      var front := Pressing(Registering(regs), h[..|h| - 1]);
      PressingRun(regs, h[..|h| - 1]);
      assert (front + [Pressed(h[|h| - 1])])[..|front|] == front;
    }
  }

  ghost predicate AllFit(regs: seq<Reg>) {
    forall i {:trigger regs[i]} :: 0 <= i < |regs| ==> AllShort(regs[i].codes)
  }

  ghost predicate PressesFit(h: seq<Press>) {
    forall i {:trigger h[i]} :: 0 <= i < |h| ==> Short(h[i].code)
  }

  lemma {:induction false} RegisteringFits(regs: seq<Reg>)
    requires AllFit(regs)
    ensures Fitting(Registering(regs))
  {
    hide AllShort, Short;
    if regs != [] {
      RegisteringFits(regs[1..]);
    }
  }

  lemma {:induction false} PressingFits(inputs: seq<Input>, h: seq<Press>)
    requires Fitting(inputs) && PressesFit(h)
    ensures Fitting(Pressing(inputs, h))
  {
    hide AllShort, Short;
    if h != [] {
      PressingFits(inputs, h[..|h| - 1]);
    }
  }

  /** The text of a transaction determines its keys. */
  lemma {:induction false} TextInjective(a: seq<int>, b: seq<int>)
    requires AllShort(a) && AllShort(b) && Text(a) == Text(b)
    ensures a == b
    decreases |a|
  {
    hide Rendered, Token, StrCode;
    if a == [] {
      TokensLength(b);
      assert |Text(a)| == 1 && |Text(b)| == 1 + |Tokens(b)|;
    } else {
      PrefixDecides(a[0], a);
      PrefixDecides(a[0], b);
      TextInjective(a[1..], b[1..]);
      assert a == [a[0]] + a[1..] && b == [b[0]] + b[1..];
    }
  }

  /** What the text matcher fires after registrations and then presses. */
  ghost function TextFired(regs: seq<Reg>, h: seq<Press>): Option<Fired> {
    TextRun(Pressing(Registering(regs), h)).fired
  }

  /** The callback of `r` is called with its text exactly when the matcher on codes fires it. */
  lemma TextFiresAsCodes(regs: seq<Reg>, h: seq<Press>, r: Reg)
    requires AllFit(regs) && PressesFit(h) && AllShort(r.codes)
    ensures TextFired(regs, h) == Some(FiredOf(r)) <==> CodePresses(regs, None, h).1 == Some(r)
  {
    hide TextRun, Registering, Pressing, CodePresses, AllShort, Short, Text, Represents, Stands;
    RegisteringFits(regs);
    PressingFits(Registering(regs), h);
    var inputs := Pressing(Registering(regs), h);
    RunsAgree(inputs);
    PressingRun(regs, h);
    var fired := CodePresses(regs, None, h).1;
    if fired.Some? && FiredOf(fired.value) == FiredOf(r) {
      ProgressStarts(regs, h);
      FirstWithMember(regs, fired.value.codes[0]);
      TextInjective(fired.value.codes, r.codes);
    }
  }

  lemma FirstWithMember(regs: seq<Reg>, code: int)
    requires AllFit(regs)
    ensures FirstWith(regs, code).Some? ==> AllShort(FirstWith(regs, code).value.codes)
  {
    hide AllShort;
  }

  lemma ShadowFits(regs: seq<Reg>, q: Reg, i: nat, r: Reg)
    requires i <= |q.codes| && AllShort(q.codes) && AllShort(r.codes)
    ensures PressesFit(Shadow(q, i, r)) && PressesFit(AtOnce(r.codes))
  {
  }

  /**
   * The text matcher with these registrations calls the callback of `r` after all presses that earn
   * it, if and only if `r` is the newest with its first key and no such transaction has that key later.
   */
  lemma TextNeverMissesExactly(regs: seq<Reg>, r: Reg)
    requires |r.codes| >= 2 && AllFit(regs) && AllShort(r.codes)
    ensures (forall h {:trigger Earned(h, r)} ::
               PressesFit(h) && Earned(h, r) ==> TextFired(regs, h) == Some(FiredOf(r)))
              <==> Starts(regs, r) && Unshadowed(regs, r)
  {
    hide TextFired, CodePresses, Earned, Starts, AtOnce, Shadow, AllShort, PressesFit, FiredOf, AllFit;
    if !Starts(regs, r) {
      UnstartedIsMissed(regs, r);
      ShadowFits(regs, r, 0, r);
      TextFiresAsCodes(regs, AtOnce(r.codes), r);
    } else if !Unshadowed(regs, r) {
      var q, i :| Starts(regs, q) && 1 <= i < |q.codes| && q.codes[i] == r.codes[0];
      StartsFit(regs, q);
      ShadowIsMissed(regs, q, i, r);
      ShadowFits(regs, q, i, r);
      TextFiresAsCodes(regs, Shadow(q, i, r), r);
    } else {
      NeverMissedExactly(regs, r);
      forall h | PressesFit(h) && Earned(h, r)
        ensures TextFired(regs, h) == Some(FiredOf(r))
      {
        TextFiresAsCodes(regs, h, r);
      }
    }
  }

  lemma StartsFit(regs: seq<Reg>, q: Reg)
    requires AllFit(regs) && Starts(regs, q)
    ensures AllShort(q.codes)
  {
    FirstWithMember(regs, q.codes[0]);
  }

  /**
   * Without that start the last presses alone do not decide: for keys 1 1 2, the presses 1 1 1 2 end
   * in the transaction without a gap, and nothing fires.
   */
  lemma OverlapIsMissed(cb: Callback)
    ensures var r := Reg([1, 1, 2], 100, cb);
      var h := [Press(1, 0, 0), Press(1, 0, 0), Press(1, 0, 0), Press(2, 0, 0)];
      Earned(h, r) && CodePresses([r], None, h).1 == None
  {
    var r := Reg([1, 1, 2], 100, cb);
    var a, b := Press(1, 0, 0), Press(2, 0, 0);
    var regs := [r];
    assert CodePresses(regs, None, [a]) == (Some(Progress(r, 1, 0)), None) by { assert [a][..0] == []; }
    assert CodePresses(regs, None, [a, a]) == (Some(Progress(r, 2, 0)), None) by { assert [a, a][..1] == [a]; }
    assert CodePresses(regs, None, [a, a, a]) == (Some(Progress(r, 1, 0)), None) by { assert [a, a, a][..2] == [a, a]; }
    assert FirstWith(regs, 2) == None;
    assert CodePresses(regs, None, [a, a, a, b]) == (None, None) by { assert [a, a, a, b][..3] == [a, a, a]; }
  }

  /** A transaction of one key never fires. */
  lemma OneKeyNeverFires(inputs: seq<Input>, r: Reg)
    requires |r.codes| <= 1
    ensures CodeRun(inputs).fired != Some(r)
  {
    RunExplained(inputs);
  }
}
