/** The connection state of the BLE server and client: bus events and calls of the interface over shared globals. */
module BleServer {
  import opened Common

  /** A device known to the bus. */
  type Device = nat

  datatype Status = Idle | Connect | Disconnect

  /** A notification, the device it names, and whether a callback received it. */
  datatype Note = Note(status: Status, device: Option<Device>, delivered: bool)

  datatype Class = Sink | Source | Ble | Other

  /**
   * The globals: whether bluetoothd runs, the flags of `bt_control`, `ble_dev`, `default_dev`,
   * `ble_service_cnt`, `g_ble_state`, the client's state, whether the server's and the client's
   * callbacks are registered, and all notifications sent so far.
   */
  datatype State = State(alive: bool, btOpen: bool, bleOpen: bool, clientOpen: bool,
                         dev: Option<Device>, defaultDev: Option<Device>,
                         services: int, status: Status, clientStatus: Status, cb: bool, clientCb: bool,
                         log: seq<Note>, clientLog: seq<Note>)
  {
    predicate BtIsOpen() { btOpen && alive }
    predicate BleIsOpen() { bleOpen && alive }
    predicate ClientIsOpen() { clientOpen && alive }
  }

  datatype Event =
    | Daemon(alive: bool)
    | BtInit
    | BtDeinit
    | RegisterCallback(on: bool)
    | RegisterClientCallback(on: bool)
    | BleStart(advertises: bool)
    | BleStop
    | ClientOpen
    | ClientClose
    | DeviceAdded(d: Device, class_: Class, connected: bool)
    | DeviceRemoved(d: Device)
    | DeviceConnected(d: Device, class_: Class, connected: bool)
    | ServiceAdded(d: Device, class_: Class)
    | ServiceRemoved(underDev: bool)

  // ---------- What each handler does ----------

  /** `ble_state_send` */
  function StateSend(s: State, status: Status): State {
    s.(status := status, log := s.log + [Note(status, s.dev, s.cb && s.BleIsOpen())])
  }

  /** `gatt_client_state_send` */
  function ClientStateSend(s: State, status: Status): State {
    s.(clientStatus := status, clientLog := s.clientLog + [Note(status, s.dev, s.clientCb)])
  }

  /** `ble_clean` */
  function Clean(s: State): State {
    s.(services := 0, dev := None)
  }

  /** `ble_connected_handler` */
  function ConnectedHandler(s: State, d: Device): State {
    if !s.BleIsOpen() || s.dev.Some? then s else StateSend(s.(dev := Some(d)), Connect)
  }

  /** `ble_disconnect_handler` */
  function DisconnectHandler(s: State): State {
    if !s.BleIsOpen() || s.dev.None? then s else StateSend(s, Disconnect).(dev := None, services := 0)
  }

  /** `ble_client_connected_handler` */
  function ClientConnectedHandler(s: State, d: Device, connected: bool): State {
    if !s.ClientIsOpen() then s
    else if connected then
      if s.dev.Some? then s else ClientStateSend(s.(dev := Some(d)), Connect)
    else
      if s.dev != Some(d) then s else ClientStateSend(s, Disconnect).(dev := None)
  }

  /** `bt_hal_ble_stop` */
  function Stop(s: State): State {
    if !s.BleIsOpen() then s else s.(cb := false, bleOpen := false)
  }

  /** `bt_hal_ble_client_close` */
  function CloseClient(s: State): State {
    if !s.ClientIsOpen() then s else s.(clientStatus := Idle, clientCb := false, clientOpen := false)
  }

  /** `rk_ble_start` up to the moment the server counts as open. */
  function StartOpen(s: State, advertises: bool): State
    requires s.BtIsOpen() && !s.BleIsOpen()
  {
    Clean(CloseClient(s)).(bleOpen := advertises)
  }

  function Step(s: State, e: Event): State {
    match e
    case Daemon(alive) => s.(alive := alive)
    case BtInit => s.(btOpen := true)
    case BtDeinit => if !s.BtIsOpen() then s else CloseClient(Stop(s)).(btOpen := false)
    case RegisterCallback(on) => s.(cb := on)
    case RegisterClientCallback(on) => s.(clientCb := on)
    case BleStart(advertises) =>
      if !s.BtIsOpen() || s.BleIsOpen() then s
      else
        var t := StartOpen(s, advertises);
        if advertises then StateSend(t, Idle) else t
    case BleStop => Stop(s)
    case ClientOpen =>
      if !s.BtIsOpen() || s.ClientIsOpen() then s
      else ClientStateSend(Clean(Stop(s)).(clientOpen := true), Idle)
    case ClientClose => CloseClient(s)
    case DeviceAdded(d, class_, connected) =>
      if !connected then s
      else if class_.Sink? || class_.Source? then
        if s.defaultDev.Some? then s else s.(defaultDev := Some(d))
      else ConnectedHandler(s, d)
    case DeviceRemoved(d) =>
      if s.defaultDev == Some(d) then s.(defaultDev := None)
      else if s.dev == Some(d) then DisconnectHandler(s)
      else s
    case DeviceConnected(d, class_, connected) =>
      if class_.Sink? || class_.Source? then
        if connected && s.defaultDev.None? then s.(defaultDev := Some(d))
        else if !connected && s.defaultDev == Some(d) then s.(defaultDev := None)
        else s
      else if class_.Ble? then
        if s.BleIsOpen() then (if connected then ConnectedHandler(s, d) else s)
        else ClientConnectedHandler(s, d, connected)
      else s
    case ServiceAdded(d, class_) =>
      if !s.BleIsOpen() || class_.Sink? || class_.Source? then s
      else
        var t := if s.services == 0 && s.dev.None? then StateSend(s.(dev := Some(d)), Connect) else s;
        t.(services := t.services + 1)
    case ServiceRemoved(underDev) =>
      if !s.BleIsOpen() || s.dev.None? || !underDev then s
      else
        var t := s.(services := s.services - 1);
        if t.services == 0 then DisconnectHandler(t).(dev := None) else t
  }

  const INIT := State(true, false, false, false, None, None, 0, Idle, Idle, false, false, [], [])

  ghost function Run(s: State, es: seq<Event>): State {
    if es == [] then s else Step(Run(s, es[..|es| - 1]), es[|es| - 1])
  }

  // ---------- What every run keeps ----------

  /**
   * A connection is announced only after an idle or a disconnect notification, and a disconnection
   * only right after the connection of the same device.
   */
  ghost predicate Follows(n: Note, before: seq<Note>) {
    match n.status
    case Idle => n.device == None
    case Connect => n.device.Some? && before != [] && !before[|before| - 1].status.Connect?
    case Disconnect => before != [] && before[|before| - 1].status.Connect? && before[|before| - 1].device == n.device
  }

  ghost predicate Alternates(log: seq<Note>) {
    forall i {:trigger log[i]} :: 0 <= i < |log| ==> Follows(log[i], log[..i])
  }

  lemma AlternatesAppend(log: seq<Note>, n: Note)
    requires Alternates(log) && Follows(n, log)
    ensures Alternates(log + [n])
  {
    var log' := log + [n];
    forall i | 0 <= i < |log'|
      ensures Follows(log'[i], log'[..i])
    {
      assert log'[..i] == log[..i];
    }
  }

  /** The notifications so far end in the state the globals are in. */
  ghost predicate Current(log: seq<Note>, status: Status, dev: Option<Device>) {
    && log != [] && log[|log| - 1].status == status
    && (status.Connect? <==> dev.Some?)
    && (status.Connect? ==> log[|log| - 1].device == dev)
  }

  ghost predicate Inv(s: State) {
    && !(s.bleOpen && s.clientOpen)
    && Alternates(s.log) && Alternates(s.clientLog)
    && (s.bleOpen ==> Current(s.log, s.status, s.dev))
    && (s.clientOpen ==> Current(s.clientLog, s.clientStatus, s.dev))
  }

  lemma SendKeeps(s: State, status: Status)
    requires !s.clientOpen && Alternates(s.log) && Alternates(s.clientLog)
    requires Follows(Note(status, s.dev, s.cb && s.BleIsOpen()), s.log)
    ensures Alternates(StateSend(s, status).log)
  {
    AlternatesAppend(s.log, Note(status, s.dev, s.cb && s.BleIsOpen()));
  }

  lemma ConnectKeeps(s: State, d: Device)
    requires Inv(s)
    ensures Inv(ConnectedHandler(s, d))
  {
    hide Alternates;
    if s.BleIsOpen() && s.dev.None? {
      SendKeeps(s.(dev := Some(d)), Connect);
    }
  }

  lemma DisconnectKeeps(s: State)
    requires Inv(s)
    ensures Inv(DisconnectHandler(s))
  {
    hide Alternates;
    if s.BleIsOpen() && s.dev.Some? {
      SendKeeps(s, Disconnect);
    }
  }

  lemma ClientConnectKeeps(s: State, d: Device, connected: bool)
    requires Inv(s)
    ensures Inv(ClientConnectedHandler(s, d, connected))
  {
    hide Alternates;
    if s.ClientIsOpen() {
      if connected && s.dev.None? {
        ClientSendKeeps(s.(dev := Some(d)), Connect);
      } else if !connected && s.dev == Some(d) {
        ClientSendKeeps(s, Disconnect);
      }
    }
  }

  lemma ClientSendKeeps(s: State, status: Status)
    requires Alternates(s.clientLog) && Follows(Note(status, s.dev, s.clientCb), s.clientLog)
    ensures Alternates(ClientStateSend(s, status).clientLog)
  {
    AlternatesAppend(s.clientLog, Note(status, s.dev, s.clientCb));
  }

  lemma StepKeeps(s: State, e: Event)
    requires Inv(s)
    ensures Inv(Step(s, e))
  {
    hide Alternates, ConnectedHandler, DisconnectHandler, ClientConnectedHandler;
    match e
    case BleStart(advertises) => StartKeeps(s, advertises);
    case ClientOpen => ClientOpenKeeps(s);
    case DeviceAdded(d, _, _) => ConnectKeeps(s, d);
    case DeviceRemoved(_) => DisconnectKeeps(s);
    case DeviceConnected(d, _, connected) => ConnectKeeps(s, d); ClientConnectKeeps(s, d, connected);
    case ServiceAdded(d, class_) => ServiceAddedKeeps(s, d, class_);
    case ServiceRemoved(underDev) => ServiceRemovedKeeps(s, underDev);
    case _ =>
  }

  lemma StartKeeps(s: State, advertises: bool)
    requires Inv(s)
    ensures Inv(Step(s, BleStart(advertises)))
  {
    hide Alternates;
    if s.BtIsOpen() && !s.BleIsOpen() && advertises {
      SendKeeps(StartOpen(s, true), Idle);
    }
  }

  lemma ClientOpenKeeps(s: State)
    requires Inv(s)
    ensures Inv(Step(s, ClientOpen))
  {
    hide Alternates;
    AlternatesAppend(s.clientLog, Note(Idle, None, s.clientCb));
  }

  lemma ServiceAddedKeeps(s: State, d: Device, class_: Class)
    requires Inv(s)
    ensures Inv(Step(s, ServiceAdded(d, class_)))
  {
    hide Alternates;
    ConnectKeeps(s, d);
  }

  lemma ServiceRemovedKeeps(s: State, underDev: bool)
    requires Inv(s)
    ensures Inv(Step(s, ServiceRemoved(underDev)))
  {
    hide Alternates, Follows;
    DisconnectKeeps(s.(services := s.services - 1));
  }

  lemma {:induction false} RunKeeps(es: seq<Event>)
    ensures Inv(Run(INIT, es))
  {
    if es != [] {
      RunKeeps(es[..|es| - 1]);
      StepKeeps(Run(INIT, es[..|es| - 1]), es[|es| - 1]);
    }
  }

  /**
   * While the server is open it is in the connected state exactly when it has a device; at the same
   * moment the client is closed; and each disconnection sent names the device of the connection sent
   * right before it. This needs no assumption about bluetoothd.
   */
  lemma ServerIsConsistent(es: seq<Event>)
    ensures var s := Run(INIT, es);
      && (s.bleOpen ==> !s.clientOpen && (s.status.Connect? <==> s.dev.Some?))
      && (s.clientOpen ==> !s.bleOpen && (s.clientStatus.Connect? <==> s.dev.Some?))
      && forall i :: 0 <= i < |s.log| ==>
           && (s.log[i].status.Connect? ==> i > 0 && !s.log[i - 1].status.Connect?)
           && (s.log[i].status.Disconnect? ==>
                 i > 0 && s.log[i - 1].status.Connect? && s.log[i - 1].device == s.log[i].device)
  {
    hide Step, Run;
    RunKeeps(es);
    var s := Run(INIT, es);
    forall i {:trigger s.log[i]} | 0 <= i < |s.log|
      ensures Follows(s.log[i], s.log[..i])
      ensures i > 0 ==> s.log[..i][i - 1] == s.log[i - 1]
    {
    }
  }

  // ---------- What a registered callback receives ----------

  /** One note more at most, which is delivered exactly when the callback is registered. */
  ghost predicate Sends(before: seq<Note>, after: seq<Note>, cb: bool) {
    after == before ||
    (|after| == |before| + 1 && after[..|before|] == before && (after[|before|].delivered <==> cb))
  }

  lemma SentBy(s: State, status: Status)
    ensures s.BleIsOpen() ==> Sends(s.log, StateSend(s, status).log, s.cb)
    ensures Sends(s.clientLog, ClientStateSend(s, status).clientLog, s.clientCb)
  {
  }

  lemma HandlersSend(s: State, d: Device, connected: bool)
    ensures Sends(s.log, ConnectedHandler(s, d).log, s.cb) && ConnectedHandler(s, d).clientLog == s.clientLog
    ensures Sends(s.log, DisconnectHandler(s).log, s.cb) && DisconnectHandler(s).clientLog == s.clientLog
    ensures var t := ClientConnectedHandler(s, d, connected);
      t.log == s.log && Sends(s.clientLog, t.clientLog, s.clientCb)
  {
    hide Sends;
    SentBy(s.(dev := Some(d)), Connect);
    SentBy(s, Disconnect);
    NothingSent(s);
  }

  lemma NothingSent(s: State)
    ensures Sends(s.log, s.log, s.cb) && Sends(s.clientLog, s.clientLog, s.clientCb)
  {
  }

  /** Every event sends the server's callback and the client's one note at most, delivered as registered. */
  lemma StepSends(s: State, e: Event)
    ensures Sends(s.log, Step(s, e).log, s.cb) && Sends(s.clientLog, Step(s, e).clientLog, s.clientCb)
  {
    hide Sends, Step;
    match e
    case BleStart(advertises) => NothingSent(s); StartSends(s, advertises);
    case ClientOpen => NothingSent(s); ClientOpenSends(s);
    case DeviceAdded(_, _, _) => DeviceSends(s, e);
    case DeviceRemoved(_) => DeviceSends(s, e);
    case DeviceConnected(_, _, _) => DeviceSends(s, e);
    case ServiceAdded(d, _) => NothingSent(s); ServiceAddedSends(s, d, e);
    case ServiceRemoved(_) => DeviceSends(s, e);
    case _ => OthersSendNothing(s, e); NothingSent(s);
  }

  lemma DeviceSends(s: State, e: Event)
    requires e.DeviceAdded? || e.DeviceRemoved? || e.DeviceConnected? || e.ServiceRemoved?
    ensures Sends(s.log, Step(s, e).log, s.cb) && Sends(s.clientLog, Step(s, e).clientLog, s.clientCb)
  {
    hide Sends, ConnectedHandler, DisconnectHandler, ClientConnectedHandler;
    NothingSent(s);
    match e
    case DeviceAdded(d, _, _) => HandlersSend(s, d, true);
    case DeviceRemoved(d) => HandlersSend(s, d, false);
    case DeviceConnected(d, _, connected) => HandlersSend(s, d, connected);
    case ServiceRemoved(_) => HandlersSend(s.(services := s.services - 1), 0, false);
  }

  lemma OthersSendNothing(s: State, e: Event)
    requires e.Daemon? || e.BtInit? || e.BtDeinit? || e.RegisterCallback? || e.RegisterClientCallback?
             || e.BleStop? || e.ClientClose?
    ensures Step(s, e).log == s.log && Step(s, e).clientLog == s.clientLog
  {
  }

  lemma StartSends(s: State, advertises: bool)
    ensures var t := Step(s, BleStart(advertises)); Sends(s.log, t.log, s.cb) && t.clientLog == s.clientLog
  {
    if s.BtIsOpen() && !s.BleIsOpen() {
      SentBy(StartOpen(s, true), Idle);
    }
  }

  lemma ClientOpenSends(s: State)
    ensures var t := Step(s, ClientOpen); t.log == s.log && Sends(s.clientLog, t.clientLog, s.clientCb)
  {
  }

  lemma ServiceAddedSends(s: State, d: Device, e: Event)
    requires e.ServiceAdded? && e.d == d
    ensures var t := Step(s, e); Sends(s.log, t.log, s.cb) && t.clientLog == s.clientLog
  {
    SentBy(s.(dev := Some(d)), Connect);
  }

  /** The server's callback is registered before every event of the run. */
  ghost predicate StaysRegistered(s: State, es: seq<Event>) {
    forall k {:trigger es[..k]} :: 0 <= k < |es| ==> Run(s, es[..k]).cb
  }

  /** The server's callback is registered before no event of the run. */
  ghost predicate StaysAway(s: State, es: seq<Event>) {
    forall k {:trigger es[..k]} :: 0 <= k < |es| ==> !Run(s, es[..k]).cb
  }

  lemma {:induction false} RunSends(s: State, es: seq<Event>)
    ensures s.log <= Run(s, es).log
    ensures StaysRegistered(s, es) ==> forall i :: |s.log| <= i < |Run(s, es).log| ==> Run(s, es).log[i].delivered
    ensures StaysAway(s, es) ==> forall i :: |s.log| <= i < |Run(s, es).log| ==> !Run(s, es).log[i].delivered
  {
    hide Step;
    if es != [] {
      var front := es[..|es| - 1];
      assert forall k :: 0 <= k < |front| ==> front[..k] == es[..k];
      assert es[..|front|] == front;
      RunSends(s, front);
      StepSends(Run(s, front), es[|es| - 1]);
    }
  }

  lemma {:induction false} RunConcat(s: State, a: seq<Event>, b: seq<Event>)
    ensures Run(s, a + b) == Run(Run(s, a), b)
  {
    hide Step;
    if b == [] {
      assert a + b == a;
    } else {
      assert (a + b)[..|a + b| - 1] == a + b[..|b| - 1];
      RunConcat(s, a, b[..|b| - 1]);
    }
  }

  /**
   * A callback that stays registered for some time receives every note that is sent in it, and what it
   * receives alternates: behind a connection only its disconnection or a restart, and a disconnection
   * only behind the connection of the same device.
   */
  lemma CallbackSeesAlternation(before: seq<Event>, es: seq<Event>)
    requires StaysRegistered(Run(INIT, before), es)
    ensures var old_, log := Run(INIT, before).log, Run(INIT, before + es).log;
      && old_ <= log
      && (forall i :: |old_| <= i < |log| ==> log[i].delivered)
      && forall i :: |old_| < i < |log| ==>
           && (log[i].status.Connect? ==> !log[i - 1].status.Connect?)
           && (log[i].status.Disconnect? ==> log[i - 1].status.Connect? && log[i - 1].device == log[i].device)
  {
    hide Run, Step, StaysRegistered;
    RunConcat(INIT, before, es);
    RunSends(Run(INIT, before), es);
    ServerIsConsistent(before + es);
  }

  // ---------- Opening the server in two steps ----------

  /** What the bus can report between two steps of a call. */
  predicate FromBus(e: Event) {
    e.Daemon? || e.DeviceAdded? || e.DeviceRemoved? || e.DeviceConnected? || e.ServiceAdded? || e.ServiceRemoved?
  }

  /** The event reports a device, or a service of one, that an open server takes as its connection. */
  predicate Connects(e: Event) {
    match e
    case DeviceAdded(_, class_, connected) => connected && !class_.Sink? && !class_.Source?
    case DeviceConnected(_, class_, connected) => connected && class_.Ble?
    case ServiceAdded(_, class_) => !class_.Sink? && !class_.Source?
    case _ => false
  }

  /** `rk_ble_start` with bus events between opening the server and announcing the idle state. */
  ghost function StartWith(s: State, es: seq<Event>): State
    requires s.BtIsOpen() && !s.BleIsOpen()
  {
    StateSend(Run(StartOpen(s, true), es), Idle)
  }

  /** Without a device and an open client, other events change no more than the audio device and the daemon. */
  lemma QuietStep(s: State, e: Event)
    requires FromBus(e) && !Connects(e) && s.dev.None? && !s.clientOpen
    ensures Step(s, e) == s.(alive := Step(s, e).alive, defaultDev := Step(s, e).defaultDev)
  {
    hide ConnectedHandler, StateSend, ClientStateSend, DisconnectHandler, ClientConnectedHandler, Step;
    match e
    case Daemon(_) => QuietOther(s, e);
    case DeviceAdded(_, _, _) => QuietDevice(s, e);
    case DeviceConnected(_, _, _) => QuietDevice(s, e);
    case _ => QuietOther(s, e);
  }

  lemma QuietDevice(s: State, e: Event)
    requires (e.DeviceAdded? || e.DeviceConnected?) && !Connects(e) && s.dev.None? && !s.clientOpen
    ensures Step(s, e) == s.(defaultDev := Step(s, e).defaultDev)
  {
    hide ConnectedHandler, ClientConnectedHandler;
    NothingToDisconnect(s);
  }

  lemma QuietOther(s: State, e: Event)
    requires e.Daemon? || e.DeviceRemoved? || e.ServiceAdded? || e.ServiceRemoved?
    requires !Connects(e) && s.dev.None? && !s.clientOpen
    ensures Step(s, e) == s.(alive := Step(s, e).alive, defaultDev := Step(s, e).defaultDev)
  {
    hide StateSend, DisconnectHandler;
    NothingToDisconnect(s);
  }

  /** A missing device cannot be disconnected, nor can a client that is not open connect one. */
  lemma NothingToDisconnect(s: State)
    requires s.dev.None? && !s.clientOpen
    ensures DisconnectHandler(s) == s
    ensures forall d, connected :: ClientConnectedHandler(s, d, connected) == s
  {
  }

  lemma {:induction false} QuietRun(s: State, es: seq<Event>)
    requires forall i :: 0 <= i < |es| ==> FromBus(es[i]) && !Connects(es[i])
    requires s.dev.None? && !s.clientOpen
    ensures var t := Run(s, es);
      t.dev.None? && t.bleOpen == s.bleOpen && !t.clientOpen && t.log == s.log && t.clientLog == s.clientLog
  {
    hide Step;
    if es != [] {
      QuietRun(s, es[..|es| - 1]);
      QuietStep(Run(s, es[..|es| - 1]), es[|es| - 1]);
    }
  }

  /** The opened server announces the idle state consistently when no device has come in between. */
  lemma IdleKeeps(t: State)
    requires t.dev.None? && t.bleOpen && !t.clientOpen && Alternates(t.log) && Alternates(t.clientLog)
    ensures Inv(StateSend(t, Idle))
  {
    SendKeeps(t, Idle);
  }

  /** Any list of bus events in the gap is safe as long as none of them connects. */
  lemma QuietGapIsSafe(s: State, es: seq<Event>)
    requires Inv(s) && s.BtIsOpen() && !s.BleIsOpen()
    requires forall i :: 0 <= i < |es| ==> FromBus(es[i]) && !Connects(es[i])
    ensures Inv(StartWith(s, es))
  {
    hide Alternates;
    QuietRun(StartOpen(s, true), es);
    IdleKeeps(Run(StartOpen(s, true), es));
  }

  /** A connecting event gives the opened server its device, which the idle state then contradicts. */
  lemma ConnectingStep(s: State, e: Event)
    requires Connects(e) && s.BleIsOpen() && s.dev.None? && s.services == 0
    ensures Step(s, e).dev.Some? && Step(s, e).bleOpen
  {
  }

  lemma IdleWithDevice(t: State)
    requires t.dev.Some? && t.bleOpen
    ensures !Inv(StateSend(t, Idle))
  {
  }

  /**
   * `rk_ble_start` is not atomic: from every consistent state, one bus event in the gap between opening
   * the server and announcing the idle state leaves it consistent if and only if the event connects no
   * device.
   */
  lemma GapIsSafeExactly(s: State, e: Event)
    requires Inv(s) && s.BtIsOpen() && !s.BleIsOpen() && FromBus(e)
    ensures Inv(StartWith(s, [e])) <==> !Connects(e)
  {
    hide Alternates, Step, Inv;
    var t := StartOpen(s, true);
    RunOne(t, e);
    if Connects(e) {
      ConnectingStep(t, e);
      IdleWithDevice(Step(t, e));
    } else {
      QuietGapIsSafe(s, [e]);
    }
  }

  /** A connection may be announced next. */
  ghost predicate MayConnect(log: seq<Note>) {
    log != [] && !log[|log| - 1].status.Connect?
  }

  /** The first announcement in the gap is a connection, and the latest one says whether there is a device. */
  ghost predicate GapLog(log: seq<Note>, sent: seq<Note>, dev: Option<Device>) {
    log <= sent &&
    if sent == log then dev.None?
    else
      && sent[|log|].status.Connect?
      && (sent[|sent| - 1].status.Connect? <==> dev.Some?)
      && (dev.Some? ==> sent[|sent| - 1].device == dev)
  }

  /** What bus events in the gap make of an opened server. */
  ghost predicate InGap(s: State, t: State) {
    && t.bleOpen && !t.clientOpen && t.clientLog == s.clientLog && GapLog(s.log, t.log, t.dev)
    && (t.log == s.log || MayConnect(s.log) ==> Alternates(t.log))
  }

  lemma GapSend(s: State, t: State, n: Note)
    requires InGap(s, t)
    requires if t.dev.None? then n.status.Connect? && n.device.Some? else n.status.Disconnect? && n.device == t.dev
    ensures GapLog(s.log, t.log + [n], if t.dev.None? then n.device else None)
    ensures MayConnect(s.log) ==> Alternates(t.log + [n])
  {
    hide Alternates;
    if MayConnect(s.log) {
      AlternatesAppend(t.log, n);
    }
  }

  lemma GapConnects(s: State, t: State, d: Device)
    requires InGap(s, t) && t.dev.None?
    ensures InGap(s, StateSend(t.(dev := Some(d)), Connect))
  {
    hide Alternates, GapLog;
    GapSend(s, t, Note(Connect, Some(d), t.cb && t.BleIsOpen()));
    GapGrows(s.log, t.log, t.dev);
  }

  lemma GapDisconnects(s: State, t: State)
    requires InGap(s, t)
    ensures InGap(s, DisconnectHandler(t))
  {
    hide Alternates, GapLog;
    if t.BleIsOpen() && t.dev.Some? {
      GapSend(s, t, Note(Disconnect, t.dev, t.cb && t.BleIsOpen()));
      GapGrows(s.log, t.log, t.dev);
    }
  }

  lemma GapGrows(log: seq<Note>, sent: seq<Note>, dev: Option<Device>)
    requires GapLog(log, sent, dev)
    ensures |log| <= |sent|
  {
  }

  lemma GapStep(s: State, t: State, e: Event)
    requires InGap(s, t) && FromBus(e)
    ensures InGap(s, Step(t, e))
  {
    hide Alternates, GapLog, DisconnectHandler;
    match e
    case DeviceAdded(d, _, _) => if t.dev.None? { GapConnects(s, t, d); }
    case DeviceConnected(d, _, _) => if t.dev.None? { GapConnects(s, t, d); }
    case DeviceRemoved(_) => GapDisconnects(s, t);
    case ServiceAdded(d, _) => if t.dev.None? { GapConnects(s, t, d); }
    case ServiceRemoved(_) => GapServiceRemoved(s, t, e);
    case _ =>
  }

  lemma GapServiceRemoved(s: State, t: State, e: Event)
    requires InGap(s, t) && e.ServiceRemoved?
    ensures InGap(s, Step(t, e))
  {
    hide Alternates, GapLog, StateSend;
    GapDisconnects(s, t.(services := t.services - 1));
  }

  lemma {:induction false} GapRun(s: State, es: seq<Event>)
    requires Inv(s) && s.BtIsOpen() && !s.BleIsOpen() && forall i :: 0 <= i < |es| ==> FromBus(es[i])
    ensures InGap(s, Run(StartOpen(s, true), es))
  {
    hide Step, Alternates;
    if es != [] {
      GapRun(s, es[..|es| - 1]);
      GapStep(s, Run(StartOpen(s, true), es[..|es| - 1]), es[|es| - 1]);
    }
  }

  lemma GapEnds(s: State, t: State)
    requires Inv(s) && InGap(s, t)
    ensures Inv(StateSend(t, Idle)) <==> t.dev.None? && (t.log == s.log || MayConnect(s.log))
  {
    if t.dev.Some? {
      IdleWithDevice(t);
    } else if t.log == s.log || MayConnect(s.log) {
      hide Alternates;
      IdleKeeps(t);
    } else {
      var k, log := |s.log|, StateSend(t, Idle).log;
      assert log[k] == t.log[k] && log[..k] == s.log;
      assert !Follows(log[k], log[..k]);
    }
  }

  /**
   * For any list of bus events in the gap: the opened server is consistent if and only if they leave it
   * no device and, if they have connected one for a while, a connection could be announced before.
   */
  lemma GapRunIsSafeExactly(s: State, es: seq<Event>)
    requires Inv(s) && s.BtIsOpen() && !s.BleIsOpen() && forall i :: 0 <= i < |es| ==> FromBus(es[i])
    ensures var t := Run(StartOpen(s, true), es);
      Inv(StartWith(s, es)) <==> t.dev.None? && (t.log == s.log || MayConnect(s.log))
  {
    hide Run, Inv, InGap, StateSend, StartOpen;
    GapRun(s, es);
    GapEnds(s, Run(StartOpen(s, true), es));
  }

  /** Without an event in the gap it is the one step of the other proofs. */
  lemma StartInOneStep(s: State)
    requires s.BtIsOpen() && !s.BleIsOpen()
    ensures StartWith(s, []) == Step(s, BleStart(true))
  {
  }

  /** Such as the device that connects while the server of a fresh program is opened. */
  lemma StartRaceBreaksConsistency(d: Device)
    ensures var s := StartWith(Step(INIT, BtInit), [DeviceAdded(d, Ble, true)]);
      s.bleOpen && s.status.Idle? && s.dev == Some(d) && !Inv(s)
  {
    RunOne(StartOpen(Step(INIT, BtInit), true), DeviceAdded(d, Ble, true));
  }

  lemma RunOne(s: State, e: Event)
    ensures Run(s, [e]) == Step(s, e)
  {
    assert [e][..0] == [];
  }

  /** The removal of the current device is noticed exactly by an open server of which it is not the audio device too. */
  lemma RemovalIsNoticed(s: State, d: Device)
    requires s.dev == Some(d)
    ensures Step(s, DeviceRemoved(d)).dev == None <==> s.BleIsOpen() && s.defaultDev != Some(d)
    ensures Step(s, DeviceRemoved(d)).dev != None ==> Step(s, DeviceRemoved(d)).dev == s.dev
  {
  }

  /** A removal that arrives while bluetoothd is down is missed: the server keeps the device and stays connected. */
  lemma DownDaemonMissesRemoval(s: State, d: Device)
    requires s.alive && s.bleOpen && s.dev == Some(d) && s.defaultDev != Some(d)
    ensures Step(Step(Step(s, Daemon(false)), DeviceRemoved(d)), Daemon(true)) == s
    ensures Step(s, DeviceRemoved(d)).dev == None
  {
  }

  // ---------- What each event changes ----------

  /** An open server without a device takes the one that connects, or whose service appears, and announces it. */
  lemma ConnectionIsAnnounced(s: State, d: Device, class_: Class)
    requires s.bleOpen && s.alive && s.dev == None && !class_.Sink? && !class_.Source?
    ensures var t := s.(dev := Some(d), status := Connect, log := s.log + [Note(Connect, Some(d), s.cb)]);
      && Step(s, DeviceAdded(d, class_, true)) == t
      && Step(s, DeviceConnected(d, Ble, true)) == t
      && Step(s, ServiceAdded(d, class_)) ==
           if s.services == 0 then t.(services := 1) else s.(services := s.services + 1)
  {
  }

  /** An open server that has a device takes no other, and only counts the services. */
  lemma OneDeviceAtATime(s: State, d: Device, class_: Class, connected: bool)
    requires s.bleOpen && s.alive && s.dev != None && !class_.Sink? && !class_.Source?
    ensures Step(s, DeviceAdded(d, class_, connected)) == s == Step(s, DeviceConnected(d, class_, connected))
    ensures Step(s, ServiceAdded(d, class_)) == s.(services := s.services + 1)
  {
  }

  /** The last service to go, or the device itself, disconnects; a service that is not the last is only counted. */
  lemma DisconnectionIsAnnounced(s: State, d: Device)
    requires s.bleOpen && s.alive && s.dev == Some(d)
    ensures var t := s.(dev := None, services := 0, status := Disconnect,
                        log := s.log + [Note(Disconnect, Some(d), s.cb)]);
      && (s.defaultDev != Some(d) ==> Step(s, DeviceRemoved(d)) == t)
      && Step(s, ServiceRemoved(true)) == if s.services == 1 then t else s.(services := s.services - 1)
    ensures Step(s, ServiceRemoved(false)) == s
    ensures forall x :: x != d && s.defaultDev != Some(x) ==> Step(s, DeviceRemoved(x)) == s
  {
    DisconnectHandlerTells(s, d);
    DisconnectHandlerTells(s.(services := s.services - 1), d);
    hide DisconnectHandler, StateSend;
  }

  lemma DisconnectHandlerTells(s: State, d: Device)
    requires s.bleOpen && s.alive && s.dev == Some(d)
    ensures DisconnectHandler(s) == s.(dev := None, services := 0, status := Disconnect,
                                       log := s.log + [Note(Disconnect, Some(d), s.cb)])
  {
  }

  /** While no server is open, an open client takes the connected device and announces what becomes of it. */
  lemma ClientConnection(s: State, d: Device)
    requires s.clientOpen && s.alive && !s.bleOpen
    ensures s.dev == None ==>
              Step(s, DeviceConnected(d, Ble, true)) ==
                s.(dev := Some(d), clientStatus := Connect,
                   clientLog := s.clientLog + [Note(Connect, Some(d), s.clientCb)])
    ensures s.dev == Some(d) ==>
              Step(s, DeviceConnected(d, Ble, false)) ==
                s.(dev := None, clientStatus := Disconnect,
                   clientLog := s.clientLog + [Note(Disconnect, Some(d), s.clientCb)])
    ensures s.dev != None ==> Step(s, DeviceConnected(d, Ble, true)) == s
    ensures s.dev != Some(d) ==> Step(s, DeviceConnected(d, Ble, false)) == s
  {
  }

  /** What an open server without a device, and one that is closed, do not take for a connection or its end. */
  lemma NoConnection(s: State, d: Device, class_: Class, on: bool)
    requires !class_.Sink? && !class_.Source?
    ensures Step(s, DeviceAdded(d, class_, false)) == s == Step(s, DeviceConnected(d, Other, on))
    ensures s.alive && s.bleOpen ==> Step(s, DeviceConnected(d, Ble, false)) == s
    ensures s.dev == None ==> Step(s, ServiceRemoved(on)) == s
    ensures s.dev == None && s.defaultDev != Some(d) ==> Step(s, DeviceRemoved(d)) == s
    ensures !s.bleOpen ==>
              && Step(s, DeviceAdded(d, class_, on)) == s == Step(s, ServiceAdded(d, class_))
              && Step(s, ServiceRemoved(on)) == s
              && (s.defaultDev != Some(d) ==> Step(s, DeviceRemoved(d)) == s)
  {
  }

  /** The daemon, the initialization and the registrations change one thing each. */
  lemma OneThingEach(s: State, on: bool)
    ensures Step(s, Daemon(on)) == s.(alive := on) && Step(s, BtInit) == s.(btOpen := true)
    ensures Step(s, RegisterCallback(on)) == s.(cb := on)
    ensures Step(s, RegisterClientCallback(on)) == s.(clientCb := on)
  {
  }

  /** Nothing but the audio device changes with bus events while neither server nor client is up. */
  lemma ClosedIgnoresBus(s: State, e: Event)
    requires FromBus(e) && !e.Daemon? && (!s.alive || (!s.bleOpen && !s.clientOpen))
    ensures Step(s, e) == s.(defaultDev := Step(s, e).defaultDev)
  {
    hide Step;
    match e
    case DeviceAdded(_, _, _) => ClosedDevice(s, e);
    case DeviceConnected(_, _, _) => ClosedDevice(s, e);
    case DeviceRemoved(_) => ClosedOther(s, e);
    case ServiceAdded(_, _) => ClosedOther(s, e);
    case ServiceRemoved(_) => ClosedOther(s, e);
  }

  lemma ClosedDevice(s: State, e: Event)
    requires (e.DeviceAdded? || e.DeviceConnected?) && (!s.alive || (!s.bleOpen && !s.clientOpen))
    ensures Step(s, e) == s.(defaultDev := Step(s, e).defaultDev)
  {
    hide ConnectedHandler, ClientConnectedHandler;
    HandlersNeedAnOpenSide(s);
  }

  lemma ClosedOther(s: State, e: Event)
    requires (e.DeviceRemoved? || e.ServiceAdded? || e.ServiceRemoved?) && (!s.alive || (!s.bleOpen && !s.clientOpen))
    ensures Step(s, e) == s.(defaultDev := Step(s, e).defaultDev)
  {
    hide DisconnectHandler, StateSend;
    HandlersNeedAnOpenSide(s);
  }

  lemma HandlersNeedAnOpenSide(s: State)
    requires !s.alive || (!s.bleOpen && !s.clientOpen)
    ensures DisconnectHandler(s) == s
    ensures forall d :: ConnectedHandler(s, d) == s
    ensures forall d, connected :: ClientConnectedHandler(s, d, connected) == s
  {
  }

  /** The audio device: the first to be connected, until it is disconnected or removed. */
  lemma AudioDevice(s: State, d: Device, class_: Class)
    requires class_.Sink? || class_.Source?
    ensures var t := if s.defaultDev == None then s.(defaultDev := Some(d)) else s;
      Step(s, DeviceAdded(d, class_, true)) == t == Step(s, DeviceConnected(d, class_, true))
    ensures Step(s, DeviceAdded(d, class_, false)) == s == Step(s, ServiceAdded(d, class_))
    ensures Step(s, DeviceConnected(d, class_, false)) ==
              if s.defaultDev == Some(d) then s.(defaultDev := None) else s
    ensures s.defaultDev == Some(d) ==> Step(s, DeviceRemoved(d)) == s.(defaultDev := None)
    ensures forall c: Class :: !c.Sink? && !c.Source? ==>
              && Step(s, DeviceAdded(d, c, true)).defaultDev == s.defaultDev
              && Step(s, DeviceConnected(d, c, true)).defaultDev == s.defaultDev
              && Step(s, ServiceAdded(d, c)).defaultDev == s.defaultDev
  {
    HandlersKeepAudio(s, d);
    hide ConnectedHandler, ClientConnectedHandler, DisconnectHandler;
  }

  lemma HandlersKeepAudio(s: State, d: Device)
    ensures ConnectedHandler(s, d).defaultDev == s.defaultDev
    ensures ClientConnectedHandler(s, d, true).defaultDev == s.defaultDev
  {
  }

  /** Opening the server closes the client, forgets the device and its services, and announces the idle state. */
  lemma ServerOpens(s: State)
    requires s.alive && s.btOpen && !s.bleOpen
    ensures var t := s.(dev := None, services := 0, clientOpen := false,
                        clientStatus := if s.clientOpen then Idle else s.clientStatus,
                        clientCb := s.clientCb && !s.clientOpen);
      && Step(s, BleStart(true)) == t.(bleOpen := true, status := Idle, log := s.log + [Note(Idle, None, s.cb)])
      && Step(s, BleStart(false)) == t
  {
  }

  /** Opening the client stops the server likewise. */
  lemma ClientOpens(s: State)
    requires s.alive && s.btOpen && !s.clientOpen
    ensures Step(s, ClientOpen) ==
              s.(dev := None, services := 0, bleOpen := false, cb := s.cb && !s.bleOpen, clientOpen := true,
                 clientStatus := Idle, clientLog := s.clientLog + [Note(Idle, None, s.clientCb)])
  {
  }

  /** Closing announces nothing, keeps the device and takes the callback away; the rest is refused. */
  lemma ClosesQuietly(s: State, advertises: bool)
    ensures Step(s, BleStop) == if s.alive && s.bleOpen then s.(bleOpen := false, cb := false) else s
    ensures Step(s, ClientClose) ==
              if s.alive && s.clientOpen then s.(clientOpen := false, clientCb := false, clientStatus := Idle) else s
    ensures Step(s, BtDeinit) ==
              if s.alive && s.btOpen then
                Step(Step(s, BleStop), ClientClose).(btOpen := false)
              else s
    ensures !s.alive || !s.btOpen || s.bleOpen ==> Step(s, BleStart(advertises)) == s
    ensures !s.alive || !s.btOpen || s.clientOpen ==> Step(s, ClientOpen) == s
  {
  }

  // ---------- Counting services ----------

  /** Services that came less services under the device that went. */
  ghost function Net(es: seq<Event>): int {
    if es == [] then 0
    else
      Net(es[..|es| - 1]) +
      match es[|es| - 1]
      case ServiceAdded(_, class_) => if class_.Sink? || class_.Source? then 0 else 1
      case ServiceRemoved(underDev) => if underDev then -1 else 0
      case _ => 0
  }

  /** The events end with the removal of a service that leaves none. */
  ghost predicate LastGoes(services: int, es: seq<Event>) {
    es != [] && es[|es| - 1] == ServiceRemoved(true) && services + Net(es) == 0
  }

  /** No removal on the way leaves none. */
  ghost predicate SomeStay(services: int, es: seq<Event>) {
    forall j :: 0 < j <= |es| ==> !LastGoes(services, es[..j])
  }

  lemma SomeStayBefore(services: int, es: seq<Event>)
    requires es != [] && SomeStay(services, es)
    ensures var front, e := es[..|es| - 1], es[|es| - 1];
      SomeStay(services, front) && es == front + [e] && !LastGoes(services + Net(front), [e])
      && Net(es) == Net(front) + Net([e])
  {
    var front, e := es[..|es| - 1], es[|es| - 1];
    assert forall j :: 0 < j <= |front| ==> front[..j] == es[..j];
    assert es[..|es|] == es == front + [e];
    NetAppend(front, e);
  }

  /** The server is open and has the device. */
  ghost predicate Serves(s: State, d: Device) {
    s.bleOpen && s.alive && s.dev == Some(d)
  }

  /** Bus events of a running daemon other than the removal of the device itself. */
  ghost predicate Around(d: Device, es: seq<Event>) {
    forall i :: 0 <= i < |es| ==> FromBus(es[i]) && !es[i].Daemon? && es[i] != DeviceRemoved(d)
  }

  lemma ServingStep(s: State, d: Device, e: Event)
    requires Serves(s, d) && Around(d, [e]) && !LastGoes(s.services, [e])
    ensures Step(s, e) == s.(defaultDev := Step(s, e).defaultDev, services := s.services + Net([e]))
  {
    hide Net, ConnectedHandler, ClientConnectedHandler, DisconnectHandler, StateSend, Step;
    NetOne(e);
    HandlersHaveADevice(s, d);
    assert [e][0] == e && [e][|[e]| - 1] == e;
    match e
    case DeviceAdded(_, _, _) => ServingOther(s, d, e);
    case DeviceConnected(_, _, _) => ServingOther(s, d, e);
    case DeviceRemoved(_) => ServingOther(s, d, e);
    case ServiceAdded(x, class_) => ServingService(s, d, e);
    case ServiceRemoved(_) => DisconnectionIsAnnounced(s, d);
  }

  lemma ServingOther(s: State, d: Device, e: Event)
    requires Serves(s, d) && (e.DeviceAdded? || e.DeviceConnected? || (e.DeviceRemoved? && e.d != d))
    ensures Step(s, e) == s.(defaultDev := Step(s, e).defaultDev)
  {
    hide ConnectedHandler, ClientConnectedHandler, DisconnectHandler, StateSend;
    HandlersHaveADevice(s, d);
  }

  lemma ServingService(s: State, d: Device, e: Event)
    requires Serves(s, d) && e.ServiceAdded?
    ensures Step(s, e) == if e.class_.Sink? || e.class_.Source? then s else s.(services := s.services + 1)
  {
  }

  lemma NetOne(e: Event)
    ensures Net([e]) == match e
                        case ServiceAdded(_, class_) => if class_.Sink? || class_.Source? then 0 else 1
                        case ServiceRemoved(underDev) => if underDev then -1 else 0
                        case _ => 0
  {
    assert [e][..0] == [] && Net([]) == 0;
  }

  lemma HandlersHaveADevice(s: State, d: Device)
    requires Serves(s, d)
    ensures forall x :: ConnectedHandler(s, x) == s
  {
  }

  lemma NetAppend(front: seq<Event>, e: Event)
    ensures Net(front + [e]) == Net(front) + Net([e])
  {
    assert (front + [e])[..|front|] == front && [e][..0] == [];
  }

  /** As long as the last service has not gone, nothing but the count changes, and that by the net. */
  lemma {:induction false} ServesOn(s: State, d: Device, es: seq<Event>)
    requires Serves(s, d) && Around(d, es)
    requires SomeStay(s.services, es)
    ensures var t := Run(s, es);
      t == s.(defaultDev := t.defaultDev, services := s.services + Net(es))
  {
    hide Step, Net, FromBus, LastGoes, SomeStay;
    if es != [] {
      var front, e := es[..|es| - 1], es[|es| - 1];
      SomeStayBefore(s.services, es);
      ServesOn(s, d, front);
      assert [e][0] == e;
      ServingStep(Run(s, front), d, e);
    } else {
      assert Net(es) == 0 by { NetOfNothing(); }
    }
  }

  lemma NetOfNothing()
    ensures Net([]) == 0
  {
  }

  /** When as many services have gone as there were, the server announces the disconnection of the device. */
  lemma LastServiceDisconnects(s: State, d: Device, es: seq<Event>)
    requires Serves(s, d) && Around(d, es)
    requires LastGoes(s.services, es) && SomeStay(s.services, es[..|es| - 1])
    ensures var t := Run(s, es);
      t == s.(defaultDev := t.defaultDev, dev := None, services := 0, status := Disconnect,
              log := s.log + [Note(Disconnect, Some(d), s.cb)])
  {
    hide Step, Net, Around, SomeStay;
    var front := es[..|es| - 1];
    BeforeTheLast(s.services, d, es);
    ServesOn(s, d, front);
    DisconnectionIsAnnounced(Run(s, front), d);
  }

  lemma BeforeTheLast(services: int, d: Device, es: seq<Event>)
    requires LastGoes(services, es) && Around(d, es)
    ensures var front := es[..|es| - 1];
      Around(d, front) && es != [] && es[|es| - 1] == ServiceRemoved(true) && services + Net(front) == 1
  {
    hide Net;
    var front := es[..|es| - 1];
    assert es == front + [ServiceRemoved(true)];
    NetAppend(front, ServiceRemoved(true));
    NetOne(ServiceRemoved(true));
  }

  /** An open server without a device counts no services, over every run. */
  lemma {:induction false} NoStrayServices(es: seq<Event>)
    ensures Run(INIT, es).bleOpen && Run(INIT, es).dev == None ==> Run(INIT, es).services == 0
  {
    hide Step;
    if es != [] {
      NoStrayServices(es[..|es| - 1]);
      NoStrayStep(Run(INIT, es[..|es| - 1]), es[|es| - 1]);
    }
  }

  ghost predicate NoStray(s: State) {
    s.bleOpen && s.dev == None ==> s.services == 0
  }

  lemma NoStrayStep(s: State, e: Event)
    requires NoStray(s)
    ensures NoStray(Step(s, e))
  {
    hide Step, NoStray;
    match e
    case DeviceAdded(d, _, _) => NoStrayDevice(s, d, e);
    case DeviceConnected(d, _, _) => NoStrayDevice(s, d, e);
    case DeviceRemoved(_) => NoStrayRemoved(s, e);
    case ServiceRemoved(_) => NoStrayRemoved(s, e);
    case _ => NoStrayOther(s, e);
  }

  lemma NoStrayDevice(s: State, d: Device, e: Event)
    requires NoStray(s) && (e.DeviceAdded? || e.DeviceConnected?) && e.d == d
    ensures NoStray(Step(s, e))
  {
    hide ConnectedHandler, ClientConnectedHandler;
    NoStrayHandlers(s, d);
  }

  lemma NoStrayRemoved(s: State, e: Event)
    requires NoStray(s) && (e.DeviceRemoved? || e.ServiceRemoved?)
    ensures NoStray(Step(s, e))
  {
  }

  lemma NoStrayOther(s: State, e: Event)
    requires NoStray(s)
    requires !e.DeviceAdded? && !e.DeviceConnected? && !e.DeviceRemoved? && !e.ServiceRemoved?
    ensures NoStray(Step(s, e))
  {
  }

  lemma NoStrayHandlers(s: State, d: Device)
    requires NoStray(s)
    ensures NoStray(ConnectedHandler(s, d))
    ensures !s.BleIsOpen() ==> forall on :: NoStray(ClientConnectedHandler(s, d, on))
  {
  }

  /**
   * At any time in any run: a service that connects its device to the open server is announced, and when
   * as many services under the device have gone as have come since, so is the disconnection.
   */
  lemma ServicesComeAndGo(before: seq<Event>, d: Device, class_: Class, es: seq<Event>)
    requires var s := Run(INIT, before); s.bleOpen && s.alive && s.dev == None
    requires !class_.Sink? && !class_.Source? && Around(d, es)
    requires LastGoes(1, es) && SomeStay(1, es[..|es| - 1])
    ensures var s, t := Run(INIT, before), Run(Run(INIT, before), [ServiceAdded(d, class_)] + es);
      && t.dev == None && t.services == 0 && t.status == Disconnect
      && t.log == s.log + [Note(Connect, Some(d), s.cb), Note(Disconnect, Some(d), s.cb)]
  {
    hide Step, Run, Net, FromBus, LastGoes, Around;
    var s, e := Run(INIT, before), ServiceAdded(d, class_);
    NoStrayServices(before);
    ConnectionIsAnnounced(s, d, class_);
    RunConcat(s, [e], es);
    RunOne(s, e);
    LastServiceDisconnects(Step(s, e), d, es);
  }

  // ---------- The globals and their handlers ----------

  class BleControl {
    var alive: bool
    var isBtOpen: bool
    var isBleOpen: bool
    var isBleClientOpen: bool
    var bleDev: Option<Device>
    var defaultDev: Option<Device>
    var bleServiceCnt: int
    var bleState: Status
    var clientState: Status
    var bleStateCb: bool
    var clientStateCb: bool
    ghost var log: seq<Note>
    ghost var clientLog: seq<Note>

    ghost function View(): State
      reads this
    {
      State(alive, isBtOpen, isBleOpen, isBleClientOpen, bleDev, defaultDev, bleServiceCnt, bleState, clientState,
            bleStateCb, clientStateCb, log, clientLog)
    }

    constructor ()
      ensures View() == INIT
    {
      alive, isBtOpen, isBleOpen, isBleClientOpen := true, false, false, false;
      bleDev, defaultDev, bleServiceCnt := None, None, 0;
      bleState, clientState, bleStateCb, clientStateCb := Idle, Idle, false, false;
      log, clientLog := [], [];
    }

    predicate BtIsOpen()
      reads this
    {
      isBtOpen && alive
    }

    predicate BleIsOpen()
      reads this
    {
      isBleOpen && alive
    }

    predicate ClientIsOpen()
      reads this
    {
      isBleClientOpen && alive
    }

    /** `ble_state_send`: what the callback receives, if it is called. */
    method BleStateSend(status: Status) returns (sent: Option<(Option<Device>, Status)>)
      modifies `bleState, `log
      ensures View() == StateSend(old(View()), status)
      ensures sent == if bleStateCb && BleIsOpen() then Some((bleDev, status)) else None
    {
      bleState := status;
      log := log + [Note(status, bleDev, bleStateCb && BleIsOpen())];
      if !bleStateCb {
        return None;
      }
      if !BleIsOpen() {
        return None;
      }
      return Some((bleDev, status));
    }

    /** `gatt_client_state_send` */
    method GattClientStateSend(status: Status)
      modifies `clientState, `clientLog
      ensures View() == ClientStateSend(old(View()), status)
    {
      clientState := status;
      clientLog := clientLog + [Note(status, bleDev, clientStateCb)];
    }

    method BleClean()
      modifies `bleDev, `bleServiceCnt
      ensures View() == Clean(old(View()))
    {
      bleServiceCnt := 0;
      bleDev := None;
    }

    method BleConnectedHandler(proxy: Device)
      modifies this
      ensures View() == ConnectedHandler(old(View()), proxy)
    {
      if !BleIsOpen() || bleDev.Some? {
        return;
      }
      bleDev := Some(proxy);
      var _ := BleStateSend(Connect);
    }

    method BleDisconnectHandler()
      modifies this
      ensures View() == DisconnectHandler(old(View()))
    {
      if !BleIsOpen() || bleDev.None? {
        return;
      }
      var _ := BleStateSend(Disconnect);
      bleDev := None;
      bleServiceCnt := 0;
    }

    method BleClientConnectedHandler(proxy: Device, connected: bool)
      modifies this
      ensures View() == ClientConnectedHandler(old(View()), proxy, connected)
    {
      if !ClientIsOpen() {
        return;
      }
      if connected {
        if bleDev.Some? {
          return;
        }
        bleDev := Some(proxy);
        GattClientStateSend(Connect);
      } else {
        if bleDev.None? {
          return;
        }
        if bleDev != Some(proxy) {
          return;
        }
        GattClientStateSend(Disconnect);
        bleDev := None;
      }
    }

    method AddDevice(proxy: Device, class_: Class, connected: bool)
      modifies this
      ensures View() == Step(old(View()), DeviceAdded(proxy, class_, connected))
    {
      if class_.Sink? || class_.Source? {
        if defaultDev.Some? {
          return;
        }
        if connected {
          defaultDev := Some(proxy);
        }
      } else {
        if connected {
          BleConnectedHandler(proxy);
        }
      }
    }

    method RemoveDevice(proxy: Device)
      modifies this
      ensures View() == Step(old(View()), DeviceRemoved(proxy))
    {
      if defaultDev == Some(proxy) {
        defaultDev := None;
      } else if bleDev == Some(proxy) {
        BleDisconnectHandler();
      }
    }

    method DeviceConnectedHandler(proxy: Device, class_: Class, connected: bool)
      modifies this
      ensures View() == Step(old(View()), DeviceConnected(proxy, class_, connected))
    {
      if class_.Source? || class_.Sink? {
        if connected && defaultDev.None? {
          defaultDev := Some(proxy);
        } else if !connected && defaultDev == Some(proxy) {
          defaultDev := None;
        }
      } else if class_.Ble? {
        if BleIsOpen() {
          if connected {
            BleConnectedHandler(proxy);
            return;
          }
        } else {
          BleClientConnectedHandler(proxy, connected);
        }
      }
    }

    method LeProxyAdded(proxy: Device, class_: Class)
      modifies this
      ensures View() == Step(old(View()), ServiceAdded(proxy, class_))
    {
      if !BleIsOpen() {
        return;
      }
      if class_.Sink? || class_.Source? {
        return;
      }
      if bleServiceCnt == 0 {
        if bleDev.None? {
          bleDev := Some(proxy);
          var _ := BleStateSend(Connect);
        }
      }
      bleServiceCnt := bleServiceCnt + 1;
    }

    /** `underDev` says whether the path of the service starts with the path of `ble_dev`. */
    method LeProxyRemoved(underDev: bool)
      modifies this
      ensures View() == Step(old(View()), ServiceRemoved(underDev))
    {
      if !BleIsOpen() {
        return;
      }
      if bleDev.None? {
        return;
      }
      if !underDev {
        return;
      }
      bleServiceCnt := bleServiceCnt - 1;
      if bleServiceCnt == 0 {
        BleDisconnectHandler();
        bleDev := None;
      }
    }

    method BtHalBleStop() returns (ret: int)
      modifies this
      ensures View() == Stop(old(View()))
      ensures ret == if old(BleIsOpen()) then 0 else -1
    {
      if !BleIsOpen() {
        return -1;
      }
      bleStateCb := false;
      isBleOpen := false;
      return 0;
    }

    method BtHalBleClientClose()
      modifies this
      ensures View() == CloseClient(old(View()))
    {
      if !ClientIsOpen() {
        return;
      }
      clientState := Idle;
      clientStateCb := false;
      isBleClientOpen := false;
    }

    /** `rk_ble_start`; `advertises` is the success of `ble_enable_adv`. */
    method RkBleStart(advertises: bool) returns (ret: int)
      modifies this
      ensures View() == Step(old(View()), BleStart(advertises))
      ensures ret == if old(BtIsOpen() && !BleIsOpen()) && advertises then 0 else -1
    {
      if !BtIsOpen() {
        return -1;
      }
      if BleIsOpen() {
        return -1;
      }
      if ClientIsOpen() {
        BtHalBleClientClose();
      }
      BleClean();
      if !advertises {
        isBleOpen := false;
        return -1;
      }
      isBleOpen := true;
      var _ := BleStateSend(Idle);
      return 0;
    }

    method RkBleClientOpen() returns (ret: int)
      modifies this
      ensures View() == Step(old(View()), ClientOpen)
      ensures ret == if old(BtIsOpen() && !ClientIsOpen()) then 0 else -1
    {
      if !BtIsOpen() {
        return -1;
      }
      if ClientIsOpen() {
        return -1;
      }
      if BleIsOpen() {
        var _ := BtHalBleStop();
      }
      BleClean();
      isBleClientOpen := true;
      GattClientStateSend(Idle);
      return 0;
    }

    /** The Bluetooth Low Energy part of `rk_bt_deinit` */
    method RkBtDeinit() returns (ret: int)
      modifies this
      ensures View() == Step(old(View()), BtDeinit)
      ensures ret == if old(BtIsOpen()) then 0 else -1
    {
      if !BtIsOpen() {
        return -1;
      }
      var _ := BtHalBleStop();
      BtHalBleClientClose();
      isBtOpen := false;
      return 0;
    }
  }
}
