/** The station's management controller: nine states, six timers with tickets, a queue of
    scheduled events and the scanning controller.  Every entry point is shown to be one step of
    StaSpec's machine, and exactly one timer, of the kind the state calls for, is ever pending. */
module StaController {
  import opened Addresses
  import opened StaSpec
  import opened ScanningController

  datatype State =
    | NotAssociated
    | ChannelScanning
    | WaitingForAuthentication
    | WaitingForAssociationResponse
    | WaitingForReassociationResponse
    | Associated
    | StartingUpBackgroundChannelScanning
    | BackgroundChannelScanning
    | EndingBackgroundChannelScanning

  datatype EventKind =
    | InitializationEvent
    | ChannelScanTimeoutEvent
    | BackgroundScanStartEvent
    | AuthenticationTimeoutEvent
    | AssociateFailureEvent
    | CheckLinkStatusEvent

  /** An event in the simulation engine's queue. */
  datatype Scheduled = Scheduled(kind: EventKind, when: int)

  /** The one kind of event that may be pending in a state. */
  function KindOf(s: State): EventKind {
    match s
    case NotAssociated => InitializationEvent
    case ChannelScanning => ChannelScanTimeoutEvent
    case WaitingForAuthentication => AuthenticationTimeoutEvent
    case WaitingForAssociationResponse => AssociateFailureEvent
    case Associated => CheckLinkStatusEvent
    case _ => BackgroundScanStartEvent
  }

  /** The engine's queue, and the tickets that are not null, each with the time of its event. */
  datatype Engine = Engine(pending: multiset<Scheduled>, tickets: map<EventKind, int>) {
    function Schedule(kind: EventKind, when: int): (e: Engine)
      ensures this == Quiet() ==> e == Only(kind, when)
    {
      Engine(pending + multiset{Scheduled(kind, when)}, tickets[kind := when])
    }

    /** An event nobody can cancel. */
    function ScheduleWithoutTicket(kind: EventKind, when: int): (e: Engine)
      ensures this == Quiet() ==> e == Untracked(kind, when)
    {
      this.(pending := pending + multiset{Scheduled(kind, when)})
    }

    function Cancel(kind: EventKind): (e: Engine)
      requires kind in tickets && Scheduled(kind, tickets[kind]) in pending
      ensures this == Only(kind, tickets[kind]) ==> e == Quiet()
    {
      Engine(pending - multiset{Scheduled(kind, tickets[kind])}, tickets - {kind})
    }

    /** Takes a due event out of the queue; its ticket is the handler's to clear. */
    function Fire(x: Scheduled): (e: Engine)
      requires x in pending
      ensures pending == multiset{x} ==> e == this.(pending := multiset{})
    {
      this.(pending := pending - multiset{x})
    }

    function Clear(kind: EventKind): (e: Engine)
      ensures pending == multiset{} && tickets.Keys <= {kind} ==> e == Quiet()
    {
      this.(tickets := tickets - {kind})
    }
  }

  function Quiet(): Engine {
    Engine(multiset{}, map[])
  }

  function Only(kind: EventKind, when: int): Engine {
    Engine(multiset{Scheduled(kind, when)}, map[kind := when])
  }

  function Untracked(kind: EventKind, when: int): Engine {
    Engine(multiset{Scheduled(kind, when)}, map[])
  }

  predicate HasAccessPoint(s: State) {
    s.WaitingForAuthentication? || s.WaitingForAssociationResponse? || s.Associated?
  }

  // ---------------------------------------------------------------------------------
  // The two objects' fields as one value

  datatype Snapshot = Snapshot(
    state: State, currentAp: MacAddress, lastAp: MacAddress, authenticated: bool, associationId: nat,
    background: Time, engine: Engine, tuned: seq<nat>, due: int,
    scanStart: Time, linkCheck: Time, nextChannel: nat, current: MacAddress, candidate: MacAddress,
    leave: bool, heard: Heard)

  ghost function PhaseOf(v: Snapshot): Phase {
    match v.state
    case ChannelScanning => Scanning(v.nextChannel)
    case WaitingForAuthentication => Authenticating(v.currentAp)
    case WaitingForAssociationResponse => Associating(v.currentAp)
    case Associated => Online(v.currentAp)
    case _ => Idle
  }

  ghost function AbsOf(v: Snapshot): Sta {
    Sta(PhaseOf(v), v.due, v.lastAp, v.heard, v.tuned, v.associationId)
  }

  /** The two objects agree on the current access point, and no candidate is pending. */
  ghost predicate Agree(v: Snapshot) {
    && v.current == (if v.state == Associated then v.currentAp else INVALID)
    && v.candidate == INVALID && !v.leave
    && (v.state != NotAssociated ==> v.scanStart == Infinite)
    && v.background == Infinite
  }

  /** Exactly one event is pending, of the kind the state calls for. */
  ghost predicate OneTimer(v: Snapshot) {
    || v.engine == Only(KindOf(v.state), v.due)
    || (v.state == NotAssociated && v.engine == Untracked(InitializationEvent, v.due))
  }

  ghost predicate Consistent(v: Snapshot) {
    && Agree(v) && Inv(AbsOf(v))
    && (v.state.NotAssociated? || v.state.ChannelScanning? || HasAccessPoint(v.state))
    && (v.authenticated <==> v.state.WaitingForAssociationResponse? || v.state.Associated?)
    && (v.currentAp != INVALID <==> HasAccessPoint(v.state))
  }

  ghost predicate Sound(v: Snapshot) {
    Consistent(v) && OneTimer(v)
  }

  // ---------------------------------------------------------------------------------
  // What the controller's methods do to the fields

  function Listening(v: Snapshot, channel: nat, until: int): Snapshot {
    v.(tuned := [channel], engine := v.engine.Schedule(ChannelScanTimeoutEvent, until), due := until)
  }

  function ScanStarted(cfg: Config, v: Snapshot, now: int): Snapshot {
    Listening(v.(state := ChannelScanning, scanStart := Infinite, nextChannel := 1,
                 engine := v.engine.Clear(InitializationEvent)), 0, now + cfg.scanTimeout)
  }

  function AuthenticationStarted(cfg: Config, v: Snapshot, ap: MacAddress, now: int): Snapshot {
    v.(state := WaitingForAuthentication, currentAp := ap,
       engine := v.engine.Schedule(AuthenticationTimeoutEvent, now + cfg.authenticationTimeout),
       due := now + cfg.authenticationTimeout)
  }

  /** The scanning controller forgets the access point and any candidate. */
  function Forgotten(cfg: Config, v: Snapshot, now: int): Snapshot {
    v.(current := INVALID, candidate := INVALID, leave := false, linkCheck := At(now + cfg.linkCheckInterval))
  }

  function Switched(cfg: Config, v: Snapshot, channels: seq<nat>, ap: MacAddress, now: int): Snapshot {
    var left := Forgotten(cfg, v, now).(lastAp := v.currentAp, authenticated := false, tuned := channels);
    AuthenticationStarted(cfg, left, ap, now)
  }

  /** The access point is given up; the next scan is scheduled with an event nobody can cancel. */
  function Dropped(cfg: Config, v: Snapshot, e: Engine, when: int, now: int): Snapshot {
    Forgotten(cfg, v, now).(state := NotAssociated, authenticated := false, lastAp := v.currentAp,
      currentAp := INVALID, engine := e.ScheduleWithoutTicket(InitializationEvent, when), due := when)
  }

  /** The timer of the state has just fired: nothing is pending, its ticket may be uncleared. */
  ghost predicate Ringing(v: Snapshot) {
    Consistent(v) && v.engine.pending == multiset{} && v.engine.tickets.Keys <= {KindOf(v.state)}
  }

  lemma {:induction false} ScanStartedSound(cfg: Config, v: Snapshot, now: int, v': Snapshot)
    requires Ringing(v) && v.state == NotAssociated && v' == ScanStarted(cfg, v, now)
    ensures Sound(v') && AbsOf(v') == StartScan(cfg, AbsOf(v), now)
  {
  }

  lemma {:induction false} SwitchedSound(cfg: Config, v: Snapshot, channels: seq<nat>, ap: MacAddress, now: int,
                                         v': Snapshot)
    requires Inv(AbsOf(v)) && v.engine == Quiet() && v.scanStart == Infinite && v.background == Infinite
    requires ap != INVALID && v' == Switched(cfg, v, channels, ap, now)
    ensures Sound(v')
    ensures AbsOf(v') == AbsOf(v).(phase := Authenticating(ap), due := now + cfg.authenticationTimeout,
                                   lastAp := v.currentAp, tuned := channels)
  {
  }

  lemma {:induction false} DroppedSound(cfg: Config, v: Snapshot, when: int, now: int, v': Snapshot)
    requires Inv(AbsOf(v)) && v.state == Associated && v.background == Infinite
    requires v' == Dropped(cfg, v, Quiet(), when, now)
    ensures Sound(v') && AbsOf(v') == LeaveOnline(AbsOf(v), when)
  {
  }

  /** The next channel of a scan, with the timer set again. */
  function ScanStepped(cfg: Config, v: Snapshot, now: int): Snapshot {
    Listening(v.(nextChannel := v.nextChannel + 1, engine := v.engine.Clear(ChannelScanTimeoutEvent)),
              v.nextChannel, now + cfg.scanTimeout)
  }

  lemma {:induction false} ScanSteppedSound(cfg: Config, v: Snapshot, now: int, v': Snapshot)
    requires Ringing(v) && v.state == ChannelScanning && v.nextChannel < cfg.numberOfChannels
    requires v' == ScanStepped(cfg, v, now)
    ensures Sound(v') && AbsOf(v') == AfterTimer(cfg, AbsOf(v), now)
  {
  }

  /** The end of a scan, whatever was chosen. */
  lemma {:induction false} ScanOverSound(cfg: Config, v: Snapshot, now: int, w: Snapshot, chosen: MacAddress,
                                         v': Snapshot)
    requires Ringing(v) && v.state == ChannelScanning && v.nextChannel >= cfg.numberOfChannels
    requires chosen == Chosen(cfg, v.heard)
    requires w == v.(engine := v.engine.Clear(ChannelScanTimeoutEvent), candidate := chosen)
    requires v' == if chosen == INVALID then ScanStarted(cfg, w, now)
                   else Switched(cfg, w, v.heard[chosen].channels, chosen, now)
    ensures Sound(v') && AbsOf(v') == AfterTimer(cfg, AbsOf(v), now)
  {
    if chosen == INVALID {
      ScanStartedSound(cfg, w.(state := NotAssociated), now, v');
    } else {
      SwitchedSound(cfg, w, v.heard[chosen].channels, chosen, now, v');
    }
  }

  /** The link still stands and the next check is scheduled. */
  function LinkKept(cfg: Config, v: Snapshot, now: int): Snapshot {
    v.(linkCheck := At(now + cfg.linkCheckInterval), due := now + cfg.linkCheckInterval,
       engine := v.engine.Clear(CheckLinkStatusEvent).Schedule(CheckLinkStatusEvent, now + cfg.linkCheckInterval))
  }

  lemma {:induction false} LinkKeptSound(cfg: Config, v: Snapshot, now: int, v': Snapshot)
    requires Ringing(v) && v.state == Associated && !LinkLost(cfg, AbsOf(v), now)
    requires v' == LinkKept(cfg, v, now)
    ensures Sound(v') && AbsOf(v') == AfterTimer(cfg, AbsOf(v), now)
  {
  }

  /** What a link check leaves the scanning controller with. */
  function LinkChecked(cfg: Config, v: Snapshot, leave: bool, now: int): Snapshot {
    v.(engine := v.engine.Clear(CheckLinkStatusEvent), leave := leave, linkCheck := At(now + cfg.linkCheckInterval))
  }

  lemma {:induction false} LinkLostSound(cfg: Config, v: Snapshot, now: int, w: Snapshot, v': Snapshot)
    requires Ringing(v) && v.state == Associated && LinkLost(cfg, AbsOf(v), now)
    requires w == LinkChecked(cfg, v, true, now)
    requires v' == Dropped(cfg, w, Unchecked(w.engine), now + cfg.scanningStartDelay, now)
    ensures Sound(v') && AbsOf(v') == AfterTimer(cfg, AbsOf(v), now)
  {
    DroppedSound(cfg, w, now + cfg.scanningStartDelay, now, v');
  }

  /** The engine once the link check is cancelled, which it is if it has a ticket. */
  function Unchecked(e: Engine): Engine
    requires CheckLinkStatusEvent in e.tickets ==>
               Scheduled(CheckLinkStatusEvent, e.tickets[CheckLinkStatusEvent]) in e.pending
  {
    if CheckLinkStatusEvent in e.tickets then e.Cancel(CheckLinkStatusEvent) else e
  }

  function AssociationRequested(cfg: Config, v: Snapshot, now: int): Snapshot
    requires v.engine == Only(AuthenticationTimeoutEvent, v.due)
  {
    v.(authenticated := true, state := WaitingForAssociationResponse,
       engine := v.engine.Cancel(AuthenticationTimeoutEvent)
                         .Schedule(AssociateFailureEvent, now + cfg.associateFailureTimeout),
       due := now + cfg.associateFailureTimeout)
  }

  lemma {:induction false} AssociationRequestedSound(cfg: Config, v: Snapshot, now: int, v': Snapshot)
    requires Sound(v) && v.state == WaitingForAuthentication && v' == AssociationRequested(cfg, v, now)
    ensures Sound(v') && AbsOf(v') == Next(cfg, AbsOf(v), now, AuthenticationFrame)
  {
  }

  function Accepted(cfg: Config, v: Snapshot, id: nat, now: int): Snapshot
    requires v.engine == Only(AssociateFailureEvent, v.due)
  {
    v.(state := Associated, associationId := id, current := v.currentAp, candidate := INVALID, leave := false,
       linkCheck := At(now + cfg.linkCheckInterval), due := now + cfg.linkCheckInterval,
       engine := v.engine.Cancel(AssociateFailureEvent).Schedule(CheckLinkStatusEvent, now + cfg.linkCheckInterval))
  }

  lemma {:induction false} AcceptedSound(cfg: Config, v: Snapshot, id: nat, now: int, v': Snapshot)
    requires Sound(v) && v.state == WaitingForAssociationResponse && v' == Accepted(cfg, v, id, now)
    ensures Sound(v') && AbsOf(v') == Next(cfg, AbsOf(v), now, AssociationResponse(v.currentAp, id))
  {
  }

  /** A beacon that leaves the association as it is. */
  lemma {:induction false} HeardSound(cfg: Config, v: Snapshot, now: int, e: Event, v': Snapshot)
    requires Sound(v) && e.Beacon? && e.ssidMatches && Possible(e) && !BeaconTooWeak(cfg, AbsOf(v), e)
    requires v' == v.(heard := Hear(cfg, v.heard, e.from, e.channels, e.rssi, now))
    ensures Sound(v') && AbsOf(v') == Next(cfg, AbsOf(v), now, e)
  {
  }

  /** A beacon that makes the station leave. */
  lemma {:induction false} TooWeakSound(cfg: Config, v: Snapshot, now: int, e: Event, w: Snapshot, v': Snapshot)
    requires Sound(v) && e.Beacon? && e.ssidMatches && Possible(e) && BeaconTooWeak(cfg, AbsOf(v), e)
    requires w == v.(heard := Hear(cfg, v.heard, e.from, e.channels, e.rssi, now), leave := true)
    requires v' == Dropped(cfg, w, Quiet(), now + cfg.scanningStartDelay, now)
    ensures Sound(v') && AbsOf(v') == Next(cfg, AbsOf(v), now, e)
  {
    DroppedSound(cfg, w, now + cfg.scanningStartDelay, now, v');
  }

  // ---------------------------------------------------------------------------------

  class StaManagementController {
    const cfg: Config
    const scanner: ChannelScanningController
    var state: State
    var currentApAddress: MacAddress
    var lastApAddress: MacAddress
    var isAuthenticated: bool
    var associationId: nat
    var backgroundScanningEventTime: Time
    /** The simulation engine and the radio's channels, both reached through other objects. */
    var engine: Engine
    var tuned: seq<nat>
    ghost var actions: seq<Action>
    ghost var due: int

    ghost function View(): Snapshot
      reads this, scanner
    {
      Snapshot(state, currentApAddress, lastApAddress, isAuthenticated, associationId,
        backgroundScanningEventTime, engine, tuned, due,
        scanner.nextScanStartTime, scanner.nextLinkCheckTime, scanner.nextScanChannelId,
        scanner.currentAccessPointMacAddress, scanner.newAccessPointMacAddress,
        scanner.shouldDisassociateFromCurrentAp, scanner.receivedBeaconInformation)
    }

    ghost predicate Built()
      reads scanner
    {
      cfg.numberOfChannels >= 1 && scanner.cfg == cfg && scanner.Valid()
    }

    ghost predicate Valid()
      reads this, scanner
    {
      Built() && Sound(View())
    }

    constructor (cfg: Config, scanStart: int)
      requires cfg.numberOfChannels >= 1
      ensures Valid() && fresh(this) && fresh(scanner) && this.cfg == cfg
      ensures AbsOf(View()) == Sta(Idle, scanStart, INVALID, map[], [], 0) && actions == []
    {
      this.cfg := cfg;
      scanner := new ChannelScanningController(cfg, scanStart);
      state := NotAssociated;
      currentApAddress, lastApAddress := INVALID, INVALID;
      isAuthenticated, associationId := false, 0;
      backgroundScanningEventTime := Infinite;
      tuned, actions := [], [];
      engine := Quiet().Schedule(InitializationEvent, scanStart);
      due := scanStart;
    }

    // -------------------------------------------------------------------------------
    // Scanning

    /** Tunes to one channel and waits there for beacons. */
    method Listen(ghost v: Snapshot, channelId: nat, duration: int, now: int)
      requires v == View()
      modifies this`tuned, this`actions, this`engine, this`due
      ensures actions == old(actions) + [TuneTo([channelId])]
      ensures View() == Listening(v, channelId, now + duration)
    {
      tuned := [channelId];
      actions := actions + [TuneTo([channelId])];
      engine := engine.Schedule(ChannelScanTimeoutEvent, now + duration);
      due := now + duration;
    }

    /** Asks the scanning controller what to scan next, for a station without an access point. */
    method AskWhatToScan(ghost v: Snapshot) returns (isDone: bool, channelId: nat, duration: int)
      requires Built() && v == View() && v.current == INVALID
      modifies scanner
      ensures Built() && (isDone <==> v.nextChannel >= cfg.numberOfChannels)
      ensures !isDone ==>
                && channelId == v.nextChannel && duration == cfg.scanTimeout
                && View() == v.(nextChannel := v.nextChannel + 1)
      ensures isDone ==>
                && View() == v.(candidate := Chosen(cfg, v.heard))
                && (View().candidate != INVALID ==> scanner.newBondedChannelList == v.heard[View().candidate].channels)
    {
      isDone, channelId, duration := scanner.GetChannelAndDurationToScan(Decide(cfg, v.heard, INVALID));
    }

    method StartChannelScanning(ghost v: Snapshot, now: int)
      requires Built() && v == View()
      requires v.state == NotAssociated && v.current == INVALID
      modifies this, scanner
      ensures Built() && actions == old(actions) + [TuneTo([0])]
      ensures View() == ScanStarted(cfg, v, now)
    {
      engine := engine.Clear(InitializationEvent);
      state := ChannelScanning;
      scanner.StartScanSequence();
      var isDone, channelId, duration := AskWhatToScan(View());
      assert !isDone;
      Listen(View(), channelId, duration, now);
    }

    method StartAuthentication(ghost v: Snapshot, accessPoint: MacAddress, now: int)
      requires v == View() && v.state == NotAssociated && !v.authenticated
      modifies this
      ensures actions == old(actions) + [SendAuthentication(accessPoint)]
      ensures View() == AuthenticationStarted(cfg, v, accessPoint, now)
    {
      currentApAddress := accessPoint;
      state := WaitingForAuthentication;
      actions := actions + [SendAuthentication(accessPoint)];
      engine := engine.Schedule(AuthenticationTimeoutEvent, now + cfg.authenticationTimeout);
      due := now + cfg.authenticationTimeout;
    }

    /** First half of SwitchToAnotherAccessPoint: everything of the last access point goes. */
    method LeaveForAnother(ghost v: Snapshot, channels: seq<nat>, now: int)
      requires Built() && v == View()
      modifies this, scanner
      ensures Built() && actions == old(actions) + [RequeuePackets, TuneTo(channels)]
      ensures View() == Forgotten(cfg, v, now).(state := NotAssociated, lastAp := v.currentAp,
                                                authenticated := false, tuned := channels)
    {
      lastApAddress := currentApAddress;
      state := NotAssociated;
      tuned := channels;
      actions := actions + [RequeuePackets, TuneTo(channels)];
      isAuthenticated := false;
      scanner.ClearCurrentChannelAndAccessPoint(now);
    }

    method SwitchToAnotherAccessPoint(ghost v: Snapshot, channels: seq<nat>, newAp: MacAddress, now: int)
      requires Built() && v == View()
      modifies this, scanner
      ensures Built()
      ensures actions == old(actions) + [RequeuePackets, TuneTo(channels), SendAuthentication(newAp)]
      ensures View() == Switched(cfg, v, channels, newAp, now)
    {
      LeaveForAnother(v, channels, now);
      StartAuthentication(View(), newAp, now);
    }

    /** The scan is over and the scanning controller has decided. */
    method FinishChannelScanning(ghost v: Snapshot, now: int)
      requires Built() && v == View() && v.state == ChannelScanning && v.current == INVALID
      modifies this, scanner
      ensures Built()
      ensures v.candidate == INVALID ==> View() == ScanStarted(cfg, v, now) && actions == old(actions) + [TuneTo([0])]
      ensures v.candidate != INVALID ==>
                && View() == Switched(cfg, v, old(scanner.newBondedChannelList), v.candidate, now)
                && actions == old(actions) + [RequeuePackets, TuneTo(old(scanner.newBondedChannelList)),
                                              SendAuthentication(v.candidate)]
    {
      if state == ChannelScanning {
        state := NotAssociated;
        if scanner.NoInRangeAccessPoints() {
          StartChannelScanning(View(), now);
        } else if scanner.ShouldSwitchAccessPoints() {
          var channels, ap := scanner.GetAccessPointToSwitchTo();
          SwitchToAnotherAccessPoint(View(), channels, ap, now);
        } else {
          assert false;
        }
      } else {
        assert false;
      }
    }

    method ScheduleLinkCheck(ghost v: Snapshot)
      requires v == View() && v.linkCheck.At?
      modifies this`engine, this`due
      ensures View() == v.(engine := v.engine.Schedule(CheckLinkStatusEvent, v.linkCheck.when), due := v.linkCheck.when)
    {
      engine := engine.Schedule(CheckLinkStatusEvent, scanner.nextLinkCheckTime.when);
      due := scanner.nextLinkCheckTime.when;
    }

    /** The scanning controller learns of the new access point, and its link checks begin. */
    method WatchAccessPoint(ghost v: Snapshot, now: int)
      requires Built() && v == View()
      modifies this`engine, this`due, scanner
      ensures Built()
      ensures View() == v.(current := v.currentAp, candidate := INVALID, leave := false,
                           linkCheck := At(now + cfg.linkCheckInterval), due := now + cfg.linkCheckInterval,
                           engine := v.engine.Schedule(CheckLinkStatusEvent, now + cfg.linkCheckInterval))
    {
      scanner.SetCurrentChannelAndAccessPoint(tuned, currentApAddress, now);
      ScheduleLinkCheck(View());
    }

    /** Remembers the access point as the last one and schedules a new scan without a ticket. */
    method ForgetAndRescan(ghost v: Snapshot, when: int, now: int)
      requires Built() && v == View()
      modifies this`lastApAddress, this`currentApAddress, this`engine, this`due, scanner
      ensures Built()
      ensures View() == Forgotten(cfg, v, now).(lastAp := v.currentAp, currentAp := INVALID,
                          engine := v.engine.ScheduleWithoutTicket(InitializationEvent, when), due := when)
    {
      lastApAddress := currentApAddress;
      currentApAddress := INVALID;
      scanner.ClearCurrentChannelAndAccessPoint(now);
      engine := engine.ScheduleWithoutTicket(InitializationEvent, when);
      due := when;
    }

    /** Leaves the access point of the station's own accord. */
    method Disassociate(ghost v: Snapshot, now: int)
      requires Built() && v == View() && v.state == Associated
      requires CheckLinkStatusEvent in v.engine.tickets ==>
                 Scheduled(CheckLinkStatusEvent, v.engine.tickets[CheckLinkStatusEvent]) in v.engine.pending
      modifies this, scanner
      ensures Built() && actions == old(actions) + Goodbye(v.currentAp)
      ensures View() == Dropped(cfg, v, Unchecked(v.engine), now + cfg.scanningStartDelay, now)
    {
      if CheckLinkStatusEvent in engine.tickets {
        engine := engine.Cancel(CheckLinkStatusEvent);
      }
      state := NotAssociated;
      isAuthenticated := false;
      actions := actions + [RequeuePackets, SendDisassociation(currentApAddress), LinkDown];
      ForgetAndRescan(View(), now + cfg.scanningStartDelay, now);
    }

    /** Sends the request of an authenticated station, be it the first or a handover. */
    method AssociateWithAccessPoint(ghost v: Snapshot, accessPoint: MacAddress, now: int)
      requires v == View() && v.authenticated && (v.state == Associated || v.state == WaitingForAuthentication)
      modifies this
      ensures View() ==
              v.(state := if v.state == Associated then WaitingForReassociationResponse
                          else WaitingForAssociationResponse,
                 lastAp := if v.state == Associated then v.currentAp else v.lastAp,
                 currentAp := accessPoint,
                 engine := v.engine.Schedule(AssociateFailureEvent, now + cfg.associateFailureTimeout),
                 due := now + cfg.associateFailureTimeout)
      ensures actions == old(actions) +
              [if v.state == Associated then SendReassociationRequest(accessPoint, v.currentAp)
               else SendAssociationRequest(accessPoint)]
    {
      if state == Associated {
        lastApAddress := currentApAddress;
        currentApAddress := accessPoint;
        actions := actions + [SendReassociationRequest(accessPoint, lastApAddress)];
        state := WaitingForReassociationResponse;
      } else if state == WaitingForAuthentication {
        currentApAddress := accessPoint;
        actions := actions + [SendAssociationRequest(accessPoint)];
        state := WaitingForAssociationResponse;
      } else {
        assert false;
      }
      engine := engine.Schedule(AssociateFailureEvent, now + cfg.associateFailureTimeout);
      due := now + cfg.associateFailureTimeout;
    }

    // -------------------------------------------------------------------------------
    // Timers

    method ChannelScanTimedOut(ghost v: Snapshot, now: int)
      requires Built() && v == View() && Ringing(v) && v.state == ChannelScanning
      modifies this, scanner
      ensures Valid() && AbsOf(View()) == AfterTimer(cfg, AbsOf(v), now)
      ensures actions == old(actions) + TimerOutput(cfg, AbsOf(v), now)
    {
      engine := engine.Clear(ChannelScanTimeoutEvent);
      var isDone, channelId, duration := AskWhatToScan(View());
      ghost var w := View();
      if !isDone {
        Listen(w, channelId, duration, now);
        ScanSteppedSound(cfg, v, now, View());
      } else {
        FinishChannelScanning(w, now);
        ScanOverSound(cfg, v, now, w, w.candidate, View());
      }
    }

    method AuthenticationTimeout(ghost v: Snapshot, now: int)
      requires Built() && v == View() && Ringing(v) && v.state == WaitingForAuthentication
      modifies this, scanner
      ensures Valid() && AbsOf(View()) == AfterTimer(cfg, AbsOf(v), now)
      ensures actions == old(actions) + TimerOutput(cfg, AbsOf(v), now)
    {
      assert !isAuthenticated;
      engine := engine.Clear(AuthenticationTimeoutEvent);
      state := NotAssociated;
      currentApAddress := INVALID;
      ghost var w := View();
      StartChannelScanning(w, now);
      ScanStartedSound(cfg, w, now, View());
    }

    method ProcessAssociateFailure(ghost v: Snapshot, now: int)
      requires Built() && v == View() && Ringing(v) && v.state == WaitingForAssociationResponse
      modifies this, scanner
      ensures Valid() && AbsOf(View()) == AfterTimer(cfg, AbsOf(v), now)
      ensures actions == old(actions) + TimerOutput(cfg, AbsOf(v), now)
    {
      engine := engine.Clear(AssociateFailureEvent);
      state := NotAssociated;
      isAuthenticated := false;
      currentApAddress := INVALID;
      ghost var w := View();
      StartChannelScanning(w, now);
      ScanStartedSound(cfg, w, now, View());
    }

    /** No background scan is ever due, so none is scheduled, moved or cancelled. */
    method UpdateBackgroundScanEventStartTime()
      requires state != BackgroundChannelScanning
      requires scanner.nextScanStartTime == Infinite && backgroundScanningEventTime == Infinite
    {
      if scanner.nextScanStartTime != backgroundScanningEventTime {
        assert false;
      }
    }

    method AskAboutLink(ghost v: Snapshot, now: int)
      requires Built() && v == View() && v.state == Associated && v.current == v.currentAp != INVALID && !v.leave
      modifies this`engine, scanner`shouldDisassociateFromCurrentAp, scanner`nextLinkCheckTime
      ensures Built() && View() == LinkChecked(cfg, v, LinkLost(cfg, AbsOf(v), now), now)
    {
      engine := engine.Clear(CheckLinkStatusEvent);
      scanner.CalculateLinkStatus(now);
    }

    method CheckLinkStatus(ghost v: Snapshot, now: int)
      requires Built() && v == View() && Ringing(v) && v.state == Associated
      modifies this, scanner
      ensures Valid() && AbsOf(View()) == AfterTimer(cfg, AbsOf(v), now)
      ensures actions == old(actions) + TimerOutput(cfg, AbsOf(v), now)
    {
      AskAboutLink(v, now);
      ghost var w := View();
      if scanner.NoInRangeAccessPoints() {
        Disassociate(w, now);
        LinkLostSound(cfg, v, now, w, View());
        return;
      }
      if scanner.ShouldSwitchAccessPoints() {
        assert false;
      }
      UpdateBackgroundScanEventStartTime();
      ScheduleLinkCheck(w);
      LinkKeptSound(cfg, v, now, View());
    }

    /** Any event the engine may fire is the state's own timer, and its handler's assertions hold. */
    method Fire(x: Scheduled, ghost v: Snapshot)
      requires Valid() && v == View() && x in v.engine.pending
      modifies this, scanner
      ensures Valid() && AbsOf(View()) == Next(cfg, AbsOf(v), x.when, Timer)
      ensures actions == old(actions) + Output(cfg, AbsOf(v), x.when, Timer)
      ensures x == Scheduled(KindOf(v.state), v.due)
    {
      engine := engine.Fire(x);
      ghost var w := View();
      match x.kind {
        case InitializationEvent =>
          StartChannelScanning(w, x.when);
          ScanStartedSound(cfg, w, x.when, View());
        case ChannelScanTimeoutEvent => ChannelScanTimedOut(w, x.when);
        case AuthenticationTimeoutEvent => AuthenticationTimeout(w, x.when);
        case AssociateFailureEvent => ProcessAssociateFailure(w, x.when);
        case CheckLinkStatusEvent => CheckLinkStatus(w, x.when);
        case BackgroundScanStartEvent => assert false;
      }
    }

    // -------------------------------------------------------------------------------
    // Frames

    method ProcessAuthenticationFrame(ghost v: Snapshot, now: int)
      requires Valid() && v == View()
      modifies this
      ensures Valid() && AbsOf(View()) == Next(cfg, AbsOf(v), now, AuthenticationFrame)
      ensures actions == old(actions) + Output(cfg, AbsOf(v), now, AuthenticationFrame)
    {
      if state != WaitingForAuthentication {
        return;
      }
      if AuthenticationTimeoutEvent in engine.tickets {
        engine := engine.Cancel(AuthenticationTimeoutEvent);
      }
      isAuthenticated := true;
      AssociateWithAccessPoint(View(), currentApAddress, now);
      AssociationRequestedSound(cfg, v, now, View());
    }

    method ProcessAssociationResponse(ghost v: Snapshot, from: MacAddress, id: nat, now: int)
      requires Valid() && v == View()
      modifies this, scanner
      ensures Valid() && AbsOf(View()) == Next(cfg, AbsOf(v), now, AssociationResponse(from, id))
      ensures actions == old(actions) + Output(cfg, AbsOf(v), now, AssociationResponse(from, id))
    {
      if state != WaitingForAssociationResponse || from != currentApAddress {
        return;
      }
      if AssociateFailureEvent in engine.tickets {
        engine := engine.Cancel(AssociateFailureEvent);
      }
      state := Associated;
      associationId := id;
      actions := actions + [LinkUp];
      WatchAccessPoint(View(), now);
      AcceptedSound(cfg, v, id, now, View());
    }

    method ProcessDisassociation(ghost v: Snapshot, from: MacAddress, now: int)
      requires Valid() && v == View()
      modifies this, scanner
      ensures Valid() && AbsOf(View()) == Next(cfg, AbsOf(v), now, Disassociation(from))
      ensures actions == old(actions) + Output(cfg, AbsOf(v), now, Disassociation(from))
    {
      if state != Associated || from != currentApAddress {
        return;
      }
      if CheckLinkStatusEvent in engine.tickets {
        engine := engine.Cancel(CheckLinkStatusEvent);
      }
      state := NotAssociated;
      isAuthenticated := false;
      actions := actions + [LinkDown];
      ForgetAndRescan(View(), now, now);
      DroppedSound(cfg, v, now, now, View());
    }

    method ProcessBeaconFrame(ghost v: Snapshot, e: Event, now: int)
      requires Valid() && v == View() && e.Beacon? && Possible(e)
      modifies this, scanner
      ensures Valid() && AbsOf(View()) == Next(cfg, AbsOf(v), now, e)
      ensures actions == old(actions) + Output(cfg, AbsOf(v), now, e)
    {
      if e.ssidMatches {
        scanner.ReceiveBeaconInfo(e.from, e.channels, e.rssi, now);
        if state == Associated {
          if scanner.NoInRangeAccessPoints() {
            ghost var w := View();
            Disassociate(w, now);
            TooWeakSound(cfg, v, now, e, w, View());
            return;
          } else if scanner.ShouldSwitchAccessPoints() {
            assert false;
          }
        }
        HeardSound(cfg, v, now, e, View());
      }
    }

    method ProcessManagementFrame(ghost v: Snapshot, e: Event, now: int)
      requires Valid() && v == View() && Possible(e) && !e.Timer?
      modifies this, scanner
      ensures Valid() && AbsOf(View()) == Next(cfg, AbsOf(v), now, e)
      ensures actions == old(actions) + Output(cfg, AbsOf(v), now, e)
    {
      match e {
        case OtherRequest =>
        case AuthenticationFrame => ProcessAuthenticationFrame(v, now);
        case AssociationResponse(from, id) => ProcessAssociationResponse(v, from, id, now);
        case ReassociationResponse(from) =>
          if !(state != WaitingForReassociationResponse || from != currentApAddress) {
            assert false;
          }
        case Disassociation(from) => ProcessDisassociation(v, from, now);
        case Beacon(_, _, _, _) => ProcessBeaconFrame(v, e, now);
      }
    }
  }
}
