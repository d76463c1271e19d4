/** The station's association as a five-phase machine with one timer, without event queues,
    tickets or a second object: what a reader of the protocol would draw.  Module StaController
    proves that the program's two cooperating objects do exactly this. */
module StaSpec {
  import opened Addresses

  datatype BeaconInfo = BeaconInfo(
    channels: seq<nat>,
    address: MacAddress,
    lastRssi: real,
    average: real,
    lastReceived: int)

  type Heard = map<MacAddress, BeaconInfo>

  /** Fixed parameters of a station.  `smooth` averages a new signal strength with the old
      average; `lowest` is the strength that stands for "none". */
  datatype Config = Config(
    numberOfChannels: nat,
    associationThreshold: real,
    disassociationThreshold: real,
    improvementThreshold: real,
    scanTimeout: int,
    linkCheckInterval: int,
    authenticationTimeout: int,
    associateFailureTimeout: int,
    scanningStartDelay: int,
    lowest: real,
    smooth: (real, real) -> real)

  datatype Phase =
    | Idle
    | Scanning(next: nat)
    | Authenticating(ap: MacAddress)
    | Associating(ap: MacAddress)
    | Online(ap: MacAddress)

  /** `due` is when the station's only timer fires. */
  datatype Sta = Sta(phase: Phase, due: int, lastAp: MacAddress, heard: Heard, tuned: seq<nat>, associationId: nat)

  /** An authentication frame carries no sender because the program looks at none. */
  datatype Event =
    | Timer
    | OtherRequest
    | AuthenticationFrame
    | AssociationResponse(from: MacAddress, id: nat)
    | ReassociationResponse(from: MacAddress)
    | Disassociation(from: MacAddress)
    | Beacon(from: MacAddress, ssidMatches: bool, channels: seq<nat>, rssi: real)

  /** What the station asks of the layers around it. */
  datatype Action =
    | TuneTo(channels: seq<nat>)
    | SendAuthentication(ap: MacAddress)
    | SendAssociationRequest(ap: MacAddress)
    | SendReassociationRequest(ap: MacAddress, from: MacAddress)
    | SendDisassociation(ap: MacAddress)
    | SendPowerSaveNull(ap: MacAddress, on: bool)
    | RequeuePackets
    | LinkUp
    | LinkDown

  // ---------------------------------------------------------------------------------
  // Beacons and the choice of an access point

  function Hear(cfg: Config, heard: Heard, from: MacAddress, channels: seq<nat>, rssi: real, now: int): Heard {
    var average := if from in heard then cfg.smooth(rssi, heard[from].average) else rssi;
    heard[from := BeaconInfo(channels, from, rssi, average, now)]
  }

  /** `ap` has the highest average signal of all access points heard, the lowest address
      deciding among equals; there is none if no signal is above the lowest value. */
  ghost predicate IsBest(heard: Heard, lowest: real, ap: MacAddress) {
    if ap == INVALID then forall k :: k in heard ==> heard[k].average <= lowest
    else
      && ap in heard && heard[ap].average > lowest
      && forall k :: k in heard ==>
           heard[k].average < heard[ap].average || (heard[k].average == heard[ap].average && ap <= k)
  }

  ghost function Best(heard: Heard, lowest: real): (ap: MacAddress)
    requires INVALID !in heard
    ensures IsBest(heard, lowest, ap)
    decreases |heard|
  {
    if heard == map[] then INVALID
    else
      var k :| k in heard;
      var rest := heard - {k};
      assert |rest| < |heard| by {
        assert heard.Keys == rest.Keys + {k};
      }
      assert forall j :: j in heard ==> j == k || (j in rest && rest[j] == heard[j]);
      var b := Best(rest, lowest);
      if heard[k].average <= lowest then b
      else if b == INVALID then k
      else if heard[k].average > heard[b].average || (heard[k].average == heard[b].average && k < b) then k
      else b
  }

  lemma {:induction false} BestUnique(heard: Heard, lowest: real, x: MacAddress, y: MacAddress)
    requires INVALID !in heard
    requires IsBest(heard, lowest, x) && IsBest(heard, lowest, y)
    ensures x == y
  {
  }

  /** The average signal of an access point, the lowest value if it was never heard. */
  function Signal(heard: Heard, lowest: real, ap: MacAddress): real {
    if ap in heard then heard[ap].average else lowest
  }

  /** The access point a scan without a current one ends with. */
  ghost function Chosen(cfg: Config, heard: Heard): MacAddress
    requires INVALID !in heard
  {
    var b := Best(heard, cfg.lowest);
    if b != INVALID && heard[b].average >= cfg.associationThreshold then b else INVALID
  }

  // ---------------------------------------------------------------------------------
  // The machine

  ghost predicate Inv(s: Sta) {
    && INVALID !in s.heard
    && (forall k :: k in s.heard ==> s.heard[k].address == k)
    && (s.phase.Authenticating? || s.phase.Associating? || s.phase.Online? ==> s.phase.ap != INVALID)
  }

  predicate Possible(e: Event) {
    e.Beacon? ==> e.from != INVALID
  }

  function StartScan(cfg: Config, s: Sta, now: int): Sta {
    s.(phase := Scanning(1), due := now + cfg.scanTimeout, tuned := [0])
  }

  function LeaveOnline(s: Sta, due: int): Sta
    requires s.phase.Online?
  {
    s.(phase := Idle, due := due, lastAp := s.phase.ap)
  }

  /** At a link check: no beacon of the current access point within the interval. */
  predicate LinkLost(cfg: Config, s: Sta, now: int)
    requires s.phase.Online?
  {
    s.phase.ap !in s.heard || s.heard[s.phase.ap].lastReceived + cfg.linkCheckInterval < now
  }

  /** A beacon of the current access point that brings its average below the threshold. */
  predicate BeaconTooWeak(cfg: Config, s: Sta, e: Event)
    requires e.Beacon?
  {
    && s.phase.Online? && e.from == s.phase.ap && e.from in s.heard
    && cfg.smooth(e.rssi, s.heard[e.from].average) < cfg.disassociationThreshold
  }

  ghost function AfterTimer(cfg: Config, s: Sta, now: int): (s': Sta)
    requires Inv(s)
    ensures Inv(s')
  {
    match s.phase
    case Scanning(c) =>
      if c < cfg.numberOfChannels then s.(phase := Scanning(c + 1), due := now + cfg.scanTimeout, tuned := [c])
      else if Chosen(cfg, s.heard) == INVALID then StartScan(cfg, s, now)
      else s.(phase := Authenticating(Chosen(cfg, s.heard)), due := now + cfg.authenticationTimeout,
              lastAp := INVALID, tuned := s.heard[Chosen(cfg, s.heard)].channels)
    case Online(_) =>
      if LinkLost(cfg, s, now) then LeaveOnline(s, now + cfg.scanningStartDelay)
      else s.(due := now + cfg.linkCheckInterval)
    case _ => StartScan(cfg, s, now)
  }

  ghost function Next(cfg: Config, s: Sta, now: int, e: Event): (s': Sta)
    requires Inv(s) && Possible(e)
    ensures Inv(s')
  {
    match e
    case Timer => AfterTimer(cfg, s, now)
    case OtherRequest => s
    case AuthenticationFrame =>
      if s.phase.Authenticating?
      then s.(phase := Associating(s.phase.ap), due := now + cfg.associateFailureTimeout)
      else s
    case AssociationResponse(from, id) =>
      if s.phase == Associating(from)
      then s.(phase := Online(from), due := now + cfg.linkCheckInterval, associationId := id)
      else s
    case ReassociationResponse(_) => s
    case Disassociation(from) => if s.phase == Online(from) then LeaveOnline(s, now) else s
    case Beacon(from, matches, channels, rssi) =>
      if !matches then s
      else
        var s' := s.(heard := Hear(cfg, s.heard, from, channels, rssi, now));
        if BeaconTooWeak(cfg, s, e) then LeaveOnline(s', now + cfg.scanningStartDelay) else s'
  }

  function Goodbye(ap: MacAddress): seq<Action> {
    [RequeuePackets, SendDisassociation(ap), LinkDown]
  }

  ghost function TimerOutput(cfg: Config, s: Sta, now: int): seq<Action>
    requires Inv(s)
  {
    match s.phase
    case Scanning(c) =>
      if c < cfg.numberOfChannels then [TuneTo([c])]
      else if Chosen(cfg, s.heard) == INVALID then [TuneTo([0])]
      else [RequeuePackets, TuneTo(s.heard[Chosen(cfg, s.heard)].channels), SendAuthentication(Chosen(cfg, s.heard))]
    case Online(ap) => if LinkLost(cfg, s, now) then Goodbye(ap) else []
    case _ => [TuneTo([0])]
  }

  ghost function Output(cfg: Config, s: Sta, now: int, e: Event): seq<Action>
    requires Inv(s) && Possible(e)
  {
    match e
    case Timer => TimerOutput(cfg, s, now)
    case AuthenticationFrame =>
      if s.phase.Authenticating? then [SendAssociationRequest(s.phase.ap)] else []
    case AssociationResponse(from, _) => if s.phase == Associating(from) then [LinkUp] else []
    case Disassociation(from) => if s.phase == Online(from) then [LinkDown] else []
    case Beacon(_, matches, _, _) => if matches && BeaconTooWeak(cfg, s, e) then Goodbye(s.phase.ap) else []
    case _ => []
  }
}
