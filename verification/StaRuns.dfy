/** What every run of the station's association machine keeps, for any frames at any times. */
module StaRuns {
  import opened Addresses
  import opened StaSpec

  datatype Stamped = Stamped(now: int, event: Event)

  predicate Legal(run: seq<Stamped>) {
    forall i :: 0 <= i < |run| ==> Possible(run[i].event)
  }

  ghost function After(cfg: Config, s: Sta, run: seq<Stamped>): (s': Sta)
    requires Inv(s) && Legal(run)
    ensures Inv(s')
  {
    if run == [] then s
    else
      var n := |run| - 1;
      Next(cfg, After(cfg, s, run[..n]), run[n].now, run[n].event)
  }

  ghost function Outputs(cfg: Config, s: Sta, run: seq<Stamped>): seq<Action>
    requires Inv(s) && Legal(run)
  {
    if run == [] then []
    else
      var n := |run| - 1;
      Outputs(cfg, s, run[..n]) + Output(cfg, After(cfg, s, run[..n]), run[n].now, run[n].event)
  }

  /** A station as it is built: nothing heard, nothing tuned, the first scan at `start`. */
  function Initial(start: int): Sta {
    Sta(Idle, start, INVALID, map[], [], 0)
  }

  // ---------------------------------------------------------------------------------
  // The handshake

  predicate IsHandshake(a: Action) {
    a.SendAuthentication? || a.SendAssociationRequest? || a.LinkUp? || a.LinkDown?
  }

  function Handshake(actions: seq<Action>): seq<Action> {
    if actions == [] then []
    else
      var n := |actions| - 1;
      Handshake(actions[..n]) + (if IsHandshake(actions[n]) then [actions[n]] else [])
  }

  lemma {:induction false} HandshakeConcat(a: seq<Action>, b: seq<Action>)
    ensures Handshake(a + b) == Handshake(a) + Handshake(b)
  {
    if b == [] {
      assert a + b == a;
    } else {
      var n := |b| - 1;
      HandshakeConcat(a, b[..n]);
      assert (a + b)[..|a| + n] == a + b[..n];
    }
  }

  predicate EndsWith(s: seq<Action>, t: seq<Action>) {
    |t| <= |s| && s[|s| - |t|..] == t
  }

  /** The handshake actions that a phase must have been reached by, most recent last. */
  function Earned(p: Phase): seq<Action> {
    match p
    case Authenticating(ap) => [SendAuthentication(ap)]
    case Associating(ap) => [SendAuthentication(ap), SendAssociationRequest(ap)]
    case Online(ap) => [SendAuthentication(ap), SendAssociationRequest(ap), LinkUp]
    case _ => []
  }

  lemma {:induction false} HandshakeOfShort(out: seq<Action>)
    requires |out| <= 3
    ensures out == [] ==> Handshake(out) == []
    ensures |out| == 1 ==> Handshake(out) == (if IsHandshake(out[0]) then out else [])
    ensures |out| == 3 && !IsHandshake(out[0]) && !IsHandshake(out[1]) && IsHandshake(out[2]) ==>
              Handshake(out) == [out[2]]
  {
    if |out| == 1 {
      assert out[..0] == [] && out == [out[0]];
    } else if |out| == 3 {
      HandshakeConcat(out[..2], out[2..]);
      HandshakeConcat(out[..1], out[1..2]);
      assert out == out[..2] + out[2..] && out[..2] == out[..1] + out[1..2];
      HandshakeOfShort(out[..1]);
      HandshakeOfShort(out[1..2]);
      HandshakeOfShort(out[2..]);
    }
  }

  lemma {:induction false} HandshakeOfStep(cfg: Config, s: Sta, now: int, e: Event, out: seq<Action>, p: Phase)
    requires Inv(s) && Possible(e)
    requires out == Output(cfg, s, now, e) && p == Next(cfg, s, now, e).phase
    ensures Earned(p) == Handshake(out) || Earned(p) == Earned(s.phase) + Handshake(out) || Earned(p) == []
  {
    HandshakeOfShort(out);
  }

  lemma {:induction false} EndsWithMore(h: seq<Action>, more: seq<Action>, was: seq<Action>, now: seq<Action>)
    requires EndsWith(h, was)
    requires now == more || now == was + more || now == []
    ensures EndsWith(h + more, now)
  {
  }

  /** Whenever the station is online with an access point, the last three handshake actions of
      the run are: authentication sent to it, association request sent to it, link up.  Nothing
      for another access point and no second "link up" came in between. */
  lemma {:induction false} OnlineWasEarned(cfg: Config, start: int, run: seq<Stamped>)
    requires Legal(run)
    ensures EndsWith(Handshake(Outputs(cfg, Initial(start), run)), Earned(After(cfg, Initial(start), run).phase))
  {
    if run != [] {
      var n := |run| - 1;
      OnlineWasEarned(cfg, start, run[..n]);
      var s := After(cfg, Initial(start), run[..n]);
      var before := Outputs(cfg, Initial(start), run[..n]);
      var out := Output(cfg, s, run[n].now, run[n].event);
      var p := After(cfg, Initial(start), run).phase;
      HandshakeConcat(before, out);
      HandshakeOfStep(cfg, s, run[n].now, run[n].event, out, p);
      EndsWithMore(Handshake(before), Handshake(out), Earned(s.phase), Earned(p));
    }
  }

  // ---------------------------------------------------------------------------------
  // What the network layer is told

  function Signals(actions: seq<Action>): seq<Action> {
    if actions == [] then []
    else
      var n := |actions| - 1;
      Signals(actions[..n]) + (if actions[n].LinkUp? || actions[n].LinkDown? then [actions[n]] else [])
  }

  lemma {:induction false} SignalsConcat(a: seq<Action>, b: seq<Action>)
    ensures Signals(a + b) == Signals(a) + Signals(b)
  {
    if b == [] {
      assert a + b == a;
    } else {
      var n := |b| - 1;
      SignalsConcat(a, b[..n]);
      assert (a + b)[..|a| + n] == a + b[..n];
    }
  }

  lemma {:induction false} SignalsOfStep(cfg: Config, s: Sta, now: int, e: Event, out: seq<Action>, s': Sta)
    requires Inv(s) && Possible(e)
    requires out == Output(cfg, s, now, e) && s' == Next(cfg, s, now, e)
    ensures s.phase.Online? == s'.phase.Online? ==> Signals(out) == []
    ensures !s.phase.Online? && s'.phase.Online? ==> Signals(out) == [LinkUp]
    ensures s.phase.Online? && !s'.phase.Online? ==> Signals(out) == [LinkDown]
  {
    SignalsOfShort(out);
  }

  lemma {:induction false} SignalsOfShort(out: seq<Action>)
    ensures out == [] ==> Signals(out) == []
    ensures |out| == 1 ==> Signals(out) == (if out[0].LinkUp? || out[0].LinkDown? then out else [])
    ensures |out| == 3 && out[0].RequeuePackets? && (out[1].TuneTo? || out[1].SendDisassociation?) ==>
              Signals(out) == (if out[2].LinkUp? || out[2].LinkDown? then [out[2]] else [])
  {
    if |out| == 1 {
      assert out[..0] == [] && out == [out[0]];
    } else if |out| == 3 {
      SignalsConcat(out[..2], out[2..]);
      SignalsConcat(out[..1], out[1..2]);
      assert out == out[..2] + out[2..] && out[..2] == out[..1] + out[1..2];
      SignalsOfShort(out[..1]);
      SignalsOfShort(out[1..2]);
      SignalsOfShort(out[2..]);
    }
  }

  /** "Up" and "down" strictly in turn, "up" first, ending with "up" exactly if `online`. */
  predicate Alternating(signals: seq<Action>, online: bool) {
    && (forall i :: 0 <= i < |signals| ==> signals[i] == (if i % 2 == 0 then LinkUp else LinkDown))
    && (online <==> |signals| % 2 == 1)
  }

  lemma {:induction false} KeepsAlternating(signals: seq<Action>, more: seq<Action>, was: bool, online: bool)
    requires Alternating(signals, was)
    requires more == (if was == online then [] else if online then [LinkUp] else [LinkDown])
    ensures Alternating(signals + more, online)
  {
  }

  lemma {:induction false} AlternatingStep(cfg: Config, s: Sta, now: int, e: Event,
                                           before: seq<Action>, out: seq<Action>)
    requires Inv(s) && Possible(e) && out == Output(cfg, s, now, e)
    requires Alternating(Signals(before), s.phase.Online?)
    ensures Alternating(Signals(before + out), Next(cfg, s, now, e).phase.Online?)
  {
    var s' := Next(cfg, s, now, e);
    SignalsConcat(before, out);
    SignalsOfStep(cfg, s, now, e, out, s');
    KeepsAlternating(Signals(before), Signals(out), s.phase.Online?, s'.phase.Online?);
  }

  /** The network layer hears "up", "down", "up", … strictly in turn, and has last heard "up"
      exactly when the station is online. */
  lemma {:induction false} LinkSignalsAlternate(cfg: Config, start: int, run: seq<Stamped>)
    requires Legal(run)
    ensures Alternating(Signals(Outputs(cfg, Initial(start), run)), After(cfg, Initial(start), run).phase.Online?)
  {
    if run != [] {
      var n := |run| - 1;
      LinkSignalsAlternate(cfg, start, run[..n]);
      var s := After(cfg, Initial(start), run[..n]);
      AlternatingStep(cfg, s, run[n].now, run[n].event, Outputs(cfg, Initial(start), run[..n]),
                      Output(cfg, s, run[n].now, run[n].event));
    }
  }

  /** No run hands over to another access point or puts the station to sleep: neither a
      reassociation request nor a power-save announcement is ever sent. */
  lemma {:induction false} NeverHandsOver(cfg: Config, start: int, run: seq<Stamped>, a: Action)
    requires Legal(run) && a in Outputs(cfg, Initial(start), run)
    ensures !a.SendReassociationRequest? && !a.SendPowerSaveNull?
  {
    var n := |run| - 1;
    var s := After(cfg, Initial(start), run[..n]);
    if a in Outputs(cfg, Initial(start), run[..n]) {
      NeverHandsOver(cfg, start, run[..n], a);
    } else {
      StepsNeverHandOver(cfg, s, run[n].now, run[n].event, a);
    }
  }

  lemma {:induction false} StepsNeverHandOver(cfg: Config, s: Sta, now: int, e: Event, a: Action)
    requires Inv(s) && Possible(e) && a in Output(cfg, s, now, e)
    ensures !a.SendReassociationRequest? && !a.SendPowerSaveNull?
  {
  }

  predicate StaysPut(actions: seq<Action>) {
    forall a :: a in actions ==> !a.SendReassociationRequest? && !a.SendPowerSaveNull?
  }

  /** All of this about what a station did since it was built, and the phase it is in. */
  predicate Sensible(actions: seq<Action>, p: Phase) {
    && Alternating(Signals(actions), p.Online?)
    && EndsWith(Handshake(actions), Earned(p))
    && StaysPut(actions)
  }

  lemma {:induction false} EveryRunIsSensible(cfg: Config, start: int, run: seq<Stamped>,
                                              actions: seq<Action>, p: Phase)
    requires Legal(run)
    requires actions == Outputs(cfg, Initial(start), run) && p == After(cfg, Initial(start), run).phase
    ensures Sensible(actions, p)
  {
    LinkSignalsAlternate(cfg, start, run);
    OnlineWasEarned(cfg, start, run);
    forall a | a in actions
      ensures !a.SendReassociationRequest? && !a.SendPowerSaveNull?
    {
      NeverHandsOver(cfg, start, run, a);
    }
  }

  // ---------------------------------------------------------------------------------
  // Scanning

  ghost predicate ScanningTill(cfg: Config, s: Sta, run: seq<Stamped>, n: nat)
    requires Inv(s) && Legal(run)
  {
    s.phase.Scanning? && s.phase.next + Timers(run) == n <= cfg.numberOfChannels
  }

  function Timers(run: seq<Stamped>): nat {
    if run == [] then 0
    else Timers(run[..|run| - 1]) + (if run[|run| - 1].event.Timer? then 1 else 0)
  }

  function TuneEach(from: nat, to: nat): seq<Action>
    requires from <= to
  {
    if from == to then [] else TuneEach(from, to - 1) + [TuneTo([to - 1])]
  }

  lemma {:induction false} TuneEachAt(from: nat, to: nat, k: nat)
    requires from + k < to
    ensures |TuneEach(from, to)| == to - from && TuneEach(from, to)[k] == TuneTo([from + k])
  {
    TuneEachLength(from, to - 1);
    if from + k < to - 1 {
      TuneEachAt(from, to - 1, k);
    }
  }

  lemma {:induction false} TuneEachLength(from: nat, to: nat)
    requires from <= to
    ensures |TuneEach(from, to)| == to - from
  {
    if from < to {
      TuneEachLength(from, to - 1);
    }
  }

  lemma {:induction false} ScanStep(cfg: Config, s: Sta, now: int, e: Event)
    requires Inv(s) && Possible(e) && s.phase.Scanning? && (e.Timer? ==> s.phase.next < cfg.numberOfChannels)
    ensures Next(cfg, s, now, e).phase == Scanning(s.phase.next + if e.Timer? then 1 else 0)
    ensures Output(cfg, s, now, e) == if e.Timer? then [TuneTo([s.phase.next])] else []
  {
  }

  /** While a scan is on, whatever frames arrive between its timeouts, the radio is tuned to the
      remaining channels one by one in increasing order, each once, and nothing else is done. */
  lemma {:induction false} ScanVisitsEachChannel(cfg: Config, s: Sta, run: seq<Stamped>, n: nat)
    requires Inv(s) && Legal(run) && ScanningTill(cfg, s, run, n)
    ensures After(cfg, s, run).phase == Scanning(n)
    ensures Outputs(cfg, s, run) == TuneEach(s.phase.next, n)
  {
    if run != [] {
      var m := |run| - 1;
      var k := s.phase.next + Timers(run[..m]);
      ScanVisitsEachChannel(cfg, s, run[..m], k);
      ScanStep(cfg, After(cfg, s, run[..m]), run[m].now, run[m].event);
      assert run[m].event.Timer? ==> n == k + 1;
    }
  }

  /** An authentication is only ever started with the best access point heard, one that meets
      the association threshold, with the radio on its channels. */
  lemma {:induction false} AuthenticationGoesToTheBest(cfg: Config, s: Sta, now: int, e: Event, ap: MacAddress)
    requires Inv(s) && Possible(e) && SendAuthentication(ap) in Output(cfg, s, now, e)
    ensures ap in s.heard && IsBest(s.heard, cfg.lowest, ap) && s.heard[ap].average >= cfg.associationThreshold
    ensures Next(cfg, s, now, e).phase == Authenticating(ap) && Next(cfg, s, now, e).tuned == s.heard[ap].channels
    ensures e.Timer? && s.phase.Scanning? && s.phase.next >= cfg.numberOfChannels
  {
    match e {
      case Timer => assert s.phase.Scanning?;
      case _ =>
    }
  }

  // ---------------------------------------------------------------------------------
  // Progress

  /** How many timeouts an unassociated station is away from trying an access point. */
  function Patience(cfg: Config, p: Phase): nat {
    match p
    case Scanning(c) => if c < cfg.numberOfChannels then cfg.numberOfChannels - c + 1 else 1
    case _ => if cfg.numberOfChannels == 0 then 2 else cfg.numberOfChannels + 1
  }

  /** The station was online at some point of the run. */
  ghost predicate EverOnline(cfg: Config, s: Sta, run: seq<Stamped>)
    requires Inv(s) && Legal(run)
  {
    After(cfg, s, run).phase.Online? || (run != [] && EverOnline(cfg, s, run[..|run| - 1]))
  }

  /** A timeout brings an unassociated station one step closer, any other event none further. */
  lemma {:induction false} PatienceStep(cfg: Config, s: Sta, now: int, e: Event, s': Sta)
    requires Inv(s) && Possible(e) && s' == Next(cfg, s, now, e) && !s.phase.Online? && !s'.phase.Online?
    requires e.Timer? ==> Patience(cfg, s.phase) > 1
    ensures Patience(cfg, s'.phase) == Patience(cfg, s.phase) - (if e.Timer? then 1 else 0)
  {
  }

  lemma {:induction false} PatienceRuns(cfg: Config, s: Sta, run: seq<Stamped>)
    requires Inv(s) && Legal(run) && !EverOnline(cfg, s, run) && Timers(run) < Patience(cfg, s.phase)
    ensures Patience(cfg, After(cfg, s, run).phase) + Timers(run) == Patience(cfg, s.phase)
  {
    if run != [] {
      var n := |run| - 1;
      PatienceRuns(cfg, s, run[..n]);
      PatienceStep(cfg, After(cfg, s, run[..n]), run[n].now, run[n].event, After(cfg, s, run));
    }
  }

  /** The last timeout of a scan: what it does is decided by what was heard by then. */
  lemma {:induction false} LastTimeout(cfg: Config, s: Sta, now: int)
    requires Inv(s) && !s.phase.Online? && Patience(cfg, s.phase) == 1
    ensures Next(cfg, s, now, Timer).phase ==
            if Chosen(cfg, s.heard) == INVALID then Scanning(1) else Authenticating(Chosen(cfg, s.heard))
  {
  }

  /** Progress, whatever frames come between the timeouts: at its `Patience`-th timeout a station
      authenticates with the access point chosen from all that it has heard by then, or scans
      again if none is acceptable; unless it came online on the way. */
  lemma {:induction false} TimersReachAuthentication(cfg: Config, s: Sta, run: seq<Stamped>, last: int, t: Sta)
    requires Inv(s) && Legal(run) && Timers(run) + 1 == Patience(cfg, s.phase) && t == After(cfg, s, run)
    ensures EverOnline(cfg, s, run) ||
            After(cfg, s, run + [Stamped(last, Timer)]).phase ==
              if Chosen(cfg, t.heard) == INVALID then Scanning(1) else Authenticating(Chosen(cfg, t.heard))
  {
    if !EverOnline(cfg, s, run) {
      PatienceRuns(cfg, s, run);
      LastTimeout(cfg, t, last);
      assert (run + [Stamped(last, Timer)])[..|run|] == run;
    }
  }

  // ---------------------------------------------------------------------------------
  // What the station knows is what it was sent

  datatype LastHeard = Never | Since(when: int)

  function LastBeacon(run: seq<Stamped>, ap: MacAddress): LastHeard {
    if run == [] then Never
    else
      var n := |run| - 1;
      var e := run[n].event;
      if e.Beacon? && e.ssidMatches && e.from == ap then Since(run[n].now) else LastBeacon(run[..n], ap)
  }

  lemma {:induction false} HeardIsHistory(cfg: Config, start: int, run: seq<Stamped>, ap: MacAddress)
    requires Legal(run)
    ensures ap in After(cfg, Initial(start), run).heard <==> LastBeacon(run, ap).Since?
    ensures LastBeacon(run, ap).Since? ==>
              After(cfg, Initial(start), run).heard[ap].lastReceived == LastBeacon(run, ap).when
  {
    if run != [] {
      HeardIsHistory(cfg, start, run[..|run| - 1], ap);
    }
  }

  /** At a link check the station gives up its access point exactly when that access point sent
      no beacon of the station's network within the check interval. */
  lemma {:induction false} LinkCheckDetectsSilence(cfg: Config, start: int, run: seq<Stamped>, now: int, s: Sta)
    requires Legal(run) && s == After(cfg, Initial(start), run) && s.phase.Online?
    ensures Next(cfg, s, now, Timer).phase == Idle <==>
            LastBeacon(run, s.phase.ap) == Never || LastBeacon(run, s.phase.ap).when + cfg.linkCheckInterval < now
    ensures Next(cfg, s, now, Timer).phase != Idle ==> Next(cfg, s, now, Timer).phase == s.phase
  {
    HeardIsHistory(cfg, start, run, s.phase.ap);
  }
}
