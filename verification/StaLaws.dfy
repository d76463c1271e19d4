/** What the association machine does, read off the frames and timeouts of the run. */
module StaLaws {
  import opened Addresses
  import opened StaSpec
  import opened StaRuns

  // ---------------------------------------------------------------------------------
  // What is stored of an access point

  /** The beacon is one of `ap`, for the station's network. */
  predicate IsBeaconOf(e: Event, ap: MacAddress) {
    e.Beacon? && e.ssidMatches && e.from == ap
  }

  /** The strengths of an access point's beacons, in order. */
  function Strengths(run: seq<Stamped>, ap: MacAddress): seq<real> {
    if run == [] then []
    else
      var n := |run| - 1;
      Strengths(run[..n], ap) + (if IsBeaconOf(run[n].event, ap) then [run[n].event.rssi] else [])
  }

  /** The first strength, then averaged with each later one in turn. */
  function Averaged(smooth: (real, real) -> real, strengths: seq<real>): real
    requires strengths != []
  {
    var n := |strengths| - 1;
    if n == 0 then strengths[0] else smooth(strengths[n], Averaged(smooth, strengths[..n]))
  }

  /** The channels the last beacon told of. */
  function LastChannels(run: seq<Stamped>, ap: MacAddress): seq<nat> {
    if run == [] then []
    else
      var n := |run| - 1;
      if IsBeaconOf(run[n].event, ap) then run[n].event.channels else LastChannels(run[..n], ap)
  }

  lemma {:induction false} HeardStep(cfg: Config, s: Sta, now: int, e: Event, ap: MacAddress, s': Sta)
    requires Inv(s) && Possible(e) && s' == Next(cfg, s, now, e)
    ensures !IsBeaconOf(e, ap) ==> (ap in s'.heard <==> ap in s.heard)
    ensures !IsBeaconOf(e, ap) && ap in s.heard ==> s'.heard[ap] == s.heard[ap]
    ensures IsBeaconOf(e, ap) ==>
              && ap in s'.heard && s'.heard[ap].channels == e.channels && s'.heard[ap].lastRssi == e.rssi
              && s'.heard[ap].average == (if ap in s.heard then cfg.smooth(e.rssi, s.heard[ap].average) else e.rssi)
  {
  }

  /** For every run: an access point is known exactly if it sent a beacon of the station's network;
      its stored average is its beacons' strengths averaged in their order, its last strength and
      its channels are those of its last beacon. */
  lemma {:induction false} StoredIsHistory(cfg: Config, start: int, run: seq<Stamped>, ap: MacAddress,
                                           s: Sta, rs: seq<real>)
    requires Legal(run) && s == After(cfg, Initial(start), run) && rs == Strengths(run, ap)
    ensures ap in s.heard <==> rs != []
    ensures rs != [] ==>
              && s.heard[ap].average == Averaged(cfg.smooth, rs) && s.heard[ap].lastRssi == rs[|rs| - 1]
              && s.heard[ap].channels == LastChannels(run, ap)
  {
    if run != [] {
      var n := |run| - 1;
      var u, before := After(cfg, Initial(start), run[..n]), Strengths(run[..n], ap);
      StoredIsHistory(cfg, start, run[..n], ap, u, before);
      HeardStep(cfg, u, run[n].now, run[n].event, ap, s);
      if IsBeaconOf(run[n].event, ap) {
        assert rs == before + [run[n].event.rssi] && rs[..|before|] == before;
        if before != [] {
          assert Averaged(cfg.smooth, rs) == cfg.smooth(run[n].event.rssi, Averaged(cfg.smooth, before));
        }
      } else {
        assert rs == before;
      }
    }
  }

  // ---------------------------------------------------------------------------------
  // The choice

  /** An access point that a station without one may go to. */
  predicate Acceptable(cfg: Config, heard: Heard, ap: MacAddress) {
    ap in heard && heard[ap].average > cfg.lowest && heard[ap].average >= cfg.associationThreshold
  }

  /** One is chosen if and only if there is an acceptable one, and it is the best of these. */
  lemma {:induction false} ChosenIff(cfg: Config, heard: Heard, ap: MacAddress)
    requires INVALID !in heard && ap == Chosen(cfg, heard)
    ensures ap == INVALID <==> forall k :: k in heard ==> !Acceptable(cfg, heard, k)
    ensures ap != INVALID ==>
              && Acceptable(cfg, heard, ap)
              && forall k :: k in heard ==>
                   heard[k].average < heard[ap].average || (heard[k].average == heard[ap].average && ap <= k)
  {
    var best := Best(heard, cfg.lowest);
    assert IsBest(heard, cfg.lowest, best);
  }

  /** An access point whose beacons, averaged in order, are strong enough to go to. */
  predicate Attracts(cfg: Config, run: seq<Stamped>, ap: MacAddress) {
    var rs := Strengths(run, ap);
    && rs != []
    && Averaged(cfg.smooth, rs) > cfg.lowest && Averaged(cfg.smooth, rs) >= cfg.associationThreshold
  }

  lemma {:induction false} AttractsIff(cfg: Config, start: int, run: seq<Stamped>, ap: MacAddress)
    requires Legal(run)
    ensures Attracts(cfg, run, ap) <==> Acceptable(cfg, After(cfg, Initial(start), run).heard, ap)
  {
    StoredIsHistory(cfg, start, run, ap, After(cfg, Initial(start), run), Strengths(run, ap));
  }

  /** At the deciding timeout of any run the station goes to an access point if and only if some
      access point's beacons were strong enough; it is then the one with the highest average, the
      lowest address deciding, and the radio is on the channels its last beacon told of. */
  lemma {:induction false} DecisionIsHistory(cfg: Config, start: int, run: seq<Stamped>, now: int, s: Sta, s': Sta)
    requires Legal(run) && s == After(cfg, Initial(start), run) && s' == Next(cfg, s, now, Timer)
    requires !s.phase.Online? && Patience(cfg, s.phase) == 1
    ensures s'.phase == Scanning(1) <==> forall k :: !Attracts(cfg, run, k)
    ensures s'.phase != Scanning(1) ==>
              && s'.phase.Authenticating? && Attracts(cfg, run, s'.phase.ap)
              && s'.tuned == LastChannels(run, s'.phase.ap)
              && forall k :: Strengths(run, k) != [] ==>
                   var a := Averaged(cfg.smooth, Strengths(run, k));
                   var b := Averaged(cfg.smooth, Strengths(run, s'.phase.ap));
                   a < b || (a == b && s'.phase.ap <= k)
  {
    var ap := Chosen(cfg, s.heard);
    LastTimeout(cfg, s, now);
    ChosenIff(cfg, s.heard, ap);
    forall k
      ensures Attracts(cfg, run, k) <==> Acceptable(cfg, s.heard, k)
    {
      AttractsIff(cfg, start, run, k);
    }
    if ap != INVALID {
      StoredIsHistory(cfg, start, run, ap, s, Strengths(run, ap));
      forall k | Strengths(run, k) != []
        ensures var a, b := Averaged(cfg.smooth, Strengths(run, k)), Averaged(cfg.smooth, Strengths(run, ap));
                a < b || (a == b && ap <= k)
      {
        StoredIsHistory(cfg, start, run, k, s, Strengths(run, k));
      }
    }
  }

  // ---------------------------------------------------------------------------------
  // The handshake completes

  /** Two runs that reach the same state do the same on one more event. */
  lemma {:induction false} SameStep(cfg: Config, s: Sta, a: seq<Stamped>, t: Sta, b: seq<Stamped>, x: Stamped)
    returns (out: seq<Action>)
    requires Inv(s) && Inv(t) && Legal(a) && Legal(b) && Possible(x.event) && After(cfg, s, a) == After(cfg, t, b)
    ensures Legal(a + [x]) && Legal(b + [x]) && After(cfg, s, a + [x]) == After(cfg, t, b + [x])
    ensures Outputs(cfg, s, a + [x]) == Outputs(cfg, s, a) + out
    ensures Outputs(cfg, t, b + [x]) == Outputs(cfg, t, b) + out
  {
    assert (a + [x])[..|a|] == a && (b + [x])[..|b|] == b;
    out := Output(cfg, After(cfg, s, a), x.now, x.event);
  }

  /** One run after another. */
  lemma {:induction false} RunConcat(cfg: Config, s: Sta, a: seq<Stamped>, t: Sta, b: seq<Stamped>, u: Sta)
    requires Inv(s) && Legal(a) && t == After(cfg, s, a) && Legal(b) && u == After(cfg, t, b)
    ensures Legal(a + b) && After(cfg, s, a + b) == u
    ensures Outputs(cfg, s, a + b) == Outputs(cfg, s, a) + Outputs(cfg, t, b)
    decreases |b|
  {
    if b == [] {
      assert a + b == a;
    } else {
      var b', x := b[..|b| - 1], b[|b| - 1];
      RunConcat(cfg, s, a, t, b', After(cfg, t, b'));
      var out := SameStep(cfg, s, a + b', t, b', x);
      Regrouped(a, b, b', x);
      Grouped(Outputs(cfg, s, a), Outputs(cfg, t, b'), out);
    }
  }

  lemma {:induction false} Regrouped(a: seq<Stamped>, b: seq<Stamped>, b': seq<Stamped>, x: Stamped)
    requires b != [] && b' == b[..|b| - 1] && x == b[|b| - 1]
    ensures a + b == (a + b') + [x] && b == b' + [x]
  {
  }

  lemma {:induction false} Grouped(a: seq<Action>, b: seq<Action>, c: seq<Action>)
    ensures (a + b) + c == a + (b + c)
  {
  }

  lemma {:induction false} RunOfOne(cfg: Config, s: Sta, x: Stamped, run: seq<Stamped>)
    requires Inv(s) && Possible(x.event) && run == [x]
    ensures After(cfg, s, run) == Next(cfg, s, x.now, x.event) && Outputs(cfg, s, run) == Output(cfg, s, x.now, x.event)
  {
    assert run[..0] == [];
  }

  /** Frames that a station waiting for `answer` takes no step on: anything but its timeout, an
      authentication frame, and a positive answer from the access point. */
  predicate Unanswered(run: seq<Stamped>, ap: MacAddress) {
    forall i :: 0 <= i < |run| ==>
      && Possible(run[i].event) && !run[i].event.Timer? && !run[i].event.AuthenticationFrame?
      && (run[i].event.AssociationResponse? ==> run[i].event.from != ap)
  }

  lemma {:induction false} WaitingIsQuiet(cfg: Config, s: Sta, run: seq<Stamped>, ap: MacAddress)
    requires Inv(s) && Unanswered(run, ap) && (s.phase == Authenticating(ap) || s.phase == Associating(ap))
    ensures After(cfg, s, run).phase == s.phase && Outputs(cfg, s, run) == []
  {
    if run != [] {
      var n := |run| - 1;
      WaitingIsQuiet(cfg, s, run[..n], ap);
    }
  }

  lemma {:induction false} AnswerTaken(cfg: Config, s: Sta, ap: MacAddress, quiet: seq<Stamped>, x: Stamped,
                                       run: seq<Stamped>)
    requires Inv(s) && Unanswered(quiet, ap) && (s.phase == Authenticating(ap) || s.phase == Associating(ap))
    requires Possible(x.event) && run == quiet + [x]
    ensures After(cfg, s, quiet).phase == s.phase
    ensures After(cfg, s, run) == Next(cfg, After(cfg, s, quiet), x.now, x.event)
    ensures Outputs(cfg, s, run) == Output(cfg, After(cfg, s, quiet), x.now, x.event)
  {
    var t := After(cfg, s, quiet);
    WaitingIsQuiet(cfg, s, quiet, ap);
    RunOfOne(cfg, t, x, [x]);
    RunConcat(cfg, s, quiet, t, [x], After(cfg, t, [x]));
  }

  /** An authentication frame and then a positive response of the access point, before the timeouts
      and with any other frames in between, bring the station online there with the granted id; it
      sends the one request and reports the link once. */
  lemma {:induction false} HandshakeCompletes(cfg: Config, s: Sta, ap: MacAddress, id: nat, q1: seq<Stamped>, t1: int,
                                              q2: seq<Stamped>, t2: int, run: seq<Stamped>)
    requires Inv(s) && s.phase == Authenticating(ap) && Unanswered(q1, ap) && Unanswered(q2, ap)
    requires run == q1 + [Stamped(t1, AuthenticationFrame)] + q2 + [Stamped(t2, AssociationResponse(ap, id))]
    ensures Legal(run) && After(cfg, s, run).phase == Online(ap)
    ensures After(cfg, s, run).associationId == id && After(cfg, s, run).due == t2 + cfg.linkCheckInterval
    ensures Outputs(cfg, s, run) == [SendAssociationRequest(ap), LinkUp]
  {
    var x, y := Stamped(t1, AuthenticationFrame), Stamped(t2, AssociationResponse(ap, id));
    var a, b := q1 + [x], q2 + [y];
    AnswerTaken(cfg, s, ap, q1, x, a);
    var t := After(cfg, s, a);
    AnswerTaken(cfg, t, ap, q2, y, b);
    RunConcat(cfg, s, a, t, b, After(cfg, t, b));
    assert run == a + b;
  }

  // ---------------------------------------------------------------------------------
  // How it came online, and how that ends

  /** The response at place `i` brought the station online, and it has been since. */
  ghost predicate JoinsAt(cfg: Config, start: int, run: seq<Stamped>, i: int, ap: MacAddress, id: nat)
    requires Legal(run)
  {
    && 0 <= i < |run| && run[i].event == AssociationResponse(ap, id)
    && After(cfg, Initial(start), run[..i]).phase == Associating(ap)
    && forall j :: i < j <= |run| ==> After(cfg, Initial(start), run[..j]).phase == Online(ap)
  }

  lemma {:induction false} OnlineStep(cfg: Config, s: Sta, now: int, e: Event, ap: MacAddress, s': Sta)
    requires Inv(s) && Possible(e) && s' == Next(cfg, s, now, e) && s'.phase == Online(ap)
    ensures (s.phase == Online(ap) && s'.associationId == s.associationId) ||
            (s.phase == Associating(ap) && e == AssociationResponse(ap, s'.associationId))
  {
  }

  /** For every run: if the station is online, a response of that access point to its request
      brought it there, the association id is the one of that response, and it has been online
      with it ever since. */
  lemma {:induction false} OnlineSince(cfg: Config, start: int, run: seq<Stamped>, ap: MacAddress) returns (i: int)
    requires Legal(run) && After(cfg, Initial(start), run).phase == Online(ap)
    ensures JoinsAt(cfg, start, run, i, ap, After(cfg, Initial(start), run).associationId)
  {
    var n := |run| - 1;
    var before := run[..n];
    OnlineStep(cfg, After(cfg, Initial(start), before), run[n].now, run[n].event, ap, After(cfg, Initial(start), run));
    assert run[..|run|] == run;
    if After(cfg, Initial(start), before).phase == Online(ap) {
      i := OnlineSince(cfg, start, before, ap);
      assert before[..i] == run[..i];
      forall j | i < j <= |run|
        ensures After(cfg, Initial(start), run[..j]).phase == Online(ap)
      {
        if j <= n {
          assert before[..j] == run[..j];
        }
      }
    } else {
      i := n;
    }
  }

  predicate HasAp(p: Phase) {
    p.Authenticating? || p.Associating? || p.Online?
  }

  lemma {:induction false} ApIsHeard(cfg: Config, start: int, run: seq<Stamped>)
    requires Legal(run) && HasAp(After(cfg, Initial(start), run).phase)
    ensures After(cfg, Initial(start), run).phase.ap in After(cfg, Initial(start), run).heard
  {
    var n := |run| - 1;
    var u := After(cfg, Initial(start), run[..n]);
    if HasAp(u.phase) {
      ApIsHeard(cfg, start, run[..n]);
    }
    ApStaysHeard(cfg, u, run[n].now, run[n].event, After(cfg, Initial(start), run));
  }

  lemma {:induction false} ApStaysHeard(cfg: Config, u: Sta, now: int, e: Event, s: Sta)
    requires Inv(u) && Possible(e) && s == Next(cfg, u, now, e)
    requires HasAp(u.phase) ==> u.phase.ap in u.heard
    ensures HasAp(s.phase) ==> s.phase.ap in s.heard
  {
  }

  /** What ends an association: a link check after a silent interval, a disassociation frame of the
      access point, or one beacon of it too many whose average is below the threshold. */
  predicate Ends(cfg: Config, run: seq<Stamped>, ap: MacAddress, x: Stamped) {
    match x.event
    case Timer => LastBeacon(run, ap) == Never || LastBeacon(run, ap).when + cfg.linkCheckInterval < x.now
    case Disassociation(from) => from == ap
    case Beacon(from, matches, _, rssi) =>
      from == ap && matches &&
      Averaged(cfg.smooth, Strengths(run, ap) + [rssi]) < cfg.disassociationThreshold
    case _ => false
  }

  lemma {:induction false} AveragedMore(smooth: (real, real) -> real, rs: seq<real>, r: real)
    requires rs != []
    ensures Averaged(smooth, rs + [r]) == smooth(r, Averaged(smooth, rs))
  {
    assert (rs + [r])[..|rs|] == rs;
  }

  /** For every run of a station that is online: exactly these end it.  Then the access point is
      remembered; on its own frame the station says nothing to it and scans at once, otherwise it
      takes its leave of it and scans after the delay. */
  lemma {:induction false} OnlineEndsIff(cfg: Config, start: int, run: seq<Stamped>, x: Stamped, s: Sta, s': Sta,
                                         ap: MacAddress)
    requires Legal(run) && Possible(x.event) && s == After(cfg, Initial(start), run) && s.phase == Online(ap)
    requires s' == Next(cfg, s, x.now, x.event)
    ensures s'.phase == if Ends(cfg, run, ap, x) then Idle else Online(ap)
    ensures Ends(cfg, run, ap, x) ==>
              && s'.lastAp == ap
              && s'.due == x.now + (if x.event.Disassociation? then 0 else cfg.scanningStartDelay)
              && Output(cfg, s, x.now, x.event) ==
                 if x.event.Disassociation? then [LinkDown] else [RequeuePackets, SendDisassociation(ap), LinkDown]
    ensures !Ends(cfg, run, ap, x) ==> Output(cfg, s, x.now, x.event) == []
  {
    ApIsHeard(cfg, start, run);
    HeardIsHistory(cfg, start, run, ap);
    StoredIsHistory(cfg, start, run, ap, s, Strengths(run, ap));
    if x.event.Beacon? {
      AveragedMore(cfg.smooth, Strengths(run, ap), x.event.rssi);
    }
  }

  // ---------------------------------------------------------------------------------
  // The rest of the state

  /** How long the timer of a phase runs when `e` sets it. */
  function Interval(cfg: Config, p: Phase, e: Event): int {
    match p
    case Idle => if e.Disassociation? then 0 else cfg.scanningStartDelay
    case Scanning(_) => cfg.scanTimeout
    case Authenticating(_) => cfg.authenticationTimeout
    case Associating(_) => cfg.associateFailureTimeout
    case Online(_) => cfg.linkCheckInterval
  }

  /** The timer is set anew by every timeout and every change of phase, and by nothing else. */
  lemma {:induction false} TimerIsSet(cfg: Config, s: Sta, now: int, e: Event, s': Sta)
    requires Inv(s) && Possible(e) && s' == Next(cfg, s, now, e)
    ensures s'.due == if e.Timer? || s'.phase != s.phase then now + Interval(cfg, s'.phase, e) else s.due
  {
  }

  /** A station that waits for anything but a scan's timeout starts a new scan at its timeout. */
  lemma {:induction false} TimeoutStartsScan(cfg: Config, s: Sta, now: int, s': Sta)
    requires Inv(s) && s' == Next(cfg, s, now, Timer) && !s.phase.Scanning? && !s.phase.Online?
    ensures s'.phase == Scanning(1) && Output(cfg, s, now, Timer) == [TuneTo([0])]
    ensures s'.heard == s.heard && s'.lastAp == s.lastAp && s'.associationId == s.associationId
  {
  }

  /** Frames that are none of the station's business in its phase change nothing. */
  lemma {:induction false} OthersAreIgnored(cfg: Config, s: Sta, now: int, e: Event)
    requires Inv(s) && Possible(e) && !e.Timer? && !(e.Beacon? && e.ssidMatches)
    requires e.AuthenticationFrame? ==> !s.phase.Authenticating?
    requires e.AssociationResponse? ==> s.phase != Associating(e.from)
    requires e.Disassociation? ==> s.phase != Online(e.from)
    ensures Next(cfg, s, now, e) == s && Output(cfg, s, now, e) == []
  {
  }

  /** A beacon that does not end the association changes nothing but what is heard. */
  lemma {:induction false} BeaconsOnlyInform(cfg: Config, s: Sta, now: int, e: Event, s': Sta)
    requires Inv(s) && Possible(e) && e.Beacon? && s' == Next(cfg, s, now, e) && s'.phase == s.phase
    ensures s' == s.(heard := s'.heard) && Output(cfg, s, now, e) == []
  {
  }

  /** The access point that was last left; forgotten when an authentication starts. */
  lemma {:induction false} LastApIs(cfg: Config, s: Sta, now: int, e: Event, s': Sta)
    requires Inv(s) && Possible(e) && s' == Next(cfg, s, now, e)
    ensures s'.lastAp == if s.phase.Online? && !s'.phase.Online? then s.phase.ap
                         else if s'.phase.Authenticating? && !s.phase.Authenticating? then INVALID
                         else s.lastAp
  {
  }

  function LastTuned(actions: seq<Action>): seq<nat> {
    if actions == [] then []
    else
      var n := |actions| - 1;
      if actions[n].TuneTo? then actions[n].channels else LastTuned(actions[..n])
  }

  predicate Tunes(actions: seq<Action>) {
    exists i :: 0 <= i < |actions| && actions[i].TuneTo?
  }

  lemma {:induction false} LastTunedConcat(a: seq<Action>, b: seq<Action>)
    ensures LastTuned(a + b) == if Tunes(b) then LastTuned(b) else LastTuned(a)
  {
    if b == [] {
      assert a + b == a;
    } else {
      var n := |b| - 1;
      LastTunedConcat(a, b[..n]);
      assert (a + b)[..|a| + n] == a + b[..n];
      assert forall i :: 0 <= i < n ==> b[..n][i] == b[i];
    }
  }

  lemma {:induction false} LastTunedOfShort(out: seq<Action>)
    requires |out| <= 3 && (|out| == 3 ==> !out[0].TuneTo? && !out[2].TuneTo?) && |out| != 2
    ensures Tunes(out) <==> (|out| == 1 && out[0].TuneTo?) || (|out| == 3 && out[1].TuneTo?)
    ensures Tunes(out) ==> LastTuned(out) == if |out| == 1 then out[0].channels else out[1].channels
  {
    if |out| == 3 && out[1].TuneTo? {
      assert out[..2][1] == out[1];
      assert Tunes(out);
    }
    if |out| == 1 && out[0].TuneTo? {
      assert Tunes(out);
    }
  }

  lemma {:induction false} TunedStep(cfg: Config, s: Sta, now: int, e: Event, s': Sta, out: seq<Action>)
    requires Inv(s) && Possible(e) && s' == Next(cfg, s, now, e) && out == Output(cfg, s, now, e)
    ensures s'.tuned == if Tunes(out) then LastTuned(out) else s.tuned
  {
    LastTunedOfShort(out);
  }

  /** For every run, the radio is where it was last tuned to. */
  lemma {:induction false} TunedIsLast(cfg: Config, start: int, run: seq<Stamped>)
    requires Legal(run)
    ensures After(cfg, Initial(start), run).tuned == LastTuned(Outputs(cfg, Initial(start), run))
  {
    if run != [] {
      var n := |run| - 1;
      var s := After(cfg, Initial(start), run[..n]);
      var out := Output(cfg, s, run[n].now, run[n].event);
      TunedIsLast(cfg, start, run[..n]);
      TunedStep(cfg, s, run[n].now, run[n].event, After(cfg, Initial(start), run), out);
      LastTunedConcat(Outputs(cfg, Initial(start), run[..n]), out);
    }
  }
}
