/** The station's two objects over whole runs. */
module StaReplay {
  import opened StaSpec
  import opened StaRuns
  import opened StaController

  /** Timers come when they are due. */
  ghost predicate OnTime(cfg: Config, s: Sta, run: seq<Stamped>)
    requires Inv(s) && Legal(run)
  {
    forall i :: 0 <= i < |run| && run[i].event.Timer? ==> run[i].now == After(cfg, s, run[..i]).due
  }

  lemma {:induction false} OneMore(cfg: Config, s: Sta, run: seq<Stamped>, i: nat)
    requires Inv(s) && Legal(run) && i < |run|
    ensures After(cfg, s, run[..i + 1]) == Next(cfg, After(cfg, s, run[..i]), run[i].now, run[i].event)
    ensures Outputs(cfg, s, run[..i + 1]) ==
            Outputs(cfg, s, run[..i]) + Output(cfg, After(cfg, s, run[..i]), run[i].now, run[i].event)
  {
    assert run[..i + 1][..i] == run[..i];
  }

  /** What the engine and the radio do to one station over a whole run: whatever is pending is
      fired when it is due, and frames come at any time.  The two objects go through exactly the
      states of the five-phase machine. */
  method Replay(station: StaManagementController, ghost s: Sta, run: seq<Stamped>)
    requires station.Valid() && s == AbsOf(station.View()) && station.actions == []
    requires Legal(run) && OnTime(station.cfg, s, run)
    modifies station, station.scanner
    ensures station.Valid() && AbsOf(station.View()) == After(station.cfg, s, run)
    ensures station.actions == Outputs(station.cfg, s, run)
  {
    for i := 0 to |run|
      invariant station.Valid() && AbsOf(station.View()) == After(station.cfg, s, run[..i])
      invariant station.actions == Outputs(station.cfg, s, run[..i])
    {
      OneMore(station.cfg, s, run, i);
      Turn(station, station.View(), run[i]);
    }
    assert run[..|run|] == run;
  }

  method Turn(station: StaManagementController, ghost v: Snapshot, x: Stamped)
    requires station.Valid() && v == station.View() && Possible(x.event)
    requires x.event.Timer? ==> x.now == v.due
    modifies station, station.scanner
    ensures station.Valid() && AbsOf(station.View()) == Next(station.cfg, AbsOf(v), x.now, x.event)
    ensures station.actions == old(station.actions) + Output(station.cfg, AbsOf(v), x.now, x.event)
  {
    if x.event.Timer? {
      assert Scheduled(KindOf(v.state), v.due) in station.engine.pending;
      var due :| due in station.engine.pending;
      station.Fire(due, v);
    } else {
      station.ProcessManagementFrame(v, x.event, x.now);
    }
  }

  /** A whole life of a station, from its construction.  The network layer was told "up" and
      "down" strictly in turn and knows whether the station is online; if it is, the last
      handshake was with its access point; and neither a reassociation request nor a power-save
      announcement was ever sent. */
  method ReplayFromStart(cfg: Config, start: int, run: seq<Stamped>) returns (station: StaManagementController)
    requires cfg.numberOfChannels >= 1 && Legal(run) && OnTime(cfg, Initial(start), run)
    ensures fresh(station) && station.Valid()
    ensures AbsOf(station.View()) == After(cfg, Initial(start), run)
    ensures Sensible(station.actions, PhaseOf(station.View()))
  {
    station := new StaManagementController(cfg, start);
    Replay(station, Initial(start), run);
    EveryRunIsSensible(cfg, start, run, station.actions, PhaseOf(station.View()));
  }
}
