/** One link of a receiver over whole runs: what the program's buffer does, with no assumption but
    that numbers are in range and no number taken without data is drained over. */
module ReorderReplay {
  import opened SequenceNumbers
  import opened ReorderSpec
  import opened ReorderSafety
  import opened IncomingBuffer

  // ---------------------------------------------------------------------------------
  // Before a session

  predicate AllFrames<F>(es: seq<Event<F>>) {
    forall i :: 0 <= i < |es| ==> es[i].Frame?
  }

  /** The repetition filter after some frames without a session. */
  function IdleAfter<F>(lowest: nat, es: seq<Event<F>>): nat {
    if es == [] then lowest
    else
      var l := IdleAfter(lowest, es[..|es| - 1]);
      AfterFilter(l, ToNonWrapping(l, es[|es| - 1].header))
  }

  /** The data frames that pass the filter, with the numbers they are taken for. */
  function IdleStream<F>(lowest: nat, es: seq<Event<F>>): seq<Held<F>>
    requires AllFrames(es)
  {
    if es == [] then []
    else
      var before, e := es[..|es| - 1], es[|es| - 1];
      IdleStream(lowest, before) + IdleOutput(IdleAfter(lowest, before), e)
  }

  function IdleOutput<F>(lowest: nat, e: Event<F>): seq<Held<F>>
    requires e.Frame?
  {
    var n := ToNonWrapping(lowest, e.header);
    if n >= lowest && e.arrival.Data? then [Held(n, e.arrival.frame)] else []
  }

  /** One more than the greatest of some numbers, at least `lowest`. */
  function Above(lowest: nat, ns: seq<int>): nat {
    if ns == [] then lowest
    else
      var l := Above(lowest, ns[..|ns| - 1]);
      if ns[|ns| - 1] < l then l else ns[|ns| - 1] + 1
  }

  lemma {:induction false} AboveIsBound(lowest: nat, ns: seq<int>, x: int)
    requires x >= lowest
    ensures x >= Above(lowest, ns) <==> forall i :: 0 <= i < |ns| ==> ns[i] < x
  {
    if ns != [] {
      AboveIsBound(lowest, ns[..|ns| - 1], x);
      assert forall i :: 0 <= i < |ns| - 1 ==> ns[..|ns| - 1][i] == ns[i];
    }
  }

  /** The number each frame is taken for: decoded next to one more than the greatest so far. */
  function IdleNumbers<F>(lowest: nat, es: seq<Event<F>>): (ns: seq<int>)
    ensures |ns| == |es|
  {
    if es == [] then []
    else
      var before := IdleNumbers(lowest, es[..|es| - 1]);
      before + [ToNonWrapping(Above(lowest, before), es[|es| - 1].header)]
  }

  lemma {:induction false} CounterIsAbove<F>(lowest: nat, es: seq<Event<F>>)
    ensures IdleAfter(lowest, es) == Above(lowest, IdleNumbers(lowest, es))
  {
    if es != [] {
      CounterIsAbove(lowest, es[..|es| - 1]);
      var ns, before := IdleNumbers(lowest, es), IdleNumbers(lowest, es[..|es| - 1]);
      assert ns[..|ns| - 1] == before;
    }
  }

  /** Frame `i` of some carries `h`, whose number is not below the link's first and is greater than
      that of every frame before it, with data or without. */
  ghost predicate Passes<F>(lowest: nat, es: seq<Event<F>>, ns: seq<int>, i: int, h: Held<F>)
    requires |ns| == |es|
  {
    && 0 <= i < |es| && es[i].Frame? && es[i].arrival == Data(h.frame) && ns[i] == h.number >= lowest
    && forall j :: 0 <= j < i ==> ns[j] < h.number
  }

  ghost predicate SomePasses<F>(lowest: nat, es: seq<Event<F>>, ns: seq<int>, h: Held<F>)
    requires |ns| == |es|
  {
    exists i :: Passes(lowest, es, ns, i, h)
  }

  lemma {:induction false} PassesByLast<F>(lowest: nat, es: seq<Event<F>>, ns: seq<int>, h: Held<F>)
    requires |ns| == |es| > 0
    ensures SomePasses(lowest, es, ns, h) <==>
            SomePasses(lowest, es[..|es| - 1], ns[..|es| - 1], h) || Passes(lowest, es, ns, |es| - 1, h)
  {
    var m := |es| - 1;
    forall i | 0 <= i < m
      ensures Passes(lowest, es, ns, i, h) <==> Passes(lowest, es[..m], ns[..m], i, h)
    {
      assert es[..m][i] == es[i] && ns[..m][i] == ns[i];
      assert forall j :: 0 <= j < i ==> ns[..m][j] == ns[j];
    }
    if i :| Passes(lowest, es, ns, i, h) && i < m {
      assert Passes(lowest, es[..m], ns[..m], i, h);
    }
    if i :| Passes(lowest, es[..m], ns[..m], i, h) {
      assert Passes(lowest, es, ns, i, h);
    }
  }

  lemma {:induction false} LastPasses<F>(lowest: nat, es: seq<Event<F>>, ns: seq<int>, h: Held<F>)
    requires |ns| == |es| > 0 && es[|es| - 1].Frame?
    requires ns[|es| - 1] == ToNonWrapping(Above(lowest, ns[..|es| - 1]), es[|es| - 1].header)
    ensures Passes(lowest, es, ns, |es| - 1, h) <==>
            h in IdleOutput(Above(lowest, ns[..|es| - 1]), es[|es| - 1])
  {
    var m := |es| - 1;
    assert forall j :: 0 <= j < m ==> ns[..m][j] == ns[j];
    AboveAtLeast(lowest, ns[..m]);
    if h.number >= lowest {
      AboveIsBound(lowest, ns[..m], h.number);
    }
  }

  lemma {:induction false} AboveAtLeast(lowest: nat, ns: seq<int>)
    ensures Above(lowest, ns) >= lowest
  {
    if ns != [] {
      AboveAtLeast(lowest, ns[..|ns| - 1]);
    }
  }

  /** Without a session exactly the frames that pass are handed up. */
  lemma {:induction false} IdleStreamIs<F>(lowest: nat, es: seq<Event<F>>, ns: seq<int>, h: Held<F>)
    requires AllFrames(es) && ns == IdleNumbers(lowest, es)
    ensures h in IdleStream(lowest, es) <==> SomePasses(lowest, es, ns, h)
  {
    if es != [] {
      var m := |es| - 1;
      assert ns[..m] == IdleNumbers(lowest, es[..m]);
      IdleStreamIs(lowest, es[..m], ns[..m], h);
      CounterIsAbove(lowest, es[..m]);
      LastPasses(lowest, es, ns, h);
      PassesByLast(lowest, es, ns, h);
    }
  }

  /** Without a session, too, the numbers handed up only rise: no repetition passes. */
  lemma {:induction false} IdleStreamIncreases<F>(lowest: nat, es: seq<Event<F>>)
    requires AllFrames(es)
    ensures Increasing(IdleStream(lowest, es)) && lowest <= IdleAfter(lowest, es)
    ensures forall h :: h in IdleStream(lowest, es) ==> lowest <= h.number < IdleAfter(lowest, es)
  {
    if es != [] {
      var before := es[..|es| - 1];
      IdleStreamIncreases(lowest, before);
      var past := IdleStream(lowest, before);
      forall i | 0 <= i < |past|
        ensures past[i].number < IdleAfter(lowest, before)
      {
        assert past[i] in IdleStream(lowest, before);
      }
    }
  }

  // ---------------------------------------------------------------------------------
  // Across the opening of a session

  /** The numbers of held frames, moved by `d`. */
  function Numbers<F>(q: seq<Held<F>>, d: int): seq<int> {
    seq(|q|, i requires 0 <= i < |q| => q[i].number + d)
  }

  predicate Rising(ns: seq<int>) {
    forall i, j :: 0 <= i < j < |ns| ==> ns[i] < ns[j]
  }

  /** How far the numbers of a session that begins at `begun` are from those of the idle link: the
      session counts from the header's twelve bits, the link from its counter. */
  function Shift(counter: nat, begun: SeqNum): int {
    ToNonWrapping(counter, begun) - begun
  }

  /** The numbers of all that a link hands up, in the idle link's count. */
  ghost function LinkNumbers<F>(counter: nat, idle: seq<Held<F>>, begun: SeqNum, es: seq<Event<F>>): seq<int>
    requires Run(Fresh(begun), es)
  {
    Numbers(idle, 0) + Numbers(Stream(Fresh(begun), es), Shift(counter, begun))
  }

  /** Whatever the session brings, numbers only rise, across its opening as well. */
  ghost predicate AlwaysRises<F(!new)>(counter: nat, idle: seq<Held<F>>, begun: SeqNum) {
    forall es: seq<Event<F>> :: Run(Fresh(begun), es) ==> Rising(LinkNumbers(counter, idle, begun, es))
  }

  lemma {:induction false} RisingConcat<F>(p: seq<Held<F>>, q: seq<Held<F>>, d: int, least: int)
    requires Increasing(p) && Increasing(q) && forall h :: h in q ==> least <= h.number
    requires p == [] || p[|p| - 1].number < least + d
    ensures Rising(Numbers(p, 0) + Numbers(q, d))
  {
    var a, b := Numbers(p, 0), Numbers(q, d);
    assert forall j :: 0 <= j < |q| ==> q[j] in q;
    forall i, j | 0 <= i < j < |a + b|
      ensures (a + b)[i] < (a + b)[j]
    {
      if i < |a| <= j {
        assert p[i].number <= p[|p| - 1].number;
        assert (a + b)[j] == q[j - |a|].number + d;
      }
    }
  }

  lemma {:induction false} StreamBegins<F>(begun: nat, es: seq<Event<F>>)
    requires Run(Fresh(begun), es)
    ensures Increasing(Stream(Fresh(begun), es)) && forall h :: h in Stream(Fresh(begun), es) ==> begun <= h.number
  {
    var t := After(Fresh<F>(begun), es);
    StreamIsLog(begun, es);
    FramesExact(t.log, begun, t.lowest);
  }

  /** The opening number is above the last number handed up before. */
  predicate OpensAbove<F>(counter: nat, idle: seq<Held<F>>, begun: SeqNum) {
    idle == [] || idle[|idle| - 1].number < ToNonWrapping(counter, begun)
  }

  lemma {:induction false} LinkRises<F>(counter: nat, idle: seq<Held<F>>, begun: SeqNum, es: seq<Event<F>>)
    requires Increasing(idle) && Run(Fresh(begun), es) && OpensAbove(counter, idle, begun)
    ensures Rising(LinkNumbers(counter, idle, begun, es))
  {
    StreamBegins(begun, es);
    RisingConcat(idle, Stream(Fresh(begun), es), Shift(counter, begun), begun);
  }

  /** A session whose first event is its opening number's frame hands it up at once. */
  lemma {:induction false} FirstFrame<F>(begun: SeqNum, f: F, es: seq<Event<F>>)
    requires es == [Frame(begun, Data(f))]
    ensures Run(Fresh(begun), es) && Stream(Fresh(begun), es) == [Held(begun, f)]
  {
    var s, e, before := Fresh<F>(begun), es[0], es[..|es| - 1];
    assert before == [] && Run(s, before) && After(s, before) == s && Stream(s, before) == [];
    assert ToHeader(begun) == begun;
    AcceptedNumbersDecode(s, e, begun);
    var t := AfterArrival(s, begun, Data(f));
    assert t.log == map[begun := Data(f)];
    assert begun in t.log && begun + 1 !in t.log && t.lowest == begun + 1;
    assert Frames(t.log, begun, begun + 1) == [Held(begun, f)] + Frames(t.log, begun + 1, begun + 1);
    assert Output(s, e) == [Held(begun, f)];
  }

  /** Numbers rise across the opening of a session, whatever the session brings, if and only if the
      opening number, decoded near the idle counter, is above the last number handed up before. */
  lemma {:induction false} OpeningIff<F(!new)>(lowest: nat, es: seq<Event<F>>, begun: SeqNum,
                                               counter: nat, idle: seq<Held<F>>)
    requires AllFrames(es) && counter == IdleAfter(lowest, es) && idle == IdleStream(lowest, es)
    ensures AlwaysRises(counter, idle, begun) <==> OpensAbove(counter, idle, begun)
  {
    IdleStreamIncreases(lowest, es);
    if OpensAbove(counter, idle, begun) {
      forall later: seq<Event<F>> | Run(Fresh(begun), later)
        ensures Rising(LinkNumbers(counter, idle, begun, later))
      {
        LinkRises(counter, idle, begun, later);
      }
    } else {
      var later := [Frame(begun, Data(idle[0].frame))];
      FirstFrame(begun, idle[0].frame, later);
      var all := LinkNumbers(counter, idle, begun, later);
      assert all[|idle| - 1] == idle[|idle| - 1].number && all[|idle|] == ToNonWrapping(counter, begun);
    }
  }

  /** So they rise if the opening number is not below the counter; and only then, if the counter
      stands right behind the last number handed up. */
  lemma {:induction false} OpeningAtCounter<F(!new)>(lowest: nat, es: seq<Event<F>>, begun: SeqNum,
                                                     counter: nat, idle: seq<Held<F>>)
    requires AllFrames(es) && counter == IdleAfter(lowest, es) && idle == IdleStream(lowest, es)
    ensures ToNonWrapping(counter, begun) >= counter ==> AlwaysRises(counter, idle, begun)
    ensures idle != [] && idle[|idle| - 1].number + 1 == counter ==>
              (AlwaysRises(counter, idle, begun) <==> ToNonWrapping(counter, begun) >= counter)
  {
    OpeningIff(lowest, es, begun, counter, idle);
    CounterIsPast(lowest, es, counter, idle);
  }

  lemma {:induction false} CounterIsPast<F>(lowest: nat, es: seq<Event<F>>, counter: nat, idle: seq<Held<F>>)
    requires AllFrames(es) && counter == IdleAfter(lowest, es) && idle == IdleStream(lowest, es)
    ensures Increasing(idle) && (idle == [] || idle[|idle| - 1].number < counter)
  {
    IdleStreamIncreases(lowest, es);
    assert idle != [] ==> idle[|idle| - 1] in idle;
  }

  /** The expected frame alone. */
  lemma {:induction false} IdleOnce<F>(lowest: nat, h: SeqNum, f: F, es: seq<Event<F>>)
    requires es == [Frame(h, Data(f))] && ToNonWrapping(lowest, h) == lowest
    ensures IdleAfter(lowest, es) == lowest + 1 && IdleStream(lowest, es) == [Held(lowest, f)]
  {
    var before := es[..|es| - 1];
    assert before == [] && IdleAfter(lowest, before) == lowest && IdleStream(lowest, before) == [];
  }

  lemma {:induction false} NearTheCounter(n: SeqNum)
    ensures ToNonWrapping(n, n) == n && ToNonWrapping(n + 1, n) == n
  {
    assert ToHeader(n) == n;
    DecodeAfterTruncate(n, n);
    DecodeAfterTruncate(n + 1, n);
  }

  /** A request that opens the session at a number already handed up lets its frame through again:
      the frame of any number `n`, say 1 on a new link, then the request for `n`, then the same
      frame.  It is handed up twice, under the same number. */
  lemma {:induction false} OpeningRepeats<F>(n: SeqNum, f: F, es: seq<Event<F>>)
    requires es == [Frame(n, Data(f))]
    ensures IdleAfter(n, es) == n + 1 && IdleStream(n, es) == [Held(n, f)]
    ensures Run(Fresh(n), es) && Stream(Fresh(n), es) == [Held(n, f)] && Shift(n + 1, n) == 0
    ensures LinkNumbers(n + 1, IdleStream(n, es), n, es) == [n, n]
  {
    NearTheCounter(n);
    IdleOnce(n, n, f, es);
    FirstFrame(n, f, es);
    assert Numbers([Held(n, f)], 0) == [n as int];
  }

  // ---------------------------------------------------------------------------------
  // One event

  method IdleTurn<F>(buffer: IncomingFrameBuffer<F>, key: LinkKey, ghost lowest: nat, e: Event<F>) returns (up: seq<F>)
    requires buffer.Valid() && buffer.ViewOf(key) == Idle(lowest) && e.Frame?
    modifies buffer, buffer.linkInfoMap.Values
    ensures buffer.Valid() && buffer.OthersUnchanged(key) && buffer.OnlyAdds(key)
    ensures buffer.ViewOf(key) == Idle(AfterFilter(lowest, ToNonWrapping(lowest, e.header)))
    ensures up == Payloads(IdleOutput(lowest, e))
  {
    match e.arrival {
      case Data(frame) =>
        var inOrder, seen, released := buffer.ProcessIncomingFrame(frame, key, e.header);
        up := (if inOrder then [frame] else []) + released;
        PayloadsOfOne(IdleOutput(lowest, e));
      case NonData =>
        var seen, released := buffer.ProcessIncomingNonDataFrame(key, e.header);
        up := released;
    }
  }

  lemma {:induction false} PayloadsOfOne<F>(q: seq<Held<F>>)
    requires |q| <= 1
    ensures Payloads(q) == if q == [] then [] else [q[0].frame]
  {
    if q != [] {
      assert q[..0] == [];
    }
  }

  /** One event of a session, and what is handed up for it: a frame in order first, then the
      released ones. */
  method Turn<F>(buffer: IncomingFrameBuffer<F>, key: LinkKey, ghost s: Session<F>, e: Event<F>) returns (up: seq<F>)
    requires buffer.Valid() && Inv(s) && Enabled(s, e)
    requires key in buffer.linkInfoMap && buffer.ViewOf(key) == Active(s)
    modifies buffer, buffer.linkInfoMap.Values
    ensures buffer.Valid() && buffer.OthersUnchanged(key) && buffer.linkInfoMap == old(buffer.linkInfoMap)
    ensures buffer.ViewOf(key) == Active(Next(s, e)) && up == Payloads(Output(s, e))
  {
    match e {
      case Frame(header, arrival) =>
        match arrival {
          case Data(frame) =>
            var inOrder, seen, released := buffer.ProcessIncomingFrame(frame, key, header);
            up := (if inOrder then [frame] else []) + released;
          case NonData =>
            var seen, released := buffer.ProcessIncomingNonDataFrame(key, header);
            up := released;
        }
      case Request(header) => up := buffer.ProcessBlockAckRequestFrame(key, header);
    }
  }

  // ---------------------------------------------------------------------------------
  // Runs

  lemma {:induction false} SafePrefix<F>(s: Session<F>, es: seq<Event<F>>, i: nat, p: seq<Event<F>>)
    requires Inv(s) && Run(s, es) && Safe(s, es) && i <= |es| && p == es[..i]
    ensures Run(s, p) && Safe(s, p)
    decreases |es|
  {
    if i == |es| {
      assert p == es;
    } else {
      var before := es[..|es| - 1];
      assert p == before[..i];
      SafePrefix(s, before, i, p);
    }
  }

  lemma {:induction false} OneMore<F>(s: Session<F>, es: seq<Event<F>>, i: nat, now: seq<Event<F>>, next: seq<Event<F>>)
    requires Inv(s) && Run(s, es) && Safe(s, es) && i < |es| && now == es[..i] && next == es[..i + 1]
    ensures Run(s, now) && Run(s, next) && Enabled(After(s, now), es[i])
    ensures After(s, next) == Next(After(s, now), es[i])
    ensures Stream(s, next) == Stream(s, now) + Output(After(s, now), es[i])
  {
    SafePrefix(s, es, i + 1, next);
    assert next[..|next| - 1] == now && next[|next| - 1] == es[i];
  }

  /** What the upper layer gets from one link over any run of a tidy session is exactly the run's
      stream, if its numbers are in range and nothing taken early without data is drained over; no
      assertion fails on the way, and no other link is touched. */
  method Replay<F>(buffer: IncomingFrameBuffer<F>, key: LinkKey, ghost s: Session<F>, es: seq<Event<F>>)
    returns (up: seq<F>)
    requires buffer.Valid() && Inv(s) && Tidy(s) && Run(s, es) && Undrained(s, es)
    requires key in buffer.linkInfoMap && buffer.ViewOf(key) == Active(s)
    modifies buffer, buffer.linkInfoMap.Values
    ensures buffer.Valid() && buffer.OthersUnchanged(key) && buffer.linkInfoMap == old(buffer.linkInfoMap)
    ensures buffer.ViewOf(key) == Active(After(s, es)) && up == Payloads(Stream(s, es))
  {
    SafeIffUndrained(s, es);
    up := [];
    ghost var links := buffer.linkInfoMap;
    for i := 0 to |es|
      invariant buffer.Valid() && buffer.OthersUnchanged(key) && buffer.linkInfoMap == links
      invariant Run(s, es[..i]) && buffer.ViewOf(key) == Active(After(s, es[..i]))
      invariant up == Payloads(Stream(s, es[..i]))
    {
      OneMore(s, es, i, es[..i], es[..i + 1]);
      var more := Turn(buffer, key, After(s, es[..i]), es[i]);
      PayloadsConcat(Stream(s, es[..i]), Output(After(s, es[..i]), es[i]));
      up := up + more;
    }
    assert es[..|es|] == es;
  }

  /** The same for frames before there is a session. */
  method ReplayIdle<F>(buffer: IncomingFrameBuffer<F>, key: LinkKey, ghost lowest: nat, es: seq<Event<F>>)
    returns (up: seq<F>)
    requires buffer.Valid() && AllFrames(es)
    requires key in buffer.linkInfoMap && buffer.ViewOf(key) == Idle(lowest)
    modifies buffer, buffer.linkInfoMap.Values
    ensures buffer.Valid() && buffer.OthersUnchanged(key) && buffer.linkInfoMap == old(buffer.linkInfoMap)
    ensures buffer.ViewOf(key) == Idle(IdleAfter(lowest, es)) && up == Payloads(IdleStream(lowest, es))
  {
    up := [];
    ghost var links := buffer.linkInfoMap;
    for i := 0 to |es|
      invariant buffer.Valid() && buffer.OthersUnchanged(key) && buffer.linkInfoMap == links
      invariant buffer.ViewOf(key) == Idle(IdleAfter(lowest, es[..i]))
      invariant up == Payloads(IdleStream(lowest, es[..i]))
    {
      assert es[..i + 1][..i] == es[..i];
      ghost var l := IdleAfter(lowest, es[..i]);
      var more := IdleTurn(buffer, key, l, es[i]);
      PayloadsConcat(IdleStream(lowest, es[..i]), IdleOutput(l, es[i]));
      up := up + more;
    }
    assert es[..|es|] == es;
  }

  /** A report is a function of the events: it starts where they put the window, and the peer reads
      from it what arrived. */
  ghost predicate ReportsArrivals<F>(start: SeqNum, bitmap: seq<bool>, begun: nat, es: seq<Event<F>>)
    requires Run(Fresh(begun), es) && |bitmap| == WINDOW
  {
    var w := WindowOf(begun, es);
    && w >= 0 && start == ToHeader(w)
    && forall n: nat :: w <= n < w + 2048 ==>
         && TwelveBitDifference(ToHeader(n), start) >= 0
         && (IsAcked(start, bitmap, ToHeader(n)) <==> n in Arrived(Fresh(begun), es))
  }

  lemma {:induction false} ScoreboardReports<F>(begun: nat, es: seq<Event<F>>, t: Session<F>)
    requires Run(Fresh(begun), es) && t == After(Fresh(begun), es)
    ensures ReportsArrivals(ToHeader(t.windowStart), Scoreboard(t.log, t.windowStart), begun, es)
  {
    WindowIsDetermined(begun, es, t);
    forall n: nat | t.windowStart <= n < t.windowStart + 2048
      ensures TwelveBitDifference(ToHeader(n), ToHeader(t.windowStart)) >= 0
      ensures IsAcked(ToHeader(t.windowStart), Scoreboard(t.log, t.windowStart), ToHeader(n))
              <==> n in Arrived(Fresh(begun), es)
    {
      DifferenceIsDistance(t.windowStart, n);
      AckedIffArrived(begun, es, t, n);
    }
  }

  method Report<F>(buffer: IncomingFrameBuffer<F>, key: LinkKey, ghost begun: nat, ghost es: seq<Event<F>>)
    returns (success: bool, start: SeqNum, bitmap: seq<bool>)
    requires buffer.Valid() && Run(Fresh(begun), es)
    requires key in buffer.linkInfoMap && buffer.ViewOf(key) == Active(After(Fresh(begun), es))
    ensures success && |bitmap| == WINDOW && ReportsArrivals(start, bitmap, begun, es)
  {
    success, start, bitmap := buffer.GetBlockAckInfo(key);
    ScoreboardReports(begun, es, After(Fresh<F>(begun), es));
  }

  /** From the request that opens a session to a report at its end. */
  method ReplaySession<F>(buffer: IncomingFrameBuffer<F>, key: LinkKey, begun: SeqNum, es: seq<Event<F>>)
    returns (up: seq<F>, success: bool, start: SeqNum, bitmap: seq<bool>)
    requires buffer.Valid() && key in buffer.linkInfoMap && buffer.ViewOf(key).Idle?
    requires Run(Fresh(begun), es) && Undrained(Fresh(begun), es)
    modifies buffer, buffer.linkInfoMap.Values
    ensures buffer.Valid() && buffer.OthersUnchanged(key)
    ensures up == Payloads(Stream(Fresh(begun), es))
    ensures success && |bitmap| == WINDOW && ReportsArrivals(start, bitmap, begun, es)
  {
    var none := buffer.ProcessBlockAckRequestFrame(key, begun);
    up := Replay(buffer, key, Fresh(begun), es);
    success, start, bitmap := Report(buffer, key, begun, es);
  }

  /** A link's life from its first frame: frames without a session, the request that opens one,
      and then any run.  Everything handed up is the idle stream and then the session's stream; its
      numbers only rise if the session opens above what was handed up before; and the report that
      is sent in the end says acked exactly for what arrived. */
  method ReplayFromIdle<F>(buffer: IncomingFrameBuffer<F>, key: LinkKey, ghost lowest: nat, idle: seq<Event<F>>,
                           ghost counter: nat, ghost before: seq<Held<F>>, begun: SeqNum, es: seq<Event<F>>)
    returns (up: seq<F>, success: bool, start: SeqNum, bitmap: seq<bool>)
    requires buffer.Valid() && buffer.ViewOf(key) == Idle(lowest) && AllFrames(idle)
    requires counter == IdleAfter(lowest, idle) && before == IdleStream(lowest, idle)
    requires Run(Fresh(begun), es) && Undrained(Fresh(begun), es)
    modifies buffer, buffer.linkInfoMap.Values
    ensures buffer.Valid() && buffer.OthersUnchanged(key)
    ensures up == Payloads(before) + Payloads(Stream(Fresh(begun), es))
    ensures OpensAbove(counter, before, begun) ==> Rising(LinkNumbers(counter, before, begun, es))
    ensures success && |bitmap| == WINDOW && ReportsArrivals(start, bitmap, begun, es)
  {
    var link := buffer.Link(key); // the first frame would do this
    var first := ReplayIdle(buffer, key, lowest, idle);
    up, success, start, bitmap := ReplaySession(buffer, key, begun, es);
    up := first + up;
    if OpensAbove(counter, before, begun) {
      IdleStreamIncreases(lowest, idle);
      LinkRises(counter, before, begun, es);
    }
  }
}
