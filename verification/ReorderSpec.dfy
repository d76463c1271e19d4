/** What a Block Ack receive session means, without a bitmap and without a queue: the
    frames accepted so far under their true (unbounded) sequence numbers, the start of
    the window and the lowest number not yet received.  This is the reference that the
    in-place buffer of module IncomingBuffer is proved against. */
module ReorderSpec {
  import opened SequenceNumbers

  const WINDOW := 64

  /** What arrived under a sequence number: a data frame, which the buffer hands up or
      holds, or a frame without data (null or management), which only uses the number. */
  datatype Arrival<F> = Data(frame: F) | NonData

  datatype Held<F> = Held(number: nat, frame: F)

  /** One active session.  `log` holds the first arrival accepted under each number;
      `windowStart` and `lowest` are the two counters; `skipped` collects the
      numbers that a block ack request gave up on. */
  datatype Session<F> = Session(
    start: nat,
    windowStart: nat,
    lowest: nat,
    log: map<nat, Arrival<F>>,
    skipped: set<nat>)

  ghost predicate Inv<F>(s: Session<F>) {
    && s.start <= s.windowStart <= s.lowest <= s.windowStart + WINDOW
    && s.lowest !in s.log
    && (forall n :: n in s.log ==> s.start <= n < s.windowStart + WINDOW)
    && (forall n :: s.windowStart <= n < s.lowest ==> n in s.log)
    && (forall n :: s.start <= n < s.lowest ==> (n in s.log <==> n !in s.skipped))
    && (forall n :: n in s.skipped ==> s.start <= n < s.lowest)
  }

  // ---------------------------------------------------------------------------------
  // Frames of a range, in order

  /** The data frames logged under numbers in [lo, hi), in increasing order. */
  ghost function Frames<F>(log: map<nat, Arrival<F>>, lo: nat, hi: nat): (r: seq<Held<F>>)
    ensures lo <= hi ==> |r| <= hi - lo
    decreases hi - lo
  {
    if lo >= hi then []
    else if lo in log && log[lo].Data? then [Held(lo, log[lo].frame)] + Frames(log, lo + 1, hi)
    else Frames(log, lo + 1, hi)
  }

  ghost predicate Increasing<F>(q: seq<Held<F>>) {
    forall i, j :: 0 <= i < j < |q| ==> q[i].number < q[j].number
  }

  /** Frames lists exactly the logged data frames of the range, each once, increasing. */
  lemma {:induction false} FramesExact<F>(log: map<nat, Arrival<F>>, lo: nat, hi: nat)
    ensures Increasing(Frames(log, lo, hi))
    ensures forall e :: e in Frames(log, lo, hi) ==>
              lo <= e.number < hi && e.number in log && log[e.number] == Data(e.frame)
    ensures forall n :: lo <= n < hi && n in log && log[n].Data? ==>
              Held(n, log[n].frame) in Frames(log, lo, hi)
    decreases hi - lo
  {
    if lo < hi {
      FramesExact(log, lo + 1, hi);
      var rest := Frames(log, lo + 1, hi);
      forall k | 0 <= k < |rest| ensures rest[k].number > lo {
        assert rest[k] in Frames(log, lo + 1, hi);
      }
      if lo in log && log[lo].Data? {
        assert Frames(log, lo, hi) == [Held(lo, log[lo].frame)] + rest;
      } else {
        assert Frames(log, lo, hi) == rest;
      }
    }
  }

  lemma {:induction false} FramesSplit<F>(log: map<nat, Arrival<F>>, lo: nat, mid: nat, hi: nat)
    requires lo <= mid <= hi
    ensures Frames(log, lo, hi) == Frames(log, lo, mid) + Frames(log, mid, hi)
    decreases mid - lo
  {
    if lo < mid {
      FramesSplit(log, lo + 1, mid, hi);
    }
  }

  lemma {:induction false} FramesAgree<F>(log: map<nat, Arrival<F>>, log': map<nat, Arrival<F>>, lo: nat, hi: nat)
    requires forall n :: lo <= n < hi ==> (n in log <==> n in log')
    requires forall n :: lo <= n < hi && n in log ==> log[n] == log'[n]
    ensures Frames(log, lo, hi) == Frames(log', lo, hi)
    decreases hi - lo
  {
    if lo < hi {
      FramesAgree(log, log', lo + 1, hi);
    }
  }

  lemma {:induction false} FramesEmpty<F>(log: map<nat, Arrival<F>>, lo: nat, hi: nat)
    requires forall n :: lo <= n < hi && n in log ==> log[n].NonData?
    ensures Frames(log, lo, hi) == []
    decreases hi - lo
  {
    if lo < hi {
      FramesEmpty(log, lo + 1, hi);
    }
  }

  /** The upper end of the range does not matter above the last logged number. */
  lemma {:induction false} FramesExtend<F>(log: map<nat, Arrival<F>>, lo: nat, hi: nat, hi': nat)
    requires hi <= hi'
    requires forall n :: n in log ==> n < hi
    ensures Frames(log, lo, hi) == Frames(log, lo, hi')
  {
    if lo <= hi {
      FramesSplit(log, lo, hi, hi');
      FramesEmpty(log, hi, hi');
    } else {
      FramesEmpty(log, lo, hi');
    }
  }

  // ---------------------------------------------------------------------------------
  // The two kinds of step

  /** The lowest number from `k` on that is not logged. */
  ghost function FirstGap<F>(log: map<nat, Arrival<F>>, k: nat, limit: nat): (g: nat)
    requires forall n :: n in log ==> n < limit
    ensures k <= g && g !in log
    ensures k <= limit ==> g <= limit
    ensures forall n :: k <= n < g ==> n in log
    decreases limit - k
  {
    if k !in log then k else FirstGap(log, k + 1, limit)
  }

  /** A frame was already accepted, or its number was given up. */
  predicate Seen<F>(s: Session<F>, n: nat) {
    n < s.lowest || n in s.log
  }

  /** The session after a frame with true number `n`: one rule for a frame inside the
      window, beyond it, or exactly next in order. */
  ghost function AfterArrival<F>(s: Session<F>, n: nat, a: Arrival<F>): (s': Session<F>)
    requires Inv(s)
    requires n < s.lowest + WINDOW
    ensures Inv(s')
    ensures s'.windowStart == if n - (WINDOW - 1) > s.windowStart then n - (WINDOW - 1) else s.windowStart
  {
    if Seen(s, n) then s else
      var w := if n < s.windowStart + WINDOW then s.windowStart else n - (WINDOW - 1);
      var log' := s.log[n := a];
      var s' := s.(log := log', windowStart := w, lowest := FirstGap(log', s.lowest, w + WINDOW));
      assert s'.lowest >= s'.windowStart;
      s'
  }

  /** The session after a block ack request that moves the start to `b`. */
  ghost function AfterRequest<F>(s: Session<F>, b: nat): (s': Session<F>)
    requires Inv(s)
    requires s.windowStart <= b
    ensures Inv(s')
    ensures s'.windowStart == b && s'.log == s.log
  {
    var limit := b + WINDOW;
    if b <= s.lowest then
      s.(windowStart := b)
    else
      s.(windowStart := b,
         lowest := FirstGap(s.log, b, limit),
         skipped := s.skipped + set n | s.lowest <= n < b && n !in s.log)
  }

  /** Every number of the range that is logged holds a data frame.  This is what the
      assertions of both drain loops need. */
  ghost predicate Drainable<F>(log: map<nat, Arrival<F>>, lo: nat, hi: nat) {
    forall n :: lo <= n < hi && n in log ==> log[n].Data?
  }

  // ---------------------------------------------------------------------------------
  // Runs

  /** What the radio delivers to one session: a frame or a block ack request, both with
      the twelve-bit number of their header. */
  datatype Event<F> = Frame(header: SeqNum, arrival: Arrival<F>) | Request(header: SeqNum)

  /** The true number of an event, decoded against the end of the window. */
  function TrueNumber<F>(s: Session<F>, e: Event<F>): int {
    ToNonWrapping(s.windowStart + WINDOW, e.header)
  }

  /** What the source demands of the numbers it is sent: no number decodes below zero, a
      frame is less than a window past the lowest missing number, and a block ack request
      does not move the window back. */
  predicate NumberInRange<F>(s: Session<F>, e: Event<F>) {
    var n := TrueNumber(s, e);
    n >= 0 && if e.Frame? then n < s.lowest + WINDOW else s.windowStart <= n
  }

  /** All assertions of the source hold for this event in this state: the number is in
      range, and where the event drains the queue every received number has its frame. */
  ghost predicate Enabled<F>(s: Session<F>, e: Event<F>)
    requires Inv(s)
  {
    && NumberInRange(s, e)
    && var n := TrueNumber(s, e);
       match e
       case Frame(_, a) => Drainable(s.log, s.lowest + 1, AfterArrival(s, n, a).lowest)
       case Request(_) => n > s.lowest ==> Drainable(s.log, n, AfterRequest(s, n).lowest)
  }

  ghost function Next<F>(s: Session<F>, e: Event<F>): (s': Session<F>)
    requires Inv(s) && NumberInRange(s, e)
    ensures Inv(s')
  {
    match e
    case Frame(_, a) => AfterArrival(s, TrueNumber(s, e), a)
    case Request(_) => AfterRequest(s, TrueNumber(s, e))
  }

  /** What the step hands up the stack: an in-order frame first, then released ones. */
  ghost function Output<F>(s: Session<F>, e: Event<F>): seq<Held<F>>
    requires Inv(s) && NumberInRange(s, e)
  {
    Frames(Next(s, e).log, s.lowest, Next(s, e).lowest)
  }

  /** Every number of the run is in range when it comes; whether the assertions of the drain
      loops hold as well is the subject of module ReorderSafety. */
  ghost predicate Run<F>(s: Session<F>, es: seq<Event<F>>)
    requires Inv(s)
    decreases |es|, 0
  {
    es == [] || (Run(s, es[..|es| - 1]) && NumberInRange(After(s, es[..|es| - 1]), es[|es| - 1]))
  }

  ghost function After<F>(s: Session<F>, es: seq<Event<F>>): (s': Session<F>)
    requires Inv(s) && Run(s, es)
    ensures Inv(s')
    decreases |es|, 1
  {
    if es == [] then s else Next(After(s, es[..|es| - 1]), es[|es| - 1])
  }

  /** A frame that the buffer takes: its number was neither received nor given up before. */
  ghost predicate Accepts<F>(t: Session<F>, e: Event<F>, n: int, a: Arrival<F>) {
    e.Frame? && e.arrival == a && TrueNumber(t, e) == n && n >= 0 && !Seen(t, n)
  }

  /** At some event of the run a frame with true number `n` and this content was accepted. */
  ghost predicate Accepted<F>(s: Session<F>, es: seq<Event<F>>, n: int, a: Arrival<F>)
    requires Inv(s) && Run(s, es)
  {
    && es != []
    && var before, e := es[..|es| - 1], es[|es| - 1];
       Accepted(s, before, n, a) || Accepts(After(s, before), e, n, a)
  }

  /** Everything handed up during a run, in the order in which it was handed up. */
  ghost function Stream<F>(s: Session<F>, es: seq<Event<F>>): seq<Held<F>>
    requires Inv(s) && Run(s, es)
  {
    if es == [] then []
    else Stream(s, es[..|es| - 1]) + Output(After(s, es[..|es| - 1]), es[|es| - 1])
  }

  /** The true numbers under which a frame of either kind arrived during a run, whether
      or not the buffer took any notice of it. */
  ghost function Arrived<F>(s: Session<F>, es: seq<Event<F>>): set<int>
    requires Inv(s) && Run(s, es)
  {
    if es == [] then {}
    else
      var before, e := es[..|es| - 1], es[|es| - 1];
      Arrived(s, before) + if e.Frame? then {TrueNumber(After(s, before), e)} else {}
  }

  /** The numbers that the block ack requests of a run gave up: those between the lowest
      missing number and the requested start under which nothing had arrived. */
  ghost function GivenUp<F>(s: Session<F>, es: seq<Event<F>>): set<int>
    requires Inv(s) && Run(s, es)
  {
    if es == [] then {}
    else
      var before, e := es[..|es| - 1], es[|es| - 1];
      var t := After(s, before);
      GivenUp(s, before) +
      if e.Request? then set n | t.lowest <= n < TrueNumber(t, e) && n !in Arrived(s, before) else {}
  }

  ghost function Fresh<F>(start: nat): (s: Session<F>)
    ensures Inv(s)
  {
    Session(start, start, start, map[], {})
  }

  /** Nothing that is already handed up or given up changes any more. */
  lemma {:induction false} StepKeepsPast<F>(s: Session<F>, e: Event<F>, lo: nat)
    requires Inv(s) && NumberInRange(s, e) && lo <= s.lowest
    ensures s.lowest <= Next(s, e).lowest
    ensures Frames(Next(s, e).log, lo, s.lowest) == Frames(s.log, lo, s.lowest)
    ensures Frames(Next(s, e).log, lo, Next(s, e).lowest) == Frames(s.log, lo, s.lowest) + Output(s, e)
  {
    var s' := Next(s, e);
    FramesAgree(s.log, s'.log, lo, s.lowest);
    FramesSplit(s'.log, lo, s.lowest, s'.lowest);
  }

  lemma {:induction false} StreamIsLog<F>(start: nat, es: seq<Event<F>>)
    requires Run(Fresh(start), es)
    ensures var t := After(Fresh(start), es);
            t.start == start && Stream(Fresh(start), es) == Frames(t.log, start, t.lowest)
  {
    var s := Fresh<F>(start);
    if es != [] {
      var before, e := es[..|es| - 1], es[|es| - 1];
      StreamIsLog(start, before);
      StepKeepsPast(After(s, before), e, start);
    }
  }

  /** The log is the run's own record: what stands under a number is the arrival of the one
      event that was accepted under it. */
  lemma {:induction false} LogIsAccepted<F>(start: nat, es: seq<Event<F>>, t: Session<F>, n: nat, a: Arrival<F>)
    requires Run(Fresh(start), es) && t == After(Fresh(start), es)
    ensures n in t.log && t.log[n] == a <==> Accepted(Fresh(start), es, n, a)
  {
    if es != [] {
      var before, e := es[..|es| - 1], es[|es| - 1];
      var u := After(Fresh<F>(start), before);
      LogIsAccepted(start, before, u, n, a);
      LogAfterStep(u, e, n, a);
    }
  }

  lemma {:induction false} LogAfterStep<F>(u: Session<F>, e: Event<F>, n: nat, a: Arrival<F>)
    requires Inv(u) && NumberInRange(u, e)
    ensures n in Next(u, e).log && Next(u, e).log[n] == a <==> (n in u.log && u.log[n] == a) || Accepts(u, e, n, a)
  {
  }

  /** The stream of any run from a fresh session is strictly increasing, so has no duplicates,
      and consists of exactly the data frames that the run's events brought under numbers below
      the lowest missing one. */
  lemma {:induction false} StreamOfRun<F>(start: nat, es: seq<Event<F>>, t: Session<F>)
    requires Run(Fresh(start), es) && t == After(Fresh(start), es)
    ensures Increasing(Stream(Fresh(start), es))
    ensures forall h :: h in Stream(Fresh(start), es) <==>
              h.number < t.lowest && Accepted(Fresh(start), es, h.number, Data(h.frame))
  {
    StreamIsLog(start, es);
    FramesAreAccepted(start, es, t, start, t.lowest);
    AcceptedFromStart(start, es, t);
  }

  lemma {:induction false} AcceptedFromStart<F>(start: nat, es: seq<Event<F>>, t: Session<F>)
    requires Run(Fresh(start), es) && t == After(Fresh(start), es)
    ensures forall h: Held<F> :: Accepted(Fresh(start), es, h.number, Data(h.frame)) ==>
              start <= h.number < t.windowStart + WINDOW
  {
    StreamIsLog(start, es);
    forall h: Held<F> | Accepted(Fresh(start), es, h.number, Data(h.frame))
      ensures start <= h.number < t.windowStart + WINDOW
    {
      LogIsAccepted(start, es, t, h.number, Data(h.frame));
    }
  }

  /** The logged frames of a range are the accepted ones of that range. */
  lemma {:induction false} FramesAreAccepted<F>(start: nat, es: seq<Event<F>>, t: Session<F>, lo: nat, hi: nat)
    requires Run(Fresh(start), es) && t == After(Fresh(start), es)
    ensures Increasing(Frames(t.log, lo, hi))
    ensures forall h :: h in Frames(t.log, lo, hi) <==>
              lo <= h.number < hi && Accepted(Fresh(start), es, h.number, Data(h.frame))
  {
    FramesExact(t.log, lo, hi);
    forall h: Held<F>
      ensures h in Frames(t.log, lo, hi) <==>
              lo <= h.number < hi && Accepted(Fresh(start), es, h.number, Data(h.frame))
    {
      LogIsAccepted(start, es, t, h.number, Data(h.frame));
    }
  }

  /** Every data frame that an event of the run brought and the buffer accepted was handed up
      or is still held, exactly once in all, and nothing else was or is: the stream followed by
      the queue is strictly increasing and consists of exactly the accepted frames. */
  lemma {:induction false} NothingLost<F>(start: nat, es: seq<Event<F>>, t: Session<F>, all: seq<Held<F>>)
    requires Run(Fresh(start), es) && t == After(Fresh(start), es)
    requires all == Stream(Fresh(start), es) + Frames(t.log, t.lowest, t.windowStart + WINDOW)
    ensures Increasing(all)
    ensures forall h :: h in all <==> Accepted(Fresh(start), es, h.number, Data(h.frame))
  {
    StreamIsLog(start, es);
    var end := t.windowStart + WINDOW;
    FramesSplit(t.log, start, t.lowest, end);
    FramesAreAccepted(start, es, t, start, end);
    AcceptedFromStart(start, es, t);
  }

  /** The log and the window are a sound and complete record of what arrived: every
      logged number arrived, and every number that arrived at or above the window's
      start is logged. */
  lemma {:induction false} LogIsArrivals<F>(start: nat, es: seq<Event<F>>, t: Session<F>)
    requires Run(Fresh(start), es) && t == After(Fresh(start), es)
    ensures forall n :: n in t.log ==> n in Arrived(Fresh(start), es)
    ensures forall n :: n in Arrived(Fresh(start), es) && n >= t.windowStart ==> n in t.log
    ensures forall n :: n in Arrived(Fresh(start), es) ==> 0 <= n < t.windowStart + WINDOW
  {
    var s := Fresh<F>(start);
    if es != [] {
      var before, e := es[..|es| - 1], es[|es| - 1];
      var u := After(s, before);
      LogIsArrivals(start, before, u);
      assert u.windowStart <= t.windowStart;
      if e.Frame? {
        var n := TrueNumber(u, e);
        assert n < t.windowStart + WINDOW;
      }
    }
  }

  /** The gaps of the stream are exactly the numbers that block ack requests gave up. */
  lemma {:induction false} GapsAreGivenUp<F>(start: nat, es: seq<Event<F>>)
    requires Run(Fresh(start), es)
    ensures var t := After(Fresh(start), es);
            forall n :: start <= n < t.lowest ==>
              (n !in t.log <==> n in GivenUp(Fresh(start), es))
  {
    GivenUpIsSkipped(start, es);
    StreamIsLog(start, es);
  }

  lemma {:induction false} GivenUpIsSkipped<F>(start: nat, es: seq<Event<F>>)
    requires Run(Fresh(start), es)
    ensures forall n :: n in After(Fresh(start), es).skipped <==> n in GivenUp(Fresh(start), es)
    ensures forall n :: n in GivenUp(Fresh(start), es) ==> n >= 0
  {
    var s := Fresh<F>(start);
    if es != [] {
      var before, e := es[..|es| - 1], es[|es| - 1];
      GivenUpIsSkipped(start, before);
      var u := After(s, before);
      LogIsArrivals(start, before, u);
      if e.Request? {
        var b := TrueNumber(u, e);
        forall n | u.lowest <= n < b
          ensures n in u.log <==> n in Arrived(s, before)
        {
        }
      }
    }
  }

  /** What the buffer passes over can be read off the run: numbers before the session's start,
      numbers that arrived, and numbers that were given up.  So a frame is accepted exactly when
      its number is none of these. */
  lemma {:induction false} SeenIsHistory<F>(start: nat, es: seq<Event<F>>, t: Session<F>, n: nat)
    requires Run(Fresh(start), es) && t == After(Fresh(start), es)
    ensures Seen(t, n) <==> n < start || n in Arrived(Fresh(start), es) || n in GivenUp(Fresh(start), es)
  {
    LogIsArrivals(start, es, t);
    GivenUpIsSkipped(start, es);
    StreamIsLog(start, es);
  }

  /** How an event moves the start of the window: a frame pulls it up to 63 below the frame's
      number, a block ack request sets it.  Numbers are decoded 64 above it. */
  function WindowStep<F>(w: nat, e: Event<F>): int {
    var n := ToNonWrapping(w + WINDOW, e.header);
    if e.Request? then n else if n - (WINDOW - 1) > w then n - (WINDOW - 1) else w
  }

  /** The start of the window as a function of the events alone. */
  function WindowOf<F>(start: nat, es: seq<Event<F>>): int {
    if es == [] then start
    else
      var w := WindowOf(start, es[..|es| - 1]);
      if w < 0 then w else WindowStep(w, es[|es| - 1])
  }

  /** Every run's window starts where its events say, whatever else the session has seen. */
  lemma {:induction false} WindowIsDetermined<F>(start: nat, es: seq<Event<F>>, t: Session<F>)
    requires Run(Fresh(start), es) && t == After(Fresh(start), es)
    ensures t.windowStart == WindowOf(start, es)
  {
    if es != [] {
      var before, e := es[..|es| - 1], es[|es| - 1];
      var u := After(Fresh<F>(start), before);
      WindowIsDetermined(start, before, u);
      WindowAfterStep(u, e, TrueNumber(u, e), t);
    }
  }

  lemma {:induction false} WindowAfterStep<F>(s: Session<F>, e: Event<F>, n: int, s': Session<F>)
    requires Inv(s) && NumberInRange(s, e) && n == TrueNumber(s, e) && s' == Next(s, e)
    ensures e.Request? ==> s'.windowStart == n && s'.log == s.log
    ensures e.Frame? ==>
              s'.windowStart == if n - (WINDOW - 1) > s.windowStart then n - (WINDOW - 1) else s.windowStart
  {
    match e {
      case Frame(_, a) => assert s' == AfterArrival(s, n, a);
      case Request(_) => assert s' == AfterRequest(s, n);
    }
  }

  /** The lowest missing number is the least from the start on that neither arrived nor was given up. */
  lemma {:induction false} LowestIsDetermined<F>(start: nat, es: seq<Event<F>>, t: Session<F>)
    requires Run(Fresh(start), es) && t == After(Fresh(start), es)
    ensures start <= t.lowest
    ensures t.lowest !in Arrived(Fresh(start), es) && t.lowest !in GivenUp(Fresh(start), es)
    ensures forall n :: start <= n < t.lowest ==> n in Arrived(Fresh(start), es) || n in GivenUp(Fresh(start), es)
  {
    StreamIsLog(start, es);
    LogIsArrivals(start, es, t);
    GivenUpIsSkipped(start, es);
  }

  /** A block ack request hands up exactly the held frames below the new start and the
      unbroken run from it, provided the start passes the lowest missing number. */
  lemma {:induction false} RequestOutput<F>(s: Session<F>, e: Event<F>, b: nat, h: Held<F>)
    requires Inv(s) && NumberInRange(s, e) && e.Request? && b == TrueNumber(s, e)
    ensures h in Output(s, e) <==>
              && b > s.lowest
              && h.number in s.log && s.log[h.number] == Data(h.frame) && s.lowest <= h.number
              && (h.number < b || forall n :: b <= n <= h.number ==> n in s.log)
  {
    var t := AfterRequest(s, b);
    FramesExact(s.log, s.lowest, t.lowest);
    assert h in Output(s, e) ==> Held(h.number, h.frame) in Frames(s.log, s.lowest, t.lowest);
    if b > s.lowest && h.number >= t.lowest {
      assert t.lowest !in s.log && b <= t.lowest;
    }
  }

  // ---------------------------------------------------------------------------------
  // Headers

  /** Every number that a step of the window accepts, and every request up to half the ring
      ahead, is decoded from its twelve bits exactly. */
  lemma {:induction false} AcceptedNumbersDecode<F>(s: Session<F>, e: Event<F>, n: nat)
    requires Inv(s) && e.header == ToHeader(n)
    requires s.windowStart + WINDOW - 2048 < n < s.windowStart + WINDOW + 2048
    ensures TrueNumber(s, e) == n
  {
    DecodeAfterTruncate(s.windowStart + WINDOW, n);
  }
}
