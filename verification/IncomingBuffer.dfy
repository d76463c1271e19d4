/** The receiver's Block Ack buffer as the program keeps it: a 64-bit scoreboard, a
    min-first queue of held frames and two counters per link, all changed in place.
    Every method is proved against the session of module ReorderSpec. */
module IncomingBuffer {
  import opened Addresses
  import opened SequenceNumbers
  import opened ReorderSpec

  // ---------------------------------------------------------------------------------
  // Scoreboard and queue as functions of the log

  /** The scoreboard of a window: bit i tells whether number w + i was accepted. */
  ghost function Scoreboard<F>(log: map<nat, Arrival<F>>, w: nat): (b: seq<bool>)
    ensures |b| == WINDOW
  {
    seq(WINDOW, i requires 0 <= i => w + i in log)
  }

  /** A bit set shifted towards bit 0, with clear bits coming in at the top. */
  function ShiftDown(b: seq<bool>, count: nat): (r: seq<bool>)
    ensures |r| == |b|
  {
    seq(|b|, i requires 0 <= i => i + count < |b| && b[i + count])
  }

  function Payloads<F>(q: seq<Held<F>>): seq<F> {
    if q == [] then [] else Payloads(q[..|q| - 1]) + [q[|q| - 1].frame]
  }

  lemma {:induction false} PayloadsConcat<F>(p: seq<Held<F>>, q: seq<Held<F>>)
    ensures Payloads(p + q) == Payloads(p) + Payloads(q)
  {
    if q == [] {
      assert p + q == p;
    } else {
      PayloadsConcat(p, q[..|q| - 1]);
      assert (p + q)[..|p + q| - 1] == p + q[..|q| - 1];
    }
  }

  lemma {:induction false} PayloadsAt<F>(q: seq<Held<F>>, i: nat)
    requires i < |q|
    ensures |Payloads(q)| == |q| && Payloads(q)[i] == q[i].frame
  {
    var m := |q| - 1;
    if m > 0 {
      PayloadsAt(q[..m], if i < m then i else 0);
    } else {
      assert q[..0] == [];
    }
  }

  /** Push on the priority queue: lower numbers come out first. */
  function Push<F>(q: seq<Held<F>>, e: Held<F>): seq<Held<F>> {
    if q == [] || e.number < q[0].number then [e] + q else [q[0]] + Push(q[1..], e)
  }

  lemma {:induction false} PushFrames<F>(log: map<nat, Arrival<F>>, lo: nat, hi: nat, n: nat, f: F)
    requires lo <= n < hi && n !in log
    ensures Push(Frames(log, lo, hi), Held(n, f)) == Frames(log[n := Data(f)], lo, hi)
    decreases hi - lo
  {
    var log' := log[n := Data(f)];
    if lo == n {
      FramesAgree(log, log', n + 1, hi);
      FramesExact(log, n + 1, hi);
      var rest := Frames(log, n + 1, hi);
      assert rest != [] ==> rest[0] in rest;
    } else {
      PushFrames(log, lo + 1, hi, n, f);
    }
  }

  /** The drain assertion at a received number: the queue is not empty and its top is
      that number.  It holds exactly when the number came with a data frame. */
  lemma {:induction false} TopIsNext<F>(log: map<nat, Arrival<F>>, k: nat, hi: nat)
    requires k < hi && k in log
    ensures (Frames(log, k, hi) != [] && Frames(log, k, hi)[0].number == k) <==> log[k].Data?
  {
    FramesExact(log, k + 1, hi);
    var rest := Frames(log, k + 1, hi);
    assert rest != [] ==> rest[0] in rest;
  }

  lemma {:induction false} PayloadsSplit<F>(log: map<nat, Arrival<F>>, lo: nat, mid: nat, hi: nat)
    requires lo <= mid <= hi
    ensures Payloads(Frames(log, lo, hi)) == Payloads(Frames(log, lo, mid)) + Payloads(Frames(log, mid, hi))
  {
    FramesSplit(log, lo, mid, hi);
    PayloadsConcat(Frames(log, lo, mid), Frames(log, mid, hi));
  }

  lemma {:induction false} PayloadsOneMore<F>(q: seq<Held<F>>, h: Held<F>)
    ensures Payloads(q + [h]) == Payloads(q) + [h.frame]
  {
    assert (q + [h])[..|q|] == q;
  }

  lemma {:induction false} FramesOneMore<F>(log: map<nat, Arrival<F>>, first: nat, k: nat)
    requires first <= k && k in log && log[k].Data?
    ensures Frames(log, first, k + 1) == Frames(log, first, k) + [Held(k, log[k].frame)]
  {
    FramesSplit(log, first, k, k + 1);
    assert Frames(log, k + 1, k + 1) == [];
  }

  /** One turn of a drain loop: the next number's frame is the top of the queue `q`, and it
      belongs at the end of what is handed up. */
  lemma {:induction false} DrainStep<F>(log: map<nat, Arrival<F>>, first: nat, k: nat, hi: nat, q: seq<Held<F>>)
    requires first <= k < hi && k in log && log[k].Data? && q == Frames(log, k, hi)
    ensures q != [] && q[0] == Held(k, log[k].frame) && q[1..] == Frames(log, k + 1, hi)
    ensures Payloads(Frames(log, first, k + 1)) == Payloads(Frames(log, first, k)) + [log[k].frame]
  {
    FramesOneMore(log, first, k);
    PayloadsOneMore(Frames(log, first, k), Held(k, log[k].frame));
  }

  /** The numbers of [k, gap) all came with data, and `gap` is missing. */
  ghost predicate RunOfData<F>(log: map<nat, Arrival<F>>, k: nat, gap: nat) {
    k <= gap && gap !in log && forall n :: k <= n < gap ==> n in log && log[n].Data?
  }

  /** What the guard of the drain loop says of the next number. */
  lemma {:induction false} DrainGuard<F>(log: map<nat, Arrival<F>>, w: nat, first: nat, i: nat, gap: nat)
    requires RunOfData(log, first, gap) && first <= w + i <= gap <= w + WINDOW
    ensures i < WINDOW && Scoreboard(log, w)[i] <==> w + i < gap
    ensures w + i < gap ==> w + i in log && log[w + i].Data?
  {
  }

  lemma {:induction false} ScoreboardMark<F>(log: map<nat, Arrival<F>>, w: nat, n: nat, a: Arrival<F>)
    requires w <= n < w + WINDOW
    ensures Scoreboard(log[n := a], w) == Scoreboard(log, w)[n - w := true]
  {
  }

  lemma {:induction false} ScoreboardShift<F>(log: map<nat, Arrival<F>>, w: nat, w': nat)
    requires w <= w' && forall n :: n in log ==> n < w + WINDOW
    ensures ShiftDown(Scoreboard(log, w), w' - w) == Scoreboard(log, w')
  {
  }

  /** An unseen arrival inside the window sets its bit and leaves the window alone. */
  lemma {:induction false} ArrivalInWindow<F>(s: Session<F>, n: nat, a: Arrival<F>, t: Session<F>)
    requires Inv(s) && s.lowest <= n < s.windowStart + WINDOW && n !in s.log
    requires t == AfterArrival(s, n, a)
    ensures t.windowStart == s.windowStart
    ensures Scoreboard(t.log, t.windowStart) == Scoreboard(s.log, s.windowStart)[n - s.windowStart := true]
    ensures n > s.lowest ==> t.lowest == s.lowest
  {
    ScoreboardMark(s.log, s.windowStart, n, a);
  }

  /** If it is the next in order, what follows can be drained. */
  lemma {:induction false} ArrivalInOrder<F>(s: Session<F>, a: Arrival<F>, t: Session<F>)
    requires Inv(s) && s.lowest < s.windowStart + WINDOW
    requires t == AfterArrival(s, s.lowest, a) && Drainable(s.log, s.lowest + 1, t.lowest)
    ensures RunOfData(t.log, s.lowest + 1, t.lowest) && t.lowest <= t.windowStart + WINDOW
    ensures Frames(s.log, s.lowest, s.windowStart + WINDOW) == Frames(t.log, s.lowest + 1, t.windowStart + WINDOW)
  {
    FramesAgree(s.log, t.log, s.lowest + 1, t.windowStart + WINDOW);
  }

  /** The next number in order, just past a window without gaps. */
  lemma {:induction false} ArrivalAtEnd<F>(s: Session<F>, a: Arrival<F>)
    requires Inv(s) && s.lowest == s.windowStart + WINDOW
    ensures var t := AfterArrival(s, s.lowest, a);
            && t.lowest == s.lowest + 1 && t.windowStart == s.windowStart + 1
            && Scoreboard(t.log, t.windowStart) == seq(WINDOW, i => true)
            && Frames(s.log, s.lowest, s.lowest) == []
  {
  }

  /** A number past the window, with gaps before it, becomes the window's last. */
  lemma {:induction false} ArrivalBeyond<F>(s: Session<F>, n: nat, a: Arrival<F>)
    requires Inv(s) && s.windowStart + WINDOW <= n < s.lowest + WINDOW && n != s.lowest
    ensures var t := AfterArrival(s, n, a);
            && t.lowest == s.lowest && t.windowStart == n - (WINDOW - 1) <= s.lowest
            && Scoreboard(t.log, t.windowStart) ==
                 ShiftDown(Scoreboard(s.log, s.windowStart), t.windowStart - s.windowStart)[WINDOW - 1 := true]
  {
  }

  /** An arrival out of order that has not been seen: what the queue must become. */
  lemma {:induction false} OutOfOrderQueue<F>(s: Session<F>, n: nat, a: Arrival<F>)
    requires Inv(s) && s.lowest < n < s.lowest + WINDOW && n !in s.log
    ensures var t := AfterArrival(s, n, a);
            var q := Frames(s.log, s.lowest, s.windowStart + WINDOW);
            && t.lowest == s.lowest
            && Frames(t.log, t.lowest, t.windowStart + WINDOW) == if a.Data? then Push(q, Held(n, a.frame)) else q
  {
    var t := AfterArrival(s, n, a);
    FramesExtend(s.log, s.lowest, s.windowStart + WINDOW, t.windowStart + WINDOW);
    if a.Data? {
      PushFrames(s.log, s.lowest, t.windowStart + WINDOW, n, a.frame);
    } else {
      NonDataKeepsFrames(s.log, s.lowest, t.windowStart + WINDOW, n);
    }
  }

  lemma {:induction false} NonDataKeepsFrames<F>(log: map<nat, Arrival<F>>, lo: nat, hi: nat, n: nat)
    requires n !in log
    ensures Frames(log[n := NonData], lo, hi) == Frames(log, lo, hi)
    decreases hi - lo
  {
    if lo < hi {
      NonDataKeepsFrames(log, lo + 1, hi, n);
    }
  }

  /** Everything an arrival hands up: itself if it is data in order, then what follows. */
  lemma {:induction false} ArrivalOutput<F>(s: Session<F>, n: nat, a: Arrival<F>)
    requires Inv(s) && n < s.lowest + WINDOW
    ensures var t := AfterArrival(s, n, a);
            Payloads(Frames(t.log, s.lowest, t.lowest)) ==
              if n != s.lowest then []
              else (if a.Data? then [a.frame] else []) + Payloads(Frames(t.log, n + 1, t.lowest))
  {
    var t := AfterArrival(s, n, a);
    if n == s.lowest {
      assert t.log[n] == a && t.lowest > n;
      if a.Data? {
        PayloadsConcat([Held(n, a.frame)], Frames(t.log, n + 1, t.lowest));
        assert Payloads([Held(n, a.frame)]) == Payloads([]) + [a.frame];
      } else {
        assert Frames(t.log, s.lowest, t.lowest) == Frames(t.log, n + 1, t.lowest);
      }
    } else {
      assert t.lowest == s.lowest;
    }
  }

  /** A block ack request past the lowest missing number splits the queue into the frames
      below the new start and the frames of the new window. */
  lemma {:induction false} QueueSplit<F>(log: map<nat, Arrival<F>>, lo: nat, hi: nat, b: nat)
    requires lo <= b && hi <= b + WINDOW && forall n :: n in log ==> n < hi
    ensures var q, below := Frames(log, lo, hi), |Frames(log, lo, b)|;
            && below <= |q|
            && q[..below] == Frames(log, lo, b)
            && q[below..] == Frames(log, b, b + WINDOW)
            && (forall i :: 0 <= i < below ==> q[i].number < b)
            && (below < |q| ==> q[below].number >= b)
  {
    FramesExtend(log, lo, hi, b + WINDOW);
    FramesSplit(log, lo, b, b + WINDOW);
    FramesBelowAbove(log, lo, b, b + WINDOW);
  }

  lemma {:induction false} FramesBelowAbove<F>(log: map<nat, Arrival<F>>, lo: nat, mid: nat, hi: nat)
    ensures forall i :: 0 <= i < |Frames(log, lo, mid)| ==> Frames(log, lo, mid)[i].number < mid
    ensures forall i :: 0 <= i < |Frames(log, mid, hi)| ==> Frames(log, mid, hi)[i].number >= mid
  {
    FramesExact(log, lo, mid);
    FramesExact(log, mid, hi);
    var p, q := Frames(log, lo, mid), Frames(log, mid, hi);
    assert forall i :: 0 <= i < |p| ==> p[i] in p;
    assert forall i :: 0 <= i < |q| ==> q[i] in q;
  }

  // ---------------------------------------------------------------------------------
  // One link

  class BufferLinkInfo<F> {
    var blockAckSessionIsActive: bool
    var frameBuffer: seq<Held<F>>
    var currentLowestUnreceivedSequenceNumber: nat
    var bitmapWindowStartSequenceNumber: nat
    var blockAckBitmap: seq<bool>

    ghost var session: Session<F>

    /** The counters and the scoreboard are those of the session. */
    ghost predicate Matches()
      reads this
    {
      && Inv(session)
      && bitmapWindowStartSequenceNumber == session.windowStart
      && currentLowestUnreceivedSequenceNumber == session.lowest
      && blockAckBitmap == Scoreboard(session.log, session.windowStart)
    }

    /** The queue as well: it holds what is logged and not yet handed up. */
    ghost predicate InStep()
      reads this
    {
      Matches() && frameBuffer == Frames(session.log, session.lowest, session.windowStart + WINDOW)
    }

    /** Without a session only the filter's counter is in use. */
    ghost predicate Unused()
      reads this
    {
      && frameBuffer == []
      && bitmapWindowStartSequenceNumber == 1
      && blockAckBitmap == seq(WINDOW, i => false)
    }

    ghost predicate Valid()
      reads this
    {
      if blockAckSessionIsActive then InStep() else Unused()
    }

    constructor ()
      ensures Valid() && !blockAckSessionIsActive
      ensures currentLowestUnreceivedSequenceNumber == 1
    {
      blockAckSessionIsActive := false;
      frameBuffer := [];
      currentLowestUnreceivedSequenceNumber := 1;
      bitmapWindowStartSequenceNumber := 1;
      blockAckBitmap := seq(WINDOW, i => false);
      session := Fresh(1);
    }

    /** One turn of the loop below: the asserted top of the queue is handed up. */
    method HandUpTop(up: seq<F>, ghost log: map<nat, Arrival<F>>, ghost first: nat, ghost k: nat, ghost hi: nat)
      returns (released: seq<F>)
      requires first <= k < hi && k in log && log[k].Data?
      requires currentLowestUnreceivedSequenceNumber == k && frameBuffer == Frames(log, k, hi)
      requires up == Payloads(Frames(log, first, k))
      modifies this`frameBuffer, this`currentLowestUnreceivedSequenceNumber
      ensures currentLowestUnreceivedSequenceNumber == k + 1 && frameBuffer == Frames(log, k + 1, hi)
      ensures released == Payloads(Frames(log, first, k + 1))
    {
      DrainStep(log, first, k, hi, frameBuffer);
      assert frameBuffer != [];
      assert frameBuffer[0].number == currentLowestUnreceivedSequenceNumber;
      released := up + [frameBuffer[0].frame];
      frameBuffer := frameBuffer[1..];
      currentLowestUnreceivedSequenceNumber := currentLowestUnreceivedSequenceNumber + 1;
    }

    /** The loop that both drain sites share: while the scoreboard shows the next number
        as received, hand up the top of the queue, which must be that number. */
    method DrainFrom(firstOffset: nat, ghost log: map<nat, Arrival<F>>, ghost w: nat, ghost gap: nat)
      returns (released: seq<F>)
      requires blockAckBitmap == Scoreboard(log, w)
      requires currentLowestUnreceivedSequenceNumber == w + firstOffset
      requires frameBuffer == Frames(log, w + firstOffset, w + WINDOW)
      requires RunOfData(log, w + firstOffset, gap) && gap <= w + WINDOW
      modifies this`frameBuffer, this`currentLowestUnreceivedSequenceNumber
      ensures currentLowestUnreceivedSequenceNumber == gap
      ensures frameBuffer == Frames(log, gap, w + WINDOW)
      ensures released == Payloads(Frames(log, w + firstOffset, gap))
    {
      released := [];
      var i := firstOffset;
      ghost var first, hi, k := w + firstOffset, w + WINDOW, w + firstOffset;
      DrainGuard(log, w, first, i, gap);
      while i < WINDOW && blockAckBitmap[i]
        invariant firstOffset <= i && first <= k == w + i <= gap
        invariant i < WINDOW && blockAckBitmap[i] <==> k < gap
        invariant currentLowestUnreceivedSequenceNumber == k && frameBuffer == Frames(log, k, hi)
        invariant released == Payloads(Frames(log, first, k))
        decreases gap - k
      {
        released := HandUpTop(released, log, first, k, hi);
        i, k := i + 1, k + 1;
        DrainGuard(log, w, first, i, gap);
      }
    }

    /** Last branch of UpdateReceivedFrameBitmap: a number at or past the window's end. */
    method SlideWindow(sequenceNumber: nat, ghost arrival: Arrival<F>) returns (frameIsInOrder: bool)
      requires InStep() && blockAckSessionIsActive
      requires bitmapWindowStartSequenceNumber + WINDOW <= sequenceNumber
      requires sequenceNumber < currentLowestUnreceivedSequenceNumber + WINDOW
      modifies this`currentLowestUnreceivedSequenceNumber, this`bitmapWindowStartSequenceNumber
      modifies this`blockAckBitmap, this`session
      ensures session == AfterArrival(old(session), sequenceNumber, arrival) && Matches()
      ensures frameIsInOrder == (sequenceNumber == old(session.lowest))
      ensures frameIsInOrder ==> InStep() && Frames(session.log, sequenceNumber + 1, session.lowest) == []
    {
      frameIsInOrder := false;
      ghost var s := session;
      session := AfterArrival(s, sequenceNumber, arrival);
      if sequenceNumber == currentLowestUnreceivedSequenceNumber &&
         sequenceNumber == bitmapWindowStartSequenceNumber + WINDOW {

        ArrivalAtEnd(s, arrival);
        assert frameBuffer == [];

        frameIsInOrder := true;
        currentLowestUnreceivedSequenceNumber := currentLowestUnreceivedSequenceNumber + 1;
        bitmapWindowStartSequenceNumber := bitmapWindowStartSequenceNumber + 1;
        blockAckBitmap := seq(WINDOW, i => true);
      } else {
        ArrivalBeyond(s, sequenceNumber, arrival);
        var shiftCount := sequenceNumber - (bitmapWindowStartSequenceNumber + WINDOW - 1);
        blockAckBitmap := ShiftDown(blockAckBitmap, shiftCount);
        blockAckBitmap := blockAckBitmap[WINDOW - 1 := true];
        bitmapWindowStartSequenceNumber := bitmapWindowStartSequenceNumber + shiftCount;
        assert bitmapWindowStartSequenceNumber <= currentLowestUnreceivedSequenceNumber;
      }
    }

    /** The number is the lowest missing one: the unbroken run behind it is released. */
    method ReleaseRun(offset: nat, ghost arrival: Arrival<F>, ghost s: Session<F>, ghost t: Session<F>)
      returns (bufferedPacketsToSendUp: seq<F>)
      requires Inv(s) && s.lowest == s.windowStart + offset < s.windowStart + WINDOW
      requires t == AfterArrival(s, s.lowest, arrival) && t.windowStart == s.windowStart
      requires Drainable(s.log, s.lowest + 1, t.lowest)
      requires currentLowestUnreceivedSequenceNumber == s.lowest
      requires blockAckBitmap == Scoreboard(t.log, t.windowStart)
      requires frameBuffer == Frames(s.log, s.lowest, s.windowStart + WINDOW)
      modifies this`currentLowestUnreceivedSequenceNumber, this`frameBuffer
      ensures currentLowestUnreceivedSequenceNumber == t.lowest
      ensures frameBuffer == Frames(t.log, t.lowest, t.windowStart + WINDOW)
      ensures bufferedPacketsToSendUp == Payloads(Frames(t.log, s.lowest + 1, t.lowest))
    {
      currentLowestUnreceivedSequenceNumber := currentLowestUnreceivedSequenceNumber + 1;
      ArrivalInOrder(s, arrival, t);
      bufferedPacketsToSendUp := DrainFrom(offset + 1, t.log, t.windowStart, t.lowest);
    }

    /** First branch of UpdateReceivedFrameBitmap: a number inside the window whose bit is
        still clear. */
    method MarkInWindow(sequenceNumber: nat, offset: nat, ghost arrival: Arrival<F>,
                        ghost s: Session<F>, ghost t: Session<F>)
      returns (frameIsInOrder: bool, bufferedPacketsToSendUp: seq<F>)
      requires InStep() && session == s && sequenceNumber == s.windowStart + offset
      requires offset < WINDOW && s.lowest <= sequenceNumber && sequenceNumber !in s.log
      requires t == AfterArrival(s, sequenceNumber, arrival) && Drainable(s.log, s.lowest + 1, t.lowest)
      modifies this`currentLowestUnreceivedSequenceNumber, this`frameBuffer, this`blockAckBitmap, this`session
      ensures session == t && Matches() && frameIsInOrder == (sequenceNumber == s.lowest)
      ensures frameIsInOrder ==>
                InStep() && bufferedPacketsToSendUp == Payloads(Frames(t.log, sequenceNumber + 1, t.lowest))
      ensures !frameIsInOrder ==> frameBuffer == old(frameBuffer) && bufferedPacketsToSendUp == []
    {
      frameIsInOrder, bufferedPacketsToSendUp := false, [];
      ArrivalInWindow(s, sequenceNumber, arrival, t);
      session := t;
      blockAckBitmap := blockAckBitmap[offset := true];
      if sequenceNumber == currentLowestUnreceivedSequenceNumber {
        frameIsInOrder := true;
        bufferedPacketsToSendUp := ReleaseRun(offset, arrival, s, t);
      }
    }

    method UpdateReceivedFrameBitmap(sequenceNumber: nat, ghost arrival: Arrival<F>)
      returns (frameIsInOrder: bool, haveAlreadySeenThisFrame: bool, bufferedPacketsToSendUp: seq<F>)
      requires InStep() && blockAckSessionIsActive
      requires sequenceNumber < currentLowestUnreceivedSequenceNumber + WINDOW
      requires Drainable(session.log, session.lowest + 1, AfterArrival(session, sequenceNumber, arrival).lowest)
      modifies this
      ensures blockAckSessionIsActive
      ensures session == AfterArrival(old(session), sequenceNumber, arrival) && Matches()
      ensures haveAlreadySeenThisFrame == Seen(old(session), sequenceNumber)
      ensures frameIsInOrder == (sequenceNumber == old(session.lowest))
      ensures frameIsInOrder ==>
                InStep() && bufferedPacketsToSendUp == Payloads(Frames(session.log, sequenceNumber + 1, session.lowest))
      ensures !frameIsInOrder ==> frameBuffer == old(frameBuffer) && bufferedPacketsToSendUp == []
    {
      frameIsInOrder := false;
      haveAlreadySeenThisFrame := false;
      bufferedPacketsToSendUp := [];

      if sequenceNumber < currentLowestUnreceivedSequenceNumber {
        haveAlreadySeenThisFrame := true;
        return;
      }

      assert bitmapWindowStartSequenceNumber <= currentLowestUnreceivedSequenceNumber;

      if sequenceNumber >= bitmapWindowStartSequenceNumber &&
         sequenceNumber < bitmapWindowStartSequenceNumber + WINDOW {

        var offset := sequenceNumber - bitmapWindowStartSequenceNumber;

        if blockAckBitmap[offset] {
          haveAlreadySeenThisFrame := true;
          return;
        }

        frameIsInOrder, bufferedPacketsToSendUp :=
          MarkInWindow(sequenceNumber, offset, arrival, session, AfterArrival(session, sequenceNumber, arrival));
      } else {
        frameIsInOrder := SlideWindow(sequenceNumber, arrival);
      }
    }

    /** Without a session nothing is buffered; the counter only filters repetitions. */
    method FilterRepetition(headerSequenceNumber: SeqNum) returns (haveAlreadySeenThisFrame: bool)
      requires !blockAckSessionIsActive
      modifies this`currentLowestUnreceivedSequenceNumber
      ensures var lowest := old(currentLowestUnreceivedSequenceNumber);
              var n := ToNonWrapping(lowest, headerSequenceNumber);
              && haveAlreadySeenThisFrame == (n < lowest)
              && currentLowestUnreceivedSequenceNumber == if n < lowest then lowest else n + 1
    {
      haveAlreadySeenThisFrame := false;
      var sequenceNumberDifference :=
        TwelveBitDifference(headerSequenceNumber, ToHeader(currentLowestUnreceivedSequenceNumber));
      if sequenceNumberDifference < 0 {
        haveAlreadySeenThisFrame := true;
      } else {
        currentLowestUnreceivedSequenceNumber :=
          currentLowestUnreceivedSequenceNumber + (1 + sequenceNumberDifference);
      }
    }

    /** A data frame with a decoded number: handed up, held or dropped. */
    method AcceptData(frame: F, sequenceNumber: nat)
      returns (frameIsInOrder: bool, haveAlreadySeenThisFrame: bool, bufferedPacketsToSendUp: seq<F>)
      requires Valid() && blockAckSessionIsActive
      requires sequenceNumber < session.lowest + WINDOW
      requires Drainable(session.log, session.lowest + 1, AfterArrival(session, sequenceNumber, Data(frame)).lowest)
      modifies this
      ensures Valid() && blockAckSessionIsActive
      ensures session == AfterArrival(old(session), sequenceNumber, Data(frame))
      ensures haveAlreadySeenThisFrame == Seen(old(session), sequenceNumber)
      ensures frameIsInOrder == (sequenceNumber == old(session.lowest))
      ensures (if frameIsInOrder then [frame] else []) + bufferedPacketsToSendUp
              == Payloads(Frames(session.log, old(session.lowest), session.lowest))
    {
      ghost var s := session;
      ArrivalOutput(s, sequenceNumber, Data(frame));
      frameIsInOrder, haveAlreadySeenThisFrame, bufferedPacketsToSendUp :=
        UpdateReceivedFrameBitmap(sequenceNumber, Data(frame));

      if !frameIsInOrder && !haveAlreadySeenThisFrame {
        OutOfOrderQueue(s, sequenceNumber, Data(frame));
        frameBuffer := Push(frameBuffer, Held(sequenceNumber, frame));
      }
    }

    /** A frame without data: it takes its number, but there is nothing to hold. */
    method AcceptNonData(sequenceNumber: nat)
      returns (haveAlreadySeenThisFrame: bool, bufferedPacketsToSendUp: seq<F>)
      requires Valid() && blockAckSessionIsActive
      requires sequenceNumber < session.lowest + WINDOW
      requires Drainable(session.log, session.lowest + 1, AfterArrival(session, sequenceNumber, NonData).lowest)
      modifies this
      ensures Valid() && blockAckSessionIsActive
      ensures session == AfterArrival(old(session), sequenceNumber, NonData)
      ensures haveAlreadySeenThisFrame == Seen(old(session), sequenceNumber)
      ensures bufferedPacketsToSendUp == Payloads(Frames(session.log, old(session.lowest), session.lowest))
    {
      ghost var s := session;
      ArrivalOutput(s, sequenceNumber, NonData);
      var notUsed;
      notUsed, haveAlreadySeenThisFrame, bufferedPacketsToSendUp :=
        UpdateReceivedFrameBitmap(sequenceNumber, NonData);
      if !notUsed && !haveAlreadySeenThisFrame {
        OutOfOrderQueue(s, sequenceNumber, NonData);
      }
    }

    /** First drain loop of a block ack request: everything held below the new start. */
    method PopBelow(startingSequenceNumber: nat, ghost count: nat) returns (released: seq<F>)
      requires count <= |frameBuffer|
      requires forall i :: 0 <= i < count ==> frameBuffer[i].number < startingSequenceNumber
      requires count < |frameBuffer| ==> frameBuffer[count].number >= startingSequenceNumber
      modifies this`frameBuffer
      ensures frameBuffer == old(frameBuffer)[count..]
      ensures released == Payloads(old(frameBuffer)[..count])
    {
      released := [];
      ghost var q, i := frameBuffer, 0;
      while frameBuffer != [] && frameBuffer[0].number < startingSequenceNumber
        invariant 0 <= i <= count && frameBuffer == q[i..]
        invariant released == Payloads(q[..i])
        decreases |frameBuffer|
      {
        assert q[..i + 1][..i] == q[..i];
        released := released + [frameBuffer[0].frame];
        frameBuffer := frameBuffer[1..];
        i := i + 1;
      }
    }

    /** Second half of MoveStart: the gap below the new start is given up. */
    method ReleaseTo(startingSequenceNumber: nat, ghost s: Session<F>) returns (bufferedPacketsToSendUp: seq<F>)
      requires Inv(s) && s.lowest < startingSequenceNumber
      requires Drainable(s.log, startingSequenceNumber, AfterRequest(s, startingSequenceNumber).lowest)
      requires frameBuffer == Frames(s.log, s.lowest, s.windowStart + WINDOW)
      requires bitmapWindowStartSequenceNumber == startingSequenceNumber
      requires blockAckBitmap == Scoreboard(s.log, startingSequenceNumber)
      modifies this`frameBuffer, this`currentLowestUnreceivedSequenceNumber
      ensures currentLowestUnreceivedSequenceNumber == AfterRequest(s, startingSequenceNumber).lowest
      ensures frameBuffer == Frames(s.log, currentLowestUnreceivedSequenceNumber, startingSequenceNumber + WINDOW)
      ensures bufferedPacketsToSendUp == Payloads(Frames(s.log, s.lowest, currentLowestUnreceivedSequenceNumber))
    {
      ghost var log, b, gap := s.log, startingSequenceNumber, AfterRequest(s, startingSequenceNumber).lowest;
      QueueSplit(log, s.lowest, s.windowStart + WINDOW, b);
      ghost var below := Frames(log, s.lowest, b);
      bufferedPacketsToSendUp := PopBelow(startingSequenceNumber, |below|);
      assert bufferedPacketsToSendUp == Payloads(below);
      currentLowestUnreceivedSequenceNumber := startingSequenceNumber;
      var inOrder := DrainFrom(0, log, b, gap);
      PayloadsSplit(log, s.lowest, b, gap);
      bufferedPacketsToSendUp := bufferedPacketsToSendUp + inOrder;
    }

    /** A block ack request with a decoded number moves the start of the window and hands up
        what the move releases. */
    method MoveStart(startingSequenceNumber: nat) returns (bufferedPacketsToSendUp: seq<F>)
      requires Valid() && blockAckSessionIsActive
      requires session.windowStart <= startingSequenceNumber
      requires startingSequenceNumber > session.lowest ==>
                 Drainable(session.log, startingSequenceNumber, AfterRequest(session, startingSequenceNumber).lowest)
      modifies this
      ensures Valid() && blockAckSessionIsActive
      ensures session == AfterRequest(old(session), startingSequenceNumber)
      ensures bitmapWindowStartSequenceNumber == startingSequenceNumber
      ensures bufferedPacketsToSendUp == Payloads(Frames(session.log, old(session.lowest), session.lowest))
    {
      bufferedPacketsToSendUp := [];
      ghost var s := session;

      if bitmapWindowStartSequenceNumber == startingSequenceNumber {
        assert Frames(s.log, s.lowest, s.lowest) == [];
        return;
      }

      session := AfterRequest(s, startingSequenceNumber);
      assert bitmapWindowStartSequenceNumber < startingSequenceNumber;

      var shiftCount := startingSequenceNumber - bitmapWindowStartSequenceNumber;
      ScoreboardShift(s.log, s.windowStart, startingSequenceNumber);
      bitmapWindowStartSequenceNumber := startingSequenceNumber;
      blockAckBitmap := ShiftDown(blockAckBitmap, shiftCount);

      if currentLowestUnreceivedSequenceNumber < startingSequenceNumber {
        bufferedPacketsToSendUp := ReleaseTo(startingSequenceNumber, s);
      } else {
        FramesExtend(s.log, s.lowest, s.windowStart + WINDOW, startingSequenceNumber + WINDOW);
        assert Frames(s.log, s.lowest, s.lowest) == [];
      }
    }

    /** A block ack request without a session starts one at the requested number. */
    method StartSession(startingSequenceControl: SeqNum)
      requires Valid() && !blockAckSessionIsActive
      modifies this
      ensures Valid() && blockAckSessionIsActive && session == Fresh(startingSequenceControl)
    {
      blockAckSessionIsActive := true;
      bitmapWindowStartSequenceNumber := startingSequenceControl;
      currentLowestUnreceivedSequenceNumber := startingSequenceControl;
      session := Fresh(startingSequenceControl);
      FramesEmpty(session.log, startingSequenceControl, startingSequenceControl + WINDOW);
    }
  }

  // ---------------------------------------------------------------------------------
  // All links of a receiver

  datatype LinkKey = LinkKey(transmitterAddress: MacAddress, trafficId: nat)

  /** What is known about a link: without a session only the repetition filter. */
  datatype LinkView<F> = Idle(lowest: nat) | Active(session: Session<F>)

  /** The repetition filter of an idle link after a frame with number `n`. */
  function AfterFilter(lowest: nat, n: int): nat {
    if n < lowest then lowest else n + 1
  }

  /** The assertions of the source hold when this event reaches this link. */
  ghost predicate Ready<F>(v: LinkView<F>, e: Event<F>) {
    v.Active? ==> Inv(v.session) && Enabled(v.session, e)
  }

  /** What a data frame does to a link: without a session it is handed up unless its number
      is behind the filter; in a session it makes the session's step, and the frame itself
      (when in order) and the released frames are what that step outputs. */
  ghost predicate DataStep<F>(v: LinkView<F>, v': LinkView<F>, h: SeqNum, f: F, inOrder: bool, seen: bool, up: seq<F>)
    requires Ready(v, Frame(h, Data(f)))
  {
    match v
    case Idle(lowest) =>
      var n := ToNonWrapping(lowest, h);
      v' == Idle(AfterFilter(lowest, n)) && seen == !inOrder == (n < lowest) && up == []
    case Active(s) =>
      var n := TrueNumber(s, Frame(h, Data(f)));
      && v' == Active(Next(s, Frame(h, Data(f))))
      && seen == Seen(s, n) && inOrder == (n == s.lowest)
      && (if inOrder then [f] else []) + up == Payloads(Output(s, Frame(h, Data(f))))
  }

  /** The same for a frame that carries no data. */
  ghost predicate NonDataStep<F>(v: LinkView<F>, v': LinkView<F>, h: SeqNum, seen: bool, up: seq<F>)
    requires Ready(v, Frame(h, NonData))
  {
    match v
    case Idle(lowest) =>
      var n := ToNonWrapping(lowest, h);
      v' == Idle(AfterFilter(lowest, n)) && seen == (n < lowest) && up == []
    case Active(s) =>
      && v' == Active(Next(s, Frame(h, NonData)))
      && seen == Seen(s, TrueNumber(s, Frame(h, NonData)))
      && up == Payloads(Output(s, Frame(h, NonData)))
  }

  lemma {:induction false} RequestEnabled<F>(s: Session<F>, e: Event<F>, b: int)
    requires Inv(s) && e.Request? && Enabled(s, e) && b == TrueNumber(s, e)
    ensures s.windowStart <= b && Next(s, e) == AfterRequest(s, b)
    ensures b > s.lowest ==> Drainable(s.log, b, AfterRequest(s, b).lowest)
    ensures Output(s, e) == Frames(AfterRequest(s, b).log, s.lowest, AfterRequest(s, b).lowest)
  {
  }

  class IncomingFrameBuffer<F> {
    var linkInfoMap: map<LinkKey, BufferLinkInfo<F>>

    ghost predicate Valid()
      reads this, linkInfoMap.Values
    {
      && (forall k :: k in linkInfoMap ==> linkInfoMap[k].Valid())
      && (forall k, k' :: k in linkInfoMap && k' in linkInfoMap && k != k' ==> linkInfoMap[k] != linkInfoMap[k'])
    }

    /** A link nobody has used yet is idle, expecting number 1. */
    ghost function ViewOf(key: LinkKey): LinkView<F>
      reads this, linkInfoMap.Values
    {
      if key !in linkInfoMap then Idle(1)
      else if linkInfoMap[key].blockAckSessionIsActive then Active(linkInfoMap[key].session)
      else Idle(linkInfoMap[key].currentLowestUnreceivedSequenceNumber)
    }

    /** Every other link is as it was. */
    twostate predicate OthersUnchanged(key: LinkKey)
      reads this, linkInfoMap.Values
    {
      forall k :: k != key ==> ViewOf(k) == old(ViewOf(k))
    }

    /** The link has an entry, a new one if there was none; the other entries are the same. */
    twostate predicate OnlyAdds(key: LinkKey)
      reads this
    {
      && key in linkInfoMap
      && (if key in old(linkInfoMap) then linkInfoMap == old(linkInfoMap)
          else fresh(linkInfoMap[key]) && linkInfoMap == old(linkInfoMap)[key := linkInfoMap[key]])
    }

    constructor ()
      ensures Valid() && forall k :: ViewOf(k) == Idle(1)
    {
      linkInfoMap := map[];
    }

    /** Indexing the map creates the entry of a link on first use. */
    method Link(key: LinkKey) returns (info: BufferLinkInfo<F>)
      requires Valid()
      modifies this
      ensures Valid() && key in linkInfoMap && info == linkInfoMap[key]
      ensures OnlyAdds(key)
      ensures forall k :: ViewOf(k) == old(ViewOf(k))
    {
      if key !in linkInfoMap {
        var created := new BufferLinkInfo<F>();
        linkInfoMap := linkInfoMap[key := created];
      }
      info := linkInfoMap[key];
    }

    /** Regular mode, shared by frames with and without data. */
    method FilterOnLink(key: LinkKey, headerSequenceNumber: SeqNum, ghost lowest: nat)
      returns (haveAlreadySeenThisFrame: bool)
      requires Valid() && key in linkInfoMap && ViewOf(key) == Idle(lowest)
      modifies linkInfoMap.Values
      ensures Valid() && OthersUnchanged(key)
      ensures ViewOf(key) == Idle(AfterFilter(lowest, ToNonWrapping(lowest, headerSequenceNumber)))
      ensures haveAlreadySeenThisFrame == (ToNonWrapping(lowest, headerSequenceNumber) < lowest)
    {
      var info := linkInfoMap[key];
      haveAlreadySeenThisFrame := info.FilterRepetition(headerSequenceNumber);
    }

    /** Block Ack mode, shared by single frames and frames of an aggregate. */
    method DataInSession(aFrame: F, key: LinkKey, headerSequenceNumber: SeqNum, ghost s: Session<F>)
      returns (frameIsInOrder: bool, haveAlreadySeenThisFrame: bool, bufferedPacketsToSendUp: seq<F>)
      requires Valid() && ViewOf(key) == Active(s) && Ready(Active(s), Frame(headerSequenceNumber, Data(aFrame)))
      modifies linkInfoMap.Values
      ensures Valid() && OthersUnchanged(key)
      ensures DataStep(Active(s), ViewOf(key), headerSequenceNumber, aFrame,
                       frameIsInOrder, haveAlreadySeenThisFrame, bufferedPacketsToSendUp)
    {
      var info := linkInfoMap[key];
      var sequenceNumber := ToNonWrapping(info.bitmapWindowStartSequenceNumber + WINDOW, headerSequenceNumber);
      frameIsInOrder, haveAlreadySeenThisFrame, bufferedPacketsToSendUp := info.AcceptData(aFrame, sequenceNumber);
    }

    method ProcessIncomingFrame(aFrame: F, key: LinkKey, headerSequenceNumber: SeqNum)
      returns (frameIsInOrder: bool, haveAlreadySeenThisFrame: bool, bufferedPacketsToSendUp: seq<F>)
      requires Valid()
      requires Ready(ViewOf(key), Frame(headerSequenceNumber, Data(aFrame)))
      modifies this, linkInfoMap.Values
      ensures Valid() && OthersUnchanged(key)
      ensures OnlyAdds(key)
      ensures DataStep(old(ViewOf(key)), ViewOf(key), headerSequenceNumber, aFrame,
                       frameIsInOrder, haveAlreadySeenThisFrame, bufferedPacketsToSendUp)
    {
      var info := Link(key);
      if !info.blockAckSessionIsActive {
        haveAlreadySeenThisFrame :=
          FilterOnLink(key, headerSequenceNumber, info.currentLowestUnreceivedSequenceNumber);
        frameIsInOrder, bufferedPacketsToSendUp := !haveAlreadySeenThisFrame, [];
      } else {
        frameIsInOrder, haveAlreadySeenThisFrame, bufferedPacketsToSendUp :=
          DataInSession(aFrame, key, headerSequenceNumber, info.session);
      }
    }

    /** One frame of an aggregate.  The source asserts that a session is active. */
    method ProcessIncomingSubframe(aFrame: F, key: LinkKey, headerSequenceNumber: SeqNum)
      returns (frameIsInOrder: bool, haveAlreadySeenThisFrame: bool, bufferedPacketsToSendUp: seq<F>)
      requires Valid()
      requires ViewOf(key).Active? && Ready(ViewOf(key), Frame(headerSequenceNumber, Data(aFrame)))
      modifies this, linkInfoMap.Values
      ensures Valid() && OthersUnchanged(key)
      ensures OnlyAdds(key)
      ensures DataStep(old(ViewOf(key)), ViewOf(key), headerSequenceNumber, aFrame,
                       frameIsInOrder, haveAlreadySeenThisFrame, bufferedPacketsToSendUp)
    {
      var info := Link(key);
      frameIsInOrder, haveAlreadySeenThisFrame, bufferedPacketsToSendUp :=
        DataInSession(aFrame, key, headerSequenceNumber, info.session);
    }

    /** Block Ack mode for a frame without data. */
    method NonDataInSession(key: LinkKey, headerSequenceNumber: SeqNum, ghost s: Session<F>)
      returns (haveAlreadySeenThisFrame: bool, bufferedPacketsToSendUp: seq<F>)
      requires Valid() && ViewOf(key) == Active(s) && Ready(Active(s), Frame(headerSequenceNumber, NonData))
      modifies linkInfoMap.Values
      ensures Valid() && OthersUnchanged(key)
      ensures NonDataStep(Active(s), ViewOf(key), headerSequenceNumber,
                          haveAlreadySeenThisFrame, bufferedPacketsToSendUp)
    {
      var info := linkInfoMap[key];
      var sequenceNumber := ToNonWrapping(info.bitmapWindowStartSequenceNumber + WINDOW, headerSequenceNumber);
      haveAlreadySeenThisFrame, bufferedPacketsToSendUp := info.AcceptNonData(sequenceNumber);
    }

    method ProcessIncomingNonDataFrame(key: LinkKey, headerSequenceNumber: SeqNum)
      returns (haveAlreadySeenThisFrame: bool, bufferedPacketsToSendUp: seq<F>)
      requires Valid()
      requires Ready(ViewOf(key), Frame(headerSequenceNumber, NonData))
      modifies this, linkInfoMap.Values
      ensures Valid() && OthersUnchanged(key)
      ensures OnlyAdds(key)
      ensures NonDataStep(old(ViewOf(key)), ViewOf(key), headerSequenceNumber,
                          haveAlreadySeenThisFrame, bufferedPacketsToSendUp)
    {
      var info := Link(key);
      if !info.blockAckSessionIsActive {
        haveAlreadySeenThisFrame :=
          FilterOnLink(key, headerSequenceNumber, info.currentLowestUnreceivedSequenceNumber);
        bufferedPacketsToSendUp := [];
      } else {
        haveAlreadySeenThisFrame, bufferedPacketsToSendUp :=
          NonDataInSession(key, headerSequenceNumber, info.session);
      }
    }

    /** Block Ack mode for a request. */
    method RequestInSession(key: LinkKey, startingSequenceControl: SeqNum, ghost s: Session<F>, ghost e: Event<F>)
      returns (bufferedPacketsToSendUp: seq<F>)
      requires Valid() && ViewOf(key) == Active(s) && Inv(s) && Enabled(s, e) && e == Request(startingSequenceControl)
      modifies linkInfoMap.Values
      ensures Valid() && OthersUnchanged(key)
      ensures ViewOf(key) == Active(Next(s, e)) && bufferedPacketsToSendUp == Payloads(Output(s, e))
    {
      var info := linkInfoMap[key];
      var startingSequenceNumber :=
        ToNonWrapping(info.bitmapWindowStartSequenceNumber + WINDOW, startingSequenceControl);
      RequestEnabled(s, e, startingSequenceNumber);
      bufferedPacketsToSendUp := info.MoveStart(startingSequenceNumber);
    }

    method ProcessBlockAckRequestFrame(key: LinkKey, startingSequenceControl: SeqNum)
      returns (bufferedPacketsToSendUp: seq<F>)
      requires Valid()
      requires Ready(ViewOf(key), Request(startingSequenceControl))
      modifies this, linkInfoMap.Values
      ensures Valid() && OthersUnchanged(key)
      ensures OnlyAdds(key)
      ensures match old(ViewOf(key))
              case Idle(_) =>
                ViewOf(key) == Active(Fresh(startingSequenceControl)) && bufferedPacketsToSendUp == []
              case Active(s) =>
                && ViewOf(key) == Active(Next(s, Request(startingSequenceControl)))
                && bufferedPacketsToSendUp == Payloads(Output(s, Request(startingSequenceControl)))
    {
      var info := Link(key);
      if !info.blockAckSessionIsActive {
        info.StartSession(startingSequenceControl);
        bufferedPacketsToSendUp := [];
        return;
      }
      bufferedPacketsToSendUp := RequestInSession(key, startingSequenceControl, info.session,
                                                  Request(startingSequenceControl));
    }

    method GetBlockAckInfo(key: LinkKey)
      returns (success: bool, startSequenceNumber: SeqNum, blockAckBitmap: seq<bool>)
      requires Valid()
      ensures success == (key in linkInfoMap)
      ensures ViewOf(key).Active? ==>
                && startSequenceNumber == ToHeader(ViewOf(key).session.windowStart)
                && blockAckBitmap == Scoreboard(ViewOf(key).session.log, ViewOf(key).session.windowStart)
      ensures success && ViewOf(key).Idle? ==> startSequenceNumber == 1 && blockAckBitmap == seq(WINDOW, i => false)
    {
      success, startSequenceNumber, blockAckBitmap := false, 0, [];
      if key !in linkInfoMap {
        return;
      }
      var info := linkInfoMap[key];
      startSequenceNumber := ToHeader(info.bitmapWindowStartSequenceNumber);
      blockAckBitmap := info.blockAckBitmap;
      success := true;
    }

    /** No step leaves a frame behind that could already have been handed up. */
    method HasFramesToSendUpStack(key: LinkKey) returns (has: bool)
      requires Valid()
      ensures !has
    {
      if key !in linkInfoMap {
        return false;
      }
      var info := linkInfoMap[key];
      if info.blockAckSessionIsActive {
        FramesBelowAbove(info.session.log, 0, info.session.lowest, info.session.windowStart + WINDOW);
      }
      has := info.frameBuffer != [] && info.frameBuffer[0].number < info.currentLowestUnreceivedSequenceNumber;
    }
  }

  // ---------------------------------------------------------------------------------
  // What the peer learns from a block acknowledgement

  /** The receiver's report for one sequence number, on the side of the peer. */
  predicate IsAcked(startingSequenceControl: SeqNum, blockAckBitmap: seq<bool>, sequenceNumber: SeqNum)
    requires |blockAckBitmap| == WINDOW
    requires TwelveBitDifference(sequenceNumber, startingSequenceControl) >= 0
  {
    var offset := TwelveBitDifference(sequenceNumber, startingSequenceControl);
    if offset >= WINDOW then false else blockAckBitmap[offset]
  }

  /** A report is the window's part of the log, across the wrap-around of the headers. */
  lemma {:induction false} AckedIffLogged<F>(log: map<nat, Arrival<F>>, w: nat, n: nat)
    requires w <= n < w + 2048
    ensures TwelveBitDifference(ToHeader(n), ToHeader(w)) >= 0
    ensures IsAcked(ToHeader(w), Scoreboard(log, w), ToHeader(n)) <==> n in log && n < w + WINDOW
  {
    DifferenceIsDistance(w, n);
  }

  /** For every run, and every number less than half the ring above the window's start,
      the report says "acked" exactly when a frame with that true number arrived. */
  lemma {:induction false} AckedIffArrived<F>(start: nat, es: seq<Event<F>>, t: Session<F>, n: nat)
    requires Run(Fresh(start), es) && t == After(Fresh(start), es)
    requires t.windowStart <= n < t.windowStart + 2048
    requires TwelveBitDifference(ToHeader(n), ToHeader(t.windowStart)) >= 0
    ensures IsAcked(ToHeader(t.windowStart), Scoreboard(t.log, t.windowStart), ToHeader(n))
            <==> n in Arrived(Fresh(start), es)
  {
    AckedIffLogged(t.log, t.windowStart, n);
    LogIsArrivals(start, es, t);
  }

  /** At most 63 frames are ever held. */
  lemma {:induction false} QueueBound<F>(s: Session<F>)
    requires Inv(s)
    ensures |Frames(s.log, s.lowest, s.windowStart + WINDOW)| < WINDOW
  {
  }
}
