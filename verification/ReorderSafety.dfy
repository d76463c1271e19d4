/** When the assertions of the drain loops hold.  A frame without data takes its number but leaves
    no frame to hold; if it comes early, the program's scoreboard shows as received what its queue
    does not have. */
module ReorderSafety {
  import opened SequenceNumbers
  import opened ReorderSpec

  // ---------------------------------------------------------------------------------
  // One state

  /** No number at or above the lowest missing one was taken by a frame without data. */
  ghost predicate Tidy<F>(s: Session<F>) {
    forall n :: n in s.log && n >= s.lowest ==> s.log[n].Data?
  }

  /** In a tidy session every event with a number in range passes all assertions. */
  lemma {:induction false} TidyIsEnabled<F>(s: Session<F>, e: Event<F>)
    requires Inv(s) && Tidy(s) && NumberInRange(s, e)
    ensures Enabled(s, e)
  {
  }

  /** An arrival keeps a tidy session tidy exactly when it carries data, was seen before,
      or is the next in order; block ack requests always do. */
  lemma {:induction false} TidyAfterArrival<F>(s: Session<F>, n: nat, a: Arrival<F>)
    requires Inv(s) && Tidy(s) && n < s.lowest + WINDOW
    ensures Tidy(AfterArrival(s, n, a)) <==> a.Data? || Seen(s, n) || n == s.lowest
  {
    var t := AfterArrival(s, n, a);
    if n > s.lowest && !Seen(s, n) {
      assert n in t.log && t.lowest == s.lowest;
    }
  }

  lemma {:induction false} TidyAfterRequest<F>(s: Session<F>, b: nat)
    requires Inv(s) && Tidy(s) && s.windowStart <= b
    ensures Tidy(AfterRequest(s, b))
  {
  }

  /** At a number that was taken without data, a block ack request for it fails. */
  lemma {:induction false} UntidyFails<F>(s: Session<F>, n: nat, e: Event<F>)
    requires Inv(s) && n in s.log && n >= s.lowest && s.log[n].NonData? && e == Request(ToHeader(n))
    ensures NumberInRange(s, e) && !Enabled(s, e)
  {
    AcceptedNumbersDecode(s, e, n);
    var t := AfterRequest(s, n);
    assert t.lowest > n;
  }

  /** Whatever event comes next, if only its number is in range, passes all assertions. */
  ghost predicate SafeNext<F(!new)>(s: Session<F>)
    requires Inv(s)
  {
    forall e: Event<F> :: NumberInRange(s, e) ==> Enabled(s, e)
  }

  /** A session is tidy exactly when every event it can be sent passes all assertions. */
  lemma {:induction false} TidyIffSafe<F(!new)>(s: Session<F>)
    requires Inv(s)
    ensures Tidy(s) <==> SafeNext(s)
  {
    if Tidy(s) {
      forall e: Event<F> | NumberInRange(s, e)
        ensures Enabled(s, e)
      {
        TidyIsEnabled(s, e);
      }
    } else {
      var n :| n in s.log && n >= s.lowest && s.log[n].NonData?;
      UntidyFails(s, n, Request(ToHeader(n)));
    }
  }

  /** A frame without data that arrives early leaves a set bit without a held frame: after
      number 1 without data, data number 0 is in range and yet fails the drain assertion. */
  lemma {:induction false} EarlyNonDataBreaksDrain<F>(f: F)
    ensures var s, early, next := Fresh<F>(0), Frame(1, NonData), Frame(0, Data(f));
            && Enabled(s, early)
            && NumberInRange(Next(s, early), next)
            && !Enabled(Next(s, early), next)
  {
    var s, early, next := Fresh<F>(0), Frame(1, NonData), Frame(0, Data(f));
    AcceptedNumbersDecode(s, early, 1);
    var t := Next(s, early);
    assert t.log == map[1 := NonData] && t.lowest == 0 && t.windowStart == 0;
    AcceptedNumbersDecode(t, next, 0);
    assert AfterArrival(t, 0, Data(f)).lowest == 2;
    assert 1 in t.log && t.log[1].NonData?;
  }

  // ---------------------------------------------------------------------------------
  // Runs that are safe whatever comes next

  /** A frame without data was seen before or is next in order. */
  ghost predicate InTurn<F>(t: Session<F>, e: Event<F>) {
    e.Frame? && e.arrival.NonData? ==> TrueNumber(t, e) <= t.lowest || TrueNumber(t, e) in t.log
  }

  ghost predicate Orderly<F>(s: Session<F>, es: seq<Event<F>>)
    requires Inv(s) && Run(s, es)
  {
    es == [] || (Orderly(s, es[..|es| - 1]) && InTurn(After(s, es[..|es| - 1]), es[|es| - 1]))
  }

  /** At every point of the run, each event that could come passes all assertions. */
  ghost predicate AlwaysSafe<F(!new)>(s: Session<F>, es: seq<Event<F>>)
    requires Inv(s) && Run(s, es)
  {
    SafeNext(After(s, es)) && (es == [] || AlwaysSafe(s, es[..|es| - 1]))
  }

  lemma {:induction false} TidyAfterStep<F>(s: Session<F>, e: Event<F>)
    requires Inv(s) && Tidy(s) && NumberInRange(s, e)
    ensures Tidy(Next(s, e)) <==> InTurn(s, e)
  {
    match e {
      case Frame(_, a) => TidyAfterArrival(s, TrueNumber(s, e), a);
      case Request(_) => TidyAfterRequest(s, TrueNumber(s, e));
    }
  }

  lemma {:induction false} OrderlyIsTidy<F>(s: Session<F>, es: seq<Event<F>>)
    requires Inv(s) && Tidy(s) && Run(s, es) && Orderly(s, es)
    ensures Tidy(After(s, es))
  {
    if es != [] {
      OrderlyIsTidy(s, es[..|es| - 1]);
      TidyAfterStep(After(s, es[..|es| - 1]), es[|es| - 1]);
    }
  }

  /** For every run from a tidy session, whose numbers need only be in range: at every point of
      it, each event that could come passes all assertions, if and only if each frame without
      data was seen before or next in order when it came. */
  lemma {:induction false} OrderlyIffAlwaysSafe<F(!new)>(s: Session<F>, es: seq<Event<F>>)
    requires Inv(s) && Tidy(s) && Run(s, es)
    ensures Orderly(s, es) <==> AlwaysSafe(s, es)
  {
    TidyIffSafe(After(s, es));
    if es != [] {
      var before, e := es[..|es| - 1], es[|es| - 1];
      OrderlyIffAlwaysSafe(s, before);
      if Orderly(s, before) {
        OrderlyIsTidy(s, before);
        TidyAfterStep(After(s, before), e);
      }
    }
  }

  // ---------------------------------------------------------------------------------
  // Which runs pass

  /** Every event of the run passed all assertions when it came. */
  ghost predicate Safe<F>(s: Session<F>, es: seq<Event<F>>)
    requires Inv(s) && Run(s, es)
  {
    es == [] || (Safe(s, es[..|es| - 1]) && Enabled(After(s, es[..|es| - 1]), es[|es| - 1]))
  }

  /** A frame without data took number `n` before its turn. */
  ghost predicate Early<F>(t: Session<F>, e: Event<F>, n: int) {
    Accepts(t, e, n, NonData) && n > t.lowest
  }

  /** At some event of the run a frame without data took `n` before its turn. */
  ghost predicate TakenEarly<F>(s: Session<F>, es: seq<Event<F>>, n: int)
    requires Inv(s) && Run(s, es)
  {
    && es != []
    && (TakenEarly(s, es[..|es| - 1], n) || Early(After(s, es[..|es| - 1]), es[|es| - 1], n))
  }

  /** The step moves the lowest missing number past `n`, and not by starting beyond it. */
  ghost predicate DrainsOver<F>(t: Session<F>, e: Event<F>, n: int)
    requires Inv(t) && NumberInRange(t, e)
  {
    t.lowest <= n < Next(t, e).lowest && !(e.Request? && n < TrueNumber(t, e))
  }

  /** No event of the run drains over a number that was taken early before it. */
  ghost predicate Undrained<F>(s: Session<F>, es: seq<Event<F>>)
    requires Inv(s) && Run(s, es)
  {
    es == [] ||
    var before, e := es[..|es| - 1], es[|es| - 1];
    Undrained(s, before) && forall n :: TakenEarly(s, before, n) ==> !DrainsOver(After(s, before), e, n)
  }

  /** The assertions fail at an event exactly when it drains over a number taken without data. */
  lemma {:induction false} EnabledIff<F>(t: Session<F>, e: Event<F>)
    requires Inv(t) && NumberInRange(t, e)
    ensures Enabled(t, e) <==> forall n :: n in t.log && t.log[n].NonData? && n >= t.lowest ==> !DrainsOver(t, e, n)
  {
  }

  /** What is logged without data above the lowest missing number came early in the run. */
  lemma {:induction false} UntidyIffTakenEarly<F>(s: Session<F>, es: seq<Event<F>>, t: Session<F>, n: nat)
    requires Inv(s) && Tidy(s) && Run(s, es) && t == After(s, es) && n >= t.lowest
    ensures n in t.log && t.log[n].NonData? <==> TakenEarly(s, es, n)
  {
    if es != [] {
      var before, e := es[..|es| - 1], es[|es| - 1];
      var u := After(s, before);
      UntidyIffTakenEarly(s, before, u, n);
      EarlyStep(u, e, n);
    }
  }

  lemma {:induction false} EarlyStep<F>(u: Session<F>, e: Event<F>, n: nat)
    requires Inv(u) && NumberInRange(u, e) && n >= Next(u, e).lowest
    ensures n in Next(u, e).log && Next(u, e).log[n].NonData? <==> (n in u.log && u.log[n].NonData?) || Early(u, e, n)
  {
  }

  /** For every run from a tidy session, whose numbers need only be in range: all assertions of
      all its events hold if and only if no event drains over a number that a frame without data
      took before its turn; a block ack request that starts beyond such a number is harmless. */
  lemma {:induction false} SafeIffUndrained<F>(s: Session<F>, es: seq<Event<F>>)
    requires Inv(s) && Tidy(s) && Run(s, es)
    ensures Safe(s, es) <==> Undrained(s, es)
  {
    if es != [] {
      var before, e := es[..|es| - 1], es[|es| - 1];
      var t := After(s, before);
      SafeIffUndrained(s, before);
      EnabledIff(t, e);
      forall n: nat | n >= t.lowest
        ensures n in t.log && t.log[n].NonData? <==> TakenEarly(s, before, n)
      {
        UntidyIffTakenEarly(s, before, t, n);
      }
    }
  }

  /** In particular where frames without data come in turn. */
  lemma {:induction false} OrderlyIsSafe<F>(s: Session<F>, es: seq<Event<F>>)
    requires Inv(s) && Tidy(s) && Run(s, es) && Orderly(s, es)
    ensures Safe(s, es)
  {
    if es != [] {
      OrderlyIsSafe(s, es[..|es| - 1]);
      OrderlyIsTidy(s, es[..|es| - 1]);
      TidyIsEnabled(After(s, es[..|es| - 1]), es[|es| - 1]);
    }
  }
}
