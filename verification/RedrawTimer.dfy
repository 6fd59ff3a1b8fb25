/** The redraw throttle of Fl_Terminal (src/Fl_Terminal.cxx, display_modified,
    redraw_timer_cb2 and redraw_style; src/Fl_Timeout.cxx) as a machine over time. */
module RedrawThrottle {

  datatype Style = NoRedraw | RateLimited | PerWrite

  /** `pending` holds when the timeouts of the redraw callback are due, earliest first. */
  datatype Throttle = Throttle(style: Style, rate: real, modified: bool, timer: bool, pending: seq<real>, now: real)

  /** New data, time passing, the event loop calling an expired timeout, the two setters. */
  datatype Event = Modify | Pass(to: real) | Fire | SetStyle(style: Style) | SetRate(rate: real)

  /** When a redraw was due and when it happened. */
  datatype Redraw = Redraw(due: real, at: real)

  /** The delay before the first redraw after an idle period, and the least delay. */
  const FIRST := 0.01
  const LEAST := 0.001

  function Init(now: real): Throttle {
    Throttle(RateLimited, 0.10, false, false, [], now)
  }

  function DisplayModified(s: Throttle): (Throttle, seq<Redraw>) {
    if s.modified || s.style == NoRedraw then (s, [])
    else if s.style == RateLimited then
      (if s.timer then s.(modified := true)
       else s.(modified := true, timer := true, pending := Armed(s.pending, s.now + FIRST)), [])
    else (s.(modified := true), [Redraw(s.now, s.now)])
  }

  /** Fl_Timeout::insert: behind every timeout that is not due later. */
  function Armed(pending: seq<real>, due: real): seq<real> {
    if pending == [] || pending[0] > due then [due] + pending else [pending[0]] + Armed(pending[1..], due)
  }

  /** repeat_timeout counts from when the timeout was due, not from when it was called. */
  function NextDue(due: real, rate: real, now: real): real {
    if rate + (due - now) < 0.0 then now + LEAST else due + rate
  }

  /** The callback of a timeout that was due at `due` and is no longer pending. */
  function TimerCallback(s: Throttle, due: real): (Throttle, seq<Redraw>) {
    if s.modified then
      (s.(modified := false, pending := Armed(s.pending, NextDue(due, s.rate, s.now))), [Redraw(due, s.now)])
    else (s.(timer := false, pending := []), [])
  }

  function ChangeStyle(s: Throttle, style: Style): Throttle {
    if style != RateLimited && s.timer then s.(style := style, timer := false, pending := []) else s.(style := style)
  }

  function Step(s: Throttle, e: Event): (Throttle, seq<Redraw>) {
    match e
    case Modify => DisplayModified(s)
    case Pass(to) => (if to > s.now then s.(now := to) else s, [])
    case Fire => if s.pending != [] && s.pending[0] <= s.now then TimerCallback(s.(pending := s.pending[1..]), s.pending[0]) else (s, [])
    case SetStyle(style) => (ChangeStyle(s, style), [])
    case SetRate(rate) => (s.(rate := rate), [])
  }

  function Run(s: Throttle, es: seq<Event>): Throttle
    decreases |es|
  {
    if es == [] then s else Run(Step(s, es[0]).0, es[1..])
  }

  function Redraws(s: Throttle, es: seq<Event>): seq<Redraw>
    decreases |es|
  {
    if es == [] then [] else Step(s, es[0]).1 + Redraws(Step(s, es[0]).0, es[1..])
  }

  // ----- at most one timer -----

  /** The flag tells whether a timeout is pending, and there is never a second one. */
  predicate OneTimer(s: Throttle) {
    && |s.pending| <= 1
    && (s.timer <==> s.pending != [])
    && (s.timer ==> s.style == RateLimited)
  }

  lemma StepKeepsOneTimer(s: Throttle, e: Event)
    requires OneTimer(s)
    ensures OneTimer(Step(s, e).0)
  {
  }

  lemma {:induction false} RunKeepsOneTimer(s: Throttle, es: seq<Event>)
    requires OneTimer(s)
    ensures OneTimer(Run(s, es))
    decreases |es|
  {
    if es != [] {
      StepKeepsOneTimer(s, es[0]);
      RunKeepsOneTimer(Step(s, es[0]).0, es[1..]);
    }
  }

  // ----- rate-limited runs -----

  /** Data arrives, time passes, timeouts are called; the settings stay as they are. */
  predicate IsPlain(es: seq<Event>) {
    forall i :: 0 <= i < |es| ==> es[i].Modify? || es[i].Pass? || es[i].Fire?
  }

  function MaxDelay(rate: real): real {
    if rate > FIRST then rate else FIRST
  }

  /** A pending modification has a timer, and the timer is due within one period. */
  predicate Prompt(s: Throttle) {
    && OneTimer(s) && s.style == RateLimited && s.rate > 0.0
    && (s.modified ==> s.timer)
    && (s.timer ==> s.pending[0] <= s.now + MaxDelay(s.rate))
  }

  lemma StepIsPrompt(s: Throttle, e: Event)
    requires Prompt(s) && IsPlain([e])
    ensures Prompt(Step(s, e).0) && Step(s, e).0.rate == s.rate && Step(s, e).0.now >= s.now
  {
    assert [e][0] == e;
  }

  lemma {:induction false} RunIsPrompt(s: Throttle, es: seq<Event>)
    requires Prompt(s) && IsPlain(es)
    ensures Prompt(Run(s, es)) && Run(s, es).rate == s.rate && Run(s, es).now >= s.now
    decreases |es|
  {
    if es != [] {
      StepIsPrompt(s, es[0]);
      RunIsPrompt(Step(s, es[0]).0, es[1..]);
    }
  }

  /** k periods. */
  function Periods(k: nat, rate: real): real {
    if k == 0 then 0.0 else Periods(k - 1, rate) + rate
  }

  lemma {:induction false} PeriodsMultiply(k: nat, rate: real)
    ensures Periods(k, rate) == k as real * rate
  {
    if k > 0 { PeriodsMultiply(k - 1, rate); }
  }

  /** No redraw can be due before `earliest`. */
  predicate NotBefore(s: Throttle, earliest: real) {
    if s.pending != [] then s.pending[0] >= earliest else s.now >= earliest
  }

  lemma StepNotBefore(s: Throttle, e: Event, earliest: real)
    requires Prompt(s) && IsPlain([e]) && NotBefore(s, earliest)
    ensures Step(s, e).1 == [] ==> NotBefore(Step(s, e).0, earliest)
    ensures Step(s, e).1 != [] ==>
      && |Step(s, e).1| == 1
      && var r := Step(s, e).1[0]; earliest <= r.due <= r.at && NotBefore(Step(s, e).0, r.due + s.rate)
  {
    assert [e][0] == e;
  }

  /** Spacing: the k-th redraw from now is due k periods after the earliest time the next
      one can be due, and none happens before it is due. */
  lemma {:induction false} RedrawsAreSpaced(s: Throttle, es: seq<Event>, earliest: real, k: nat)
    requires Prompt(s) && IsPlain(es) && NotBefore(s, earliest) && k < |Redraws(s, es)|
    ensures var r := Redraws(s, es)[k]; earliest + Periods(k, s.rate) <= r.due <= r.at
    decreases |es|
  {
    var (s', out) := Step(s, es[0]);
    StepIsPrompt(s, es[0]);
    StepNotBefore(s, es[0], earliest);
    if out == [] {
      RedrawsAreSpaced(s', es[1..], earliest, k);
    } else if k > 0 {
      RedrawsAreSpaced(s', es[1..], out[0].due + s.rate, k - 1);
    }
  }

  lemma {:induction false} FromTheFirstOn(s: Throttle, es: seq<Event>, earliest: real, i: nat, k: nat)
    requires Prompt(s) && IsPlain(es) && NotBefore(s, earliest) && i < k < |Redraws(s, es)|
    ensures Redraws(s, es)[k].due >= Redraws(s, es)[i].due + Periods(k - i, s.rate)
    decreases |es|
  {
    var (s', out) := Step(s, es[0]);
    StepIsPrompt(s, es[0]);
    StepNotBefore(s, es[0], earliest);
    if out == [] {
      FromTheFirstOn(s', es[1..], earliest, i, k);
    } else if i > 0 {
      FromTheFirstOn(s', es[1..], out[0].due + s.rate, i - 1, k - 1);
    } else {
      RedrawsAreSpaced(s', es[1..], out[0].due + s.rate, k - 1);
    }
  }

  /** Rate limit: in every run two redraws are due as many periods apart as they are redraws
      apart, so a redraw follows one that was called on time at least a period later. */
  lemma RateIsLimited(now: real, es: seq<Event>, i: nat, k: nat)
    requires IsPlain(es) && i < k < |Redraws(Init(now), es)|
    ensures var r, r' := Redraws(Init(now), es)[i], Redraws(Init(now), es)[k];
      && r'.at >= r'.due >= r.due + (k - i) as real * 0.10
      && (r.at == r.due ==> r'.at - r.at >= (k - i) as real * 0.10)
  {
    RedrawsAreSpaced(Init(now), es, now, k);
    FromTheFirstOn(Init(now), es, now, i, k);
    PeriodsMultiply(k - i, 0.10);
  }

  // ----- when the next redraw can come early -----

  predicate Overdue(s: Throttle) {
    s.pending != [] && s.pending[0] <= s.now
  }

  /** Some continuation of data, time and calls redraws before time `t`. */
  ghost predicate CanRedrawBefore(s: Throttle, t: real) {
    exists es, k :: IsPlain(es) && RedrawIsBefore(s, es, k, t)
  }

  predicate RedrawIsBefore(s: Throttle, es: seq<Event>, k: nat, t: real) {
    k < |Redraws(s, es)| && Redraws(s, es)[k].at < t
  }

  /** The callback was late, and not so late that the least delay is the whole period. */
  predicate MakesUp(due: real, rate: real, now: real) {
    due < now && (rate > LEAST || now - due <= rate)
  }

  lemma NextDueIsEarly(due: real, rate: real, now: real)
    requires due <= now && rate > 0.0
    ensures now <= NextDue(due, rate, now)
    ensures NextDue(due, rate, now) < now + rate <==> MakesUp(due, rate, now)
  {
  }

  /** The state a redraw leaves. */
  lemma AfterRedraw(s: Throttle)
    requires Prompt(s) && s.modified && Overdue(s)
    ensures Step(s, Fire).1 == [Redraw(s.pending[0], s.now)]
    ensures Step(s, Fire).0 == s.(modified := false, pending := [NextDue(s.pending[0], s.rate, s.now)])
  {
    assert s.pending[1..] == [];
  }

  lemma OneEventMore(s: Throttle, e: Event, es: seq<Event>)
    ensures Redraws(s, [e] + es) == Step(s, e).1 + Redraws(Step(s, e).0, es)
  {
    assert ([e] + es)[1..] == es;
  }

  /** New data at once, and a call when the timeout is due. */
  lemma SoonestRedraw(s: Throttle)
    requires Prompt(s) && !s.modified && s.timer && s.pending[0] >= s.now
    ensures Redraws(s, [Modify] + ([Pass(s.pending[0])] + ([Fire] + []))) == [Redraw(s.pending[0], s.pending[0])]
  {
    var due := s.pending[0];
    var s1 := Step(s, Modify).0;
    var s2 := Step(s1, Pass(due)).0;
    assert s2.pending == [due] && s2.modified && s2.now == due;
    OneEventMore(s, Modify, [Pass(due)] + ([Fire] + []));
    OneEventMore(s1, Pass(due), [Fire] + []);
    OneEventMore(s2, Fire, []);
  }

  /** Exactly when the rate limit is kept: after a redraw the next one can come before a
      period is over exactly if the redraw was called late. */
  lemma EarlyExactlyAfterLate(s: Throttle)
    requires Prompt(s) && s.modified && Overdue(s)
    ensures CanRedrawBefore(Step(s, Fire).0, s.now + s.rate) <==> MakesUp(s.pending[0], s.rate, s.now)
  {
    var due := s.pending[0];
    var u := Step(s, Fire).0;
    AfterRedraw(s);
    StepIsPrompt(s, Fire) by { assert IsPlain([Fire]); }
    NextDueIsEarly(due, s.rate, s.now);
    if MakesUp(due, s.rate, s.now) {
      var es := [Modify] + ([Pass(u.pending[0])] + ([Fire] + []));
      SoonestRedraw(u);
      assert IsPlain(es) && RedrawIsBefore(u, es, 0, s.now + s.rate);
    }
    if CanRedrawBefore(u, s.now + s.rate) {
      var es, k :| IsPlain(es) && RedrawIsBefore(u, es, k, s.now + s.rate);
      RedrawsAreSpaced(u, es, u.pending[0], k);
      PeriodsMultiply(k, u.rate);
      assert Periods(k, u.rate) >= 0.0 by { PeriodsAreNatural(k, u.rate); }
    }
  }

  lemma {:induction false} PeriodsAreNatural(k: nat, rate: real)
    requires rate > 0.0
    ensures Periods(k, rate) >= 0.0
  {
    if k > 0 { PeriodsAreNatural(k - 1, rate); }
  }

  /** Two redraws a hundredth of a second apart at the default rate of ten per second. */
  lemma LateRedrawExample()
    ensures Redraws(Init(0.0), [Modify, Pass(0.10), Fire, Modify, Pass(0.11), Fire])
         == [Redraw(0.01, 0.10), Redraw(0.11, 0.11)]
  {
    var s1 := Step(Init(0.0), Modify).0;
    var s2 := Step(s1, Pass(0.10)).0;
    var s3 := Step(s2, Fire).0;
    assert s3.pending == [0.11] && !s3.modified && s3.now == 0.10;
    SoonestRedraw(s3);
    var rest := [Modify] + ([Pass(0.11)] + ([Fire] + []));
    OneEventMore(s2, Fire, rest);
    OneEventMore(s1, Pass(0.10), [Fire] + rest);
    OneEventMore(Init(0.0), Modify, [Pass(0.10)] + ([Fire] + rest));
    assert [Modify, Pass(0.10), Fire, Modify, Pass(0.11), Fire] == [Modify] + ([Pass(0.10)] + ([Fire] + rest));
  }

  // ----- every redraw shows something new, and everything new is shown -----

  predicate NothingNew(es: seq<Event>) {
    forall i :: 0 <= i < |es| ==> !es[i].Modify?
  }

  /** Without new data there is no redraw. */
  lemma {:induction false} NothingNewNoRedraw(s: Throttle, es: seq<Event>)
    requires !s.modified && NothingNew(es)
    ensures Redraws(s, es) == [] && !Run(s, es).modified
    decreases |es|
  {
    if es != [] {
      assert !es[0].Modify?;
      NothingNewNoRedraw(Step(s, es[0]).0, es[1..]);
    }
  }

  /** Until the redraw a modification waits at the same timeout. */
  lemma {:induction false} WaitsForTimer(s: Throttle, es: seq<Event>)
    requires Prompt(s) && s.modified && IsPlain(es) && Redraws(s, es) == []
    ensures Run(s, es).modified && Run(s, es).pending == s.pending
    decreases |es|
  {
    if es != [] {
      StepIsPrompt(s, es[0]);
      WaitsForTimer(Step(s, es[0]).0, es[1..]);
    }
  }

  /** Every modification is redrawn within one period, as soon as the event loop has called
      the timeouts that are due. */
  lemma ModificationIsRedrawn(s: Throttle, es: seq<Event>)
    requires Prompt(s) && s.modified && IsPlain(es)
    requires Run(s, es).now >= s.now + MaxDelay(s.rate) && !Overdue(Run(s, es))
    ensures Redraws(s, es) != []
  {
    if Redraws(s, es) == [] { WaitsForTimer(s, es); }
  }

  /** An idle period ends with no timer. */
  lemma {:induction false} IdleDisarms(s: Throttle, es: seq<Event>, until: real)
    requires Prompt(s) && !s.modified && IsPlain(es) && NothingNew(es)
    requires s.timer ==> s.pending[0] <= until
    requires Run(s, es).now >= until && !Overdue(Run(s, es))
    ensures !Run(s, es).timer && Run(s, es).pending == []
    decreases |es|
  {
    if es != [] {
      assert !es[0].Modify?;
      StepIsPrompt(s, es[0]);
      IdleDisarms(Step(s, es[0]).0, es[1..], until);
    }
  }

  lemma IdlePeriodDisarms(s: Throttle, es: seq<Event>)
    requires Prompt(s) && !s.modified && IsPlain(es) && NothingNew(es)
    requires Run(s, es).now >= s.now + MaxDelay(s.rate) && !Overdue(Run(s, es))
    ensures !Run(s, es).timer && Run(s, es).pending == []
  {
    IdleDisarms(s, es, s.now + MaxDelay(s.rate));
  }

  // ----- the modified flag without a timer -----

  /** Modified, but no timer to see to it. */
  predicate Dead(s: Throttle) {
    s.modified && !s.timer
  }

  /** How a throttle dies: the style is switched away while a modification is pending, or a
      modification comes in the style that redraws for every write. */
  lemma DiesExactlyWhen(s: Throttle, e: Event)
    requires OneTimer(s) && !Dead(s)
    ensures Dead(Step(s, e).0) <==>
      (e.SetStyle? && e.style != RateLimited && s.modified) || (e.Modify? && s.style == PerWrite && !s.modified)
  {
  }

  /** A dead throttle never redraws again, whatever arrives and whatever is set. */
  lemma {:induction false} DeadStaysDead(s: Throttle, es: seq<Event>)
    requires OneTimer(s) && Dead(s)
    ensures Dead(Run(s, es)) && Redraws(s, es) == []
    decreases |es|
  {
    if es != [] {
      StepKeepsOneTimer(s, es[0]);
      DeadStaysDead(Step(s, es[0]).0, es[1..]);
    }
  }

  /** So the style that redraws for every write redraws once. */
  lemma PerWriteRedrawsOnce(s: Throttle, es: seq<Event>)
    requires OneTimer(s) && s.style == PerWrite && !s.modified
    ensures Redraws(s, [Modify] + es) == [Redraw(s.now, s.now)]
  {
    assert ([Modify] + es)[1..] == es;
    DeadStaysDead(Step(s, Modify).0, es);
  }

  // ----- what the settings do -----

  /** A new style decides what the next modification does: it is redrawn at once, or waits for
      a timeout, or is not even remembered. */
  lemma NewStyleDecides(s: Throttle, style: Style)
    requires OneTimer(s) && !s.modified
    ensures var (u, out) := Step(Step(s, SetStyle(style)).0, Modify);
      && Step(s, SetStyle(style)).1 == []
      && out == (if style == PerWrite then [Redraw(s.now, s.now)] else [])
      && (u.modified <==> style != NoRedraw)
      && u.pending == (if style != RateLimited then [] else if s.pending == [] then [s.now + 0.01] else s.pending)
  {
  }

  /** While redrawing is switched off nothing is redrawn, and nothing becomes modified. */
  lemma {:induction false} NoRedrawNeverRedraws(s: Throttle, es: seq<Event>)
    requires OneTimer(s) && s.style == NoRedraw && forall i :: 0 <= i < |es| ==> !es[i].SetStyle?
    ensures Redraws(s, es) == [] && Run(s, es).modified == s.modified
    decreases |es|
  {
    if es != [] {
      assert !es[0].SetStyle?;
      StepKeepsOneTimer(s, es[0]);
      NoRedrawNeverRedraws(Step(s, es[0]).0, es[1..]);
    }
  }

  /** A new rate counts from the next redraw on: the timeout after it is due one new period
      after it was, or a thousandth of a second from now if that is over already. */
  lemma NewRateDecides(s: Throttle, rate: real)
    requires Prompt(s) && s.modified && Overdue(s) && rate > 0.0
    ensures var (u, out) := Step(Step(s, SetRate(rate)).0, Fire); var due := s.pending[0];
      && Step(s, SetRate(rate)).1 == [] && Step(s, SetRate(rate)).0.pending == s.pending
      && out == [Redraw(due, s.now)]
      && u.pending == [if due + rate < s.now then s.now + 0.001 else due + rate]
  {
    assert s.pending[1..] == [];
  }

  /** The queue of timeouts: a new one goes behind those not due later, in front of the rest. */
  lemma {:induction false} ArmedInOrder(pending: seq<real>, due: real) returns (i: nat)
    ensures i <= |pending| && Armed(pending, due) == pending[..i] + [due] + pending[i..]
    ensures forall k :: 0 <= k < i ==> pending[k] <= due
    ensures i < |pending| ==> pending[i] > due
    decreases |pending|
  {
    if pending == [] || pending[0] > due {
      i := 0;
    } else {
      var j := ArmedInOrder(pending[1..], due);
      i := j + 1;
      assert pending[..i] == [pending[0]] + pending[1..][..j] && pending[i..] == pending[1..][j..];
    }
  }
}

/** The throttle's fields and methods as Fl_Terminal has them; the event loop's queue of
    redraw timeouts is a field, and what redraw() was called for is the result. */
module RedrawTimerClass {
  import opened RedrawThrottle

  class RedrawTimer {
    var redrawStyle: Style
    var redrawRate: real
    var redrawModified: bool
    var redrawTimer: bool
    var timeouts: seq<real>

    ghost function Model(now: real): Throttle
      reads this
    {
      Throttle(redrawStyle, redrawRate, redrawModified, redrawTimer, timeouts, now)
    }

    constructor ()
      ensures forall now :: Model(now) == Init(now)
    {
      redrawStyle, redrawRate := RateLimited, 0.10;
      redrawModified, redrawTimer := false, false;
      timeouts := [];
    }

    method AddTimeout(due: real)
      modifies this`timeouts
      ensures timeouts == Armed(old(timeouts), due)
    {
      var i := 0;
      while i < |timeouts| && timeouts[i] <= due
        invariant 0 <= i <= |timeouts|
        invariant Armed(timeouts, due) == timeouts[..i] + Armed(timeouts[i..], due)
      {
        assert timeouts[i..][1..] == timeouts[i + 1..];
        i := i + 1;
      }
      timeouts := timeouts[..i] + [due] + timeouts[i..];
    }

    method Modified(now: real) returns (redrawn: bool)
      modifies this
      ensures Model(now) == DisplayModified(old(Model(now))).0
      ensures DisplayModified(old(Model(now))).1 == if redrawn then [Redraw(now, now)] else []
    {
      redrawn := false;
      if redrawStyle == RateLimited {
        if !redrawModified {
          if !redrawTimer {
            AddTimeout(now + FIRST);
            redrawTimer := true;
          }
          redrawModified := true;
        }
      } else if redrawStyle == PerWrite {
        if !redrawModified {
          redrawModified := true;
          redrawn := true;
        }
      }
    }

    /** The event loop calls the first timeout if it is due. */
    method FireTimeout(now: real) returns (redrawn: bool, ghost due: real)
      modifies this
      ensures Model(now) == Step(old(Model(now)), Fire).0
      ensures Step(old(Model(now)), Fire).1 == if redrawn then [Redraw(due, now)] else []
    {
      redrawn, due := false, now;
      if |timeouts| == 0 || timeouts[0] > now { return; }
      var current := timeouts[0];
      due := current;
      timeouts := timeouts[1..];
      if redrawModified {
        redrawn := true;
        redrawModified := false;
        var delay := redrawRate + (current - now);
        if delay < 0.0 { delay := LEAST; }
        AddTimeout(now + delay);
      } else {
        timeouts := [];
        redrawTimer := false;
      }
    }

    method SetRedrawRate(rate: real)
      modifies this`redrawRate
      ensures forall now :: Model(now) == Step(old(Model(now)), SetRate(rate)).0
    {
      redrawRate := rate;
    }

    method SetRedrawStyle(style: Style)
      modifies this
      ensures forall now :: Model(now) == ChangeStyle(old(Model(now)), style)
    {
      redrawStyle := style;
      if redrawStyle != RateLimited && redrawTimer {
        timeouts := [];
        redrawTimer := false;
      }
    }
  }
}
