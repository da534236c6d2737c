/** ting's session machine for a unicast peer: how much it can send before it is idle again. */
module TingSessions {

  const REQUEST_COUNT_MAX: nat := 5
  const REQUEST_ROUND_MAX: nat := 3

  const COUNTER_SPACE: nat := 0x1_0000_0000

  /** request_round_count is an unsigned 32-bit counter. */
  function Wrap32(n: nat): nat {
    n % 0x1_0000_0000
  }

  datatype State = IDLE | HAILING | CONNECTED

  /** `callback` tells whether a termination callback is stored, and `stopped` whether it was called,
      which ends the program. `sends` counts the HAIL and REQUEST messages of the current session and
      `replies` the replies it accepted; both only describe the run. */
  datatype Session = Session(state: State, requests: nat, rounds: nat, timer: bool, callback: bool, stopped: bool,
                             sends: nat, replies: nat) {

    /** The session is active in a program that still runs. */
    predicate Live() {
      !state.IDLE? && !stopped
    }
  }

  /** `ok` tells whether the socket took the message; a reply may carry a foreign round id. */
  datatype Event =
    | Initiate(ok: bool, callback: bool)
    | Hail(ok: bool)
    | Reply(matching: bool)
    | Request
    | Expire
    | Terminate

  function Idle(s: Session): Session {
    s.(state := IDLE, requests := 0, rounds := 0, timer := false)
  }

  /** The termination callback, if there is one, stops the program. */
  function Called(s: Session): Session {
    s.(stopped := s.stopped || s.callback)
  }

  function Next(s: Session, e: Event): Session {
    match e
    case Initiate(ok, callback) =>
      if s.state.IDLE? then Session(HAILING, 0, 0, ok, callback, s.stopped, 1, 0) else s
    case Hail(ok) =>
      var t := if s.state.IDLE? then Answering(s) else s;
      if ok then t else Idle(t)
    case Reply(matching) =>
      if s.state.IDLE? || !matching then s
      else
        var rounds := Wrap32(s.rounds + 1);
        if rounds <= REQUEST_ROUND_MAX then
          s.(rounds := rounds, requests := 0, sends := s.sends + 1, replies := s.replies + 1)
        else s.(rounds := rounds, requests := REQUEST_COUNT_MAX, replies := s.replies + 1)
    case Request => s
    case Expire =>
      if s.state.IDLE? || !s.timer then s
      else if s.requests < REQUEST_COUNT_MAX then Called(s.(requests := s.requests + 1, sends := s.sends + 1))
      else Called(Idle(s))
    case Terminate => Called(Idle(s))
  }

  function Run(s: Session, events: seq<Event>): Session {
    if events == [] then s else Next(Run(s, events[..|events| - 1]), events[|events| - 1])
  }

  /** What can happen to a live session: its timer only expires while it is active. */
  predicate Can(s: Session, e: Event) {
    s.Live() && (e.Expire? ==> s.timer)
  }

  /** A run in which the session is live before every event. */
  ghost predicate Busy(s: Session, events: seq<Event>) {
    events == [] || (Busy(s, events[..|events| - 1]) && Can(Run(s, events[..|events| - 1]), events[|events| - 1]))
  }

  /** A session started by Initiate. */
  function Initiated(ok: bool, callback: bool): Session {
    Session(HAILING, 0, 0, ok, callback, false, 1, 0)
  }

  /** A session started by a HAIL from the peer; a callback stored earlier is still there. */
  function Answering(s: Session): Session {
    Session(CONNECTED, REQUEST_COUNT_MAX, 0, true, s.callback, s.stopped, 0, 0)
  }

  ghost predicate Fresh(s: Session) {
    (exists ok, callback :: s == Initiated(ok, callback)) || (exists t: Session :: !t.stopped && s == Answering(t))
  }

  /** A session is new when Initiate or a HAIL that is answered has just left the idle state. */
  lemma StartsFresh(s: Session, ok: bool, callback: bool)
    requires s.state == IDLE && !s.stopped
    ensures Next(s, Initiate(ok, callback)) == Initiated(ok, callback) && Fresh(Initiated(ok, callback))
    ensures Next(s, Hail(true)) == Answering(s) && Fresh(Answering(s))
  {
  }

  /** How often the counter has wrapped after `n` steps. */
  function Laps(n: nat): nat {
    n / 0x1_0000_0000
  }

  lemma CountStep(n: nat)
    ensures if Wrap32(n) + 1 < COUNTER_SPACE then Wrap32(n + 1) == Wrap32(n) + 1 && Laps(n + 1) == Laps(n)
            else Wrap32(n + 1) == 0 && Laps(n + 1) == Laps(n) + 1
    ensures Wrap32(Wrap32(n) + 1) == Wrap32(n + 1)
    ensures n < COUNTER_SPACE ==> Laps(n) == 0
  {
  }

  /** Request rounds the first `n` accepted replies start: three, and four more per wrap of the counter. */
  function Rounds(n: nat): nat {
    4 * Laps(n) + if Wrap32(n) > REQUEST_ROUND_MAX then REQUEST_ROUND_MAX else Wrap32(n)
  }

  lemma RoundsStep(n: nat)
    ensures Rounds(n + 1) == Rounds(n) + if Wrap32(n + 1) <= REQUEST_ROUND_MAX then 1 else 0
    ensures Wrap32(Wrap32(n) + 1) == Wrap32(n + 1)
    ensures n < COUNTER_SPACE ==> Rounds(n) <= REQUEST_ROUND_MAX
  {
    CountStep(n);
    hide Wrap32, Laps;
  }

  /** Messages a new session may send before the first reply: HAIL and its five retries, or none. */
  function Opening(s: Session): nat {
    if s.state.HAILING? then 1 + REQUEST_COUNT_MAX else 0
  }

  ghost predicate Bounded(s: Session, opening: nat) {
    && s.requests <= REQUEST_COUNT_MAX
    && (!s.state.IDLE? ==> s.rounds == Wrap32(s.replies)
                           && s.sends + REQUEST_COUNT_MAX <= opening + s.requests + 6 * Rounds(s.replies))
    && s.sends <= opening + 6 * Rounds(s.replies)
  }

  lemma NextKeepsBound(s: Session, opening: nat, e: Event)
    requires Bounded(s, opening) && s.Live()
    ensures Bounded(Next(s, e), opening)
  {
    RoundsStep(s.replies);
    hide Wrap32, Rounds;
  }

  lemma {:induction false} RunKeepsBound(s: Session, events: seq<Event>)
    requires Fresh(s) && Busy(s, events)
    ensures Bounded(Run(s, events), Opening(s))
  {
    if events != [] {
      RunKeepsBound(s, events[..|events| - 1]);
      NextKeepsBound(Run(s, events[..|events| - 1]), Opening(s), events[|events| - 1]);
    }
  }

  function Expiries(events: seq<Event>): nat {
    if events == [] then 0
    else Expiries(events[..|events| - 1]) + if events[|events| - 1].Expire? then 1 else 0
  }

  /** Messages come from starting, from rounds and from timeouts. */
  lemma {:induction false} SendsHaveCauses(s: Session, events: seq<Event>)
    requires Fresh(s) && Busy(s, events)
    ensures Run(s, events).sends <= s.sends + Rounds(Run(s, events).replies) + Expiries(events)
  {
    if events != [] {
      var front := events[..|events| - 1];
      SendsHaveCauses(s, front);
      RunKeepsBound(s, front);
      hide Fresh, Rounds, Wrap32, Next;
      CauseStep(Run(s, front), Opening(s), events[|events| - 1]);
    }
  }

  lemma CauseStep(s: Session, opening: nat, e: Event)
    requires Bounded(s, opening) && Can(s, e)
    ensures Next(s, e).sends - s.sends <=
            Rounds(Next(s, e).replies) - Rounds(s.replies) + (if e.Expire? then 1 else 0)
  {
    RoundsStep(s.replies);
    hide Wrap32, Rounds;
  }

  /** The first timeout of a session with a callback ends the program. */
  lemma {:induction false} OneTimeout(s: Session, events: seq<Event>)
    requires !s.stopped && s.callback && Busy(s, events)
    ensures Run(s, events).callback && Expiries(events) <= 1
    ensures Expiries(events) == 1 ==> Run(s, events).stopped
  {
    if events != [] {
      OneTimeout(s, events[..|events| - 1]);
      hide Wrap32;
    }
  }

  /** HAIL and REQUEST messages of one session: without a callback 24 for an initiator and 18 for an
      answerer, with one 5 and 4. */
  function SendLimit(s: Session): nat {
    if s.callback then s.sends + REQUEST_ROUND_MAX + 1
    else Opening(s) + 6 * REQUEST_ROUND_MAX
  }

  /** The limits hold under every interleaving with fewer than 2^32 accepted replies. */
  lemma SendBound(s: Session, events: seq<Event>)
    requires Fresh(s) && Busy(s, events) && Run(s, events).replies < 0x1_0000_0000
    ensures Run(s, events).sends <= SendLimit(s)
    ensures s.state == HAILING ==> SendLimit(s) == if s.callback then 5 else 24
    ensures s.state == CONNECTED ==> SendLimit(s) == if s.callback then 4 else 18
  {
    RunKeepsBound(s, events);
    RoundsStep(Run(s, events).replies);
    if s.callback {
      SendsHaveCauses(s, events);
      OneTimeout(s, events);
    }
    hide Rounds;
  }

  /** While a session can time out it has done so at most as often as its retries and rounds say. */
  lemma {:induction false} ExpiriesBound(s: Session, events: seq<Event>)
    requires Fresh(s) && s.timer && Busy(s, events) && Run(s, events).Live()
    ensures var t := Run(s, events);
            t.timer && Expiries(events) + REQUEST_COUNT_MAX <= 5 * s.sends + t.requests + 5 * Rounds(t.replies)
  {
    if events != [] {
      var front, last := events[..|events| - 1], events[|events| - 1];
      if Run(s, front).Live() {
        ExpiriesBound(s, front);
        RunKeepsBound(s, front);
        ExpiryStep(Run(s, front), Opening(s), last, Expiries(front), 5 * s.sends);
      }
    }
  }

  lemma ExpiryStep(s: Session, opening: nat, e: Event, expiries: nat, start: nat)
    requires s.timer && Bounded(s, opening) && s.Live()
    requires expiries + REQUEST_COUNT_MAX <= start + s.requests + 5 * Rounds(s.replies)
    ensures var t := Next(s, e);
            t.Live() ==> && t.timer
                         && expiries + (if e.Expire? then 1 else 0) + REQUEST_COUNT_MAX <=
                            start + t.requests + 5 * Rounds(t.replies)
  {
    RoundsStep(s.replies);
    hide Wrap32, Rounds;
  }

  /** Timeouts a session survives: none with a callback, otherwise 20 or 15. */
  function TimeoutLimit(s: Session): nat {
    if s.callback then 0 else 5 * s.sends + 5 * REQUEST_ROUND_MAX
  }

  /** One timeout more ends the session, or the program. */
  lemma SessionEnds(s: Session, events: seq<Event>)
    requires Fresh(s) && s.timer && Busy(s, events) && Run(s, events).replies < COUNTER_SPACE
    requires Expiries(events) > TimeoutLimit(s)
    ensures !Run(s, events).Live()
    ensures TimeoutLimit(s) == if s.callback then 0 else if s.state == HAILING then 20 else 15
  {
    if Run(s, events).Live() {
      ExpiriesBound(s, events);
      RunKeepsBound(s, events);
      RoundsStep(Run(s, events).replies);
      if s.callback {
        OneTimeout(s, events);
      }
      hide Rounds;
    }
  }

  // ---- the bounds are exact, and the counter's wrap breaks them ----

  function Repeat(e: Event, n: nat): seq<Event> {
    seq(n, _ => e)
  }

  lemma {:induction false} RunConcat(s: Session, a: seq<Event>, b: seq<Event>)
    ensures Run(s, a + b) == Run(Run(s, a), b)
    ensures Busy(s, a) && Busy(Run(s, a), b) ==> Busy(s, a + b)
    decreases |b|
  {
    if b == [] {
      assert a + b == a;
    } else {
      var front := b[..|b| - 1];
      RunConcat(s, a, front);
      assert (a + b)[..|a + b| - 1] == a + front;
    }
  }

  lemma OneEvent(s: Session, e: Event)
    requires Can(s, e)
    ensures Run(s, [e]) == Next(s, e) && Busy(s, [e])
  {
    assert [e][..0] == [];
    assert Run(s, []) == s && Busy(s, []);
  }

  lemma {:induction false} Timeouts(s: Session, n: nat)
    requires s.Live() && s.timer && !s.callback && s.requests + n <= REQUEST_COUNT_MAX
    ensures Run(s, Repeat(Expire, n)) == s.(requests := s.requests + n, sends := s.sends + n)
    ensures Busy(s, Repeat(Expire, n))
  {
    if n > 0 {
      Timeouts(s, n - 1);
      assert Repeat(Expire, n)[..n - 1] == Repeat(Expire, n - 1);
    }
  }

  lemma SmallCount(n: nat)
    requires n < COUNTER_SPACE
    ensures Wrap32(n) == n
  {
  }

  /** Replies beyond the last round only count, until the counter wraps. */
  lemma {:induction false} SpareReplies(s: Session, n: nat)
    requires s.Live() && REQUEST_ROUND_MAX <= s.rounds && s.rounds + n < COUNTER_SPACE
    ensures var t := Run(s, Repeat(Reply(true), n));
            && t == s.(rounds := s.rounds + n, replies := s.replies + n,
                       requests := if n > 0 then REQUEST_COUNT_MAX else s.requests)
            && Busy(s, Repeat(Reply(true), n))
  {
    if n > 0 {
      SpareReplies(s, n - 1);
      assert Repeat(Reply(true), n)[..n - 1] == Repeat(Reply(true), n - 1);
      SmallCount(s.rounds + n);
      hide Wrap32, Repeat;
    }
  }

  /** The replies that open the remaining rounds. */
  lemma {:induction false} UsefulReplies(s: Session, n: nat)
    requires s.Live() && s.rounds + n <= REQUEST_ROUND_MAX
    ensures var t := Run(s, Repeat(Reply(true), n));
            && t == s.(rounds := s.rounds + n, replies := s.replies + n, sends := s.sends + n,
                       requests := if n > 0 then 0 else s.requests)
            && Busy(s, Repeat(Reply(true), n))
  {
    if n > 0 {
      UsefulReplies(s, n - 1);
      assert Repeat(Reply(true), n)[..n - 1] == Repeat(Reply(true), n - 1);
      SmallCount(s.rounds + n);
      hide Wrap32, Repeat;
    }
  }

  /** `k` rounds, each used to the full: a reply and five timeouts. */
  function Volley(k: nat): seq<Event> {
    if k == 0 then [] else Volley(k - 1) + ([Reply(true)] + Repeat(Expire, 5))
  }

  lemma {:induction false} VolleySends(s: Session, k: nat)
    requires s.Live() && s.timer && !s.callback && s.requests == REQUEST_COUNT_MAX && s.rounds + k <= REQUEST_ROUND_MAX
    ensures Run(s, Volley(k)) == s.(rounds := s.rounds + k, sends := s.sends + 6 * k, replies := s.replies + k)
    ensures Busy(s, Volley(k))
  {
    if k > 0 {
      hide Run, Busy, Repeat, Next, Wrap32;
      VolleySends(s, k - 1);
      VolleyRound(Run(s, Volley(k - 1)));
      RunConcat(s, Volley(k - 1), [Reply(true)] + Repeat(Expire, 5));
    }
  }

  lemma VolleyRound(s: Session)
    requires s.Live() && s.timer && !s.callback && s.requests == REQUEST_COUNT_MAX && s.rounds < REQUEST_ROUND_MAX
    ensures var volley := [Reply(true)] + Repeat(Expire, 5);
            && Run(s, volley) == s.(rounds := s.rounds + 1, sends := s.sends + 6, replies := s.replies + 1)
            && Busy(s, volley)
  {
    hide Run, Busy, Repeat, Next;
    var t := s.(rounds := s.rounds + 1, requests := 0, sends := s.sends + 1, replies := s.replies + 1);
    RoundReply(s);
    OneEvent(s, Reply(true));
    Timeouts(t, 5);
    RunConcat(s, [Reply(true)], Repeat(Expire, 5));
  }

  lemma RoundReply(s: Session)
    requires s.Live() && s.rounds < REQUEST_ROUND_MAX
    ensures Next(s, Reply(true)) ==
            s.(rounds := s.rounds + 1, requests := 0, sends := s.sends + 1, replies := s.replies + 1)
  {
    SmallCount(s.rounds + 1);
    hide Wrap32;
  }

  /** A run that sends as much as the limit allows. */
  function Busiest(s: Session): seq<Event> {
    if s.callback then Repeat(Reply(true), 3) + [Expire]
    else (if s.state.HAILING? then Repeat(Expire, 5) else []) + Volley(3)
  }

  /** Every limit is reached by a session that got its first message out. */
  lemma LimitIsReached(s: Session)
    requires Fresh(s) && s.timer
    ensures Busy(s, Busiest(s)) && Run(s, Busiest(s)).sends == SendLimit(s)
    ensures Run(s, Busiest(s)).replies == REQUEST_ROUND_MAX
  {
    hide Run, Busy, Repeat, Volley;
    if s.callback {
      UsefulReplies(s, 3);
      var t := Run(s, Repeat(Reply(true), 3));
      OneEvent(t, Expire);
      RunConcat(s, Repeat(Reply(true), 3), [Expire]);
    } else if s.state.HAILING? {
      Timeouts(s, 5);
      var t := Run(s, Repeat(Expire, 5));
      VolleySends(t, 3);
      RunConcat(s, Repeat(Expire, 5), Volley(3));
    } else {
      VolleySends(s, 3);
      assert [] + Volley(3) == Volley(3);
    }
  }

  /** 2^32 accepted replies in one session: those of Busiest, and the rest between two timeouts. */
  function Marathon(s: Session): seq<Event> {
    Busiest(s) + (Repeat(Reply(true), COUNTER_SPACE - 4) + [Reply(true)])
  }

  /** Without a callback, the wrap of the round counter then sends one message beyond the limit. The
      machine has no clock: in time the replies would have to come within one timer interval. */
  lemma WrapBreaksLimit(s: Session)
    requires Fresh(s) && s.timer && !s.callback
    ensures Busy(s, Marathon(s)) && Run(s, Marathon(s)).replies == COUNTER_SPACE
    ensures Run(s, Marathon(s)).sends == SendLimit(s) + 1
  {
    hide Run, Busy, Repeat, Busiest, SendLimit, Fresh;
    LimitIsReached(s);
    BusiestStaysLive(s);
    var t := Run(s, Busiest(s));
    FromTheLastRound(t);
    RunConcat(s, Busiest(s), Repeat(Reply(true), COUNTER_SPACE - 4) + [Reply(true)]);
  }

  lemma FromTheLastRound(t: Session)
    requires t.Live() && t.rounds == REQUEST_ROUND_MAX
    ensures var more := Repeat(Reply(true), COUNTER_SPACE - 4) + [Reply(true)];
            Busy(t, more) && Run(t, more).sends == t.sends + 1 && Run(t, more).replies == t.replies + COUNTER_SPACE - 3
  {
    hide Run, Busy, Repeat, Next, Wrap32;
    var spare := Repeat(Reply(true), COUNTER_SPACE - 4);
    SpareReplies(t, COUNTER_SPACE - 4);
    var u := Run(t, spare);
    WrapReply(u);
    OneEvent(u, Reply(true));
    RunConcat(t, spare, [Reply(true)]);
  }

  lemma WrapReply(s: Session)
    requires s.Live() && s.rounds == COUNTER_SPACE - 1
    ensures Next(s, Reply(true)) == s.(rounds := 0, requests := 0, sends := s.sends + 1, replies := s.replies + 1)
  {
  }

  lemma BusiestStaysLive(s: Session)
    requires Fresh(s) && s.timer && !s.callback
    ensures Run(s, Busiest(s)).Live() && Run(s, Busiest(s)).rounds == REQUEST_ROUND_MAX
  {
    hide Run, Busy, Repeat, Volley;
    if s.state.HAILING? {
      Timeouts(s, 5);
      VolleySends(Run(s, Repeat(Expire, 5)), 3);
      RunConcat(s, Repeat(Expire, 5), Volley(3));
    } else {
      VolleySends(s, 3);
      assert [] + Volley(3) == Volley(3);
    }
  }

  /** A unicast session. `ok` stands for the result of the socket's SendTo. */
  class TingSession {
    const roundId: nat
    var sessionState: State
    var sentRoundId: nat
    var sentRequestCount: nat
    var requestRoundCount: nat
    var timerActive: bool
    var termCallback: bool       // whether a callback is stored
    ghost var stopped: bool      // whether it was called
    ghost var sends: nat
    ghost var replies: nat

    ghost function View(): Session
      reads this
    {
      Session(sessionState, sentRequestCount, requestRoundCount, timerActive, termCallback, stopped, sends, replies)
    }

    /** No timer runs while the session is idle. */
    ghost predicate Valid()
      reads this
    {
      sessionState == IDLE ==> !timerActive
    }

    constructor (roundId: nat)
      ensures Valid() && View() == Session(IDLE, 0, 0, false, false, false, 0, 0)
    {
      this.roundId := roundId;
      sessionState, sentRoundId, sentRequestCount, requestRoundCount := IDLE, 0, 0, 0;
      timerActive, termCallback, stopped, sends, replies := false, false, false, 0, 0;
    }

    /** Calls the termination callback, if there is one. The program's callback stops it. */
    method CallBack()
      modifies this`stopped
      ensures View() == Called(old(View()))
    {
      if termCallback {
        stopped := true;
      }
    }

    method Reset()
      modifies this
      ensures View() == old(View()).(state := IDLE, requests := 0, rounds := 0) && sentRoundId == 0
    {
      sessionState, sentRoundId, sentRequestCount, requestRoundCount := IDLE, 0, 0, 0;
    }

    /** A HAIL or REQUEST leaves for the peer, or fails to; either way it was attempted. */
    method SendMessage(ok: bool)
      modifies this`sentRoundId, this`sends
      ensures View() == old(View()).(sends := old(sends) + 1)
    {
      sends := sends + 1;
      if ok {
        sentRoundId := roundId;
      }
    }

    method Initiate(ok: bool, callback: bool) returns (result: bool)
      requires Valid()
      modifies this
      ensures Valid() && View() == Next(old(View()), Event.Initiate(ok, callback))
      ensures result == (old(sessionState) == IDLE && ok)
      ensures old(sessionState) == IDLE ==>
                && sessionState == HAILING && sentRequestCount == requestRoundCount == 0
                && timerActive == ok && termCallback == callback && sends == 1 && replies == 0
      ensures old(sessionState) != IDLE ==> View() == old(View())
      ensures stopped == old(stopped)
    {
      if sessionState != IDLE {
        return false;
      }
      Reset();
      sends, replies := 0, 0;
      sessionState := HAILING;
      SendMessage(ok);
      if ok {
        timerActive := true;
      }
      termCallback := callback;
      return ok;
    }

    /** The answer is a REPLY, which does not count. */
    method HandleHail(ok: bool)
      requires Valid()
      modifies this
      ensures Valid() && View() == Next(old(View()), Hail(ok))
      ensures ok && old(sessionState) == IDLE ==>
                && sessionState == CONNECTED && sentRequestCount == 5 && requestRoundCount == 0
                && timerActive && sends == replies == 0
      ensures ok && old(sessionState) != IDLE ==> View() == old(View())
      ensures !ok ==> sessionState == IDLE && sentRequestCount == requestRoundCount == 0 && !timerActive
      ensures termCallback == old(termCallback) && stopped == old(stopped)
    {
      if sessionState == IDLE {
        Reset();
        sends, replies := 0, 0;
        sessionState := CONNECTED;
        timerActive := true;
        sentRequestCount := REQUEST_COUNT_MAX;
      }
      if !ok {
        timerActive := false;
        Reset();
      }
    }

    method HandleReply(msgRoundId: nat, ok: bool)
      requires Valid()
      modifies this
      ensures Valid() && View() == Next(old(View()), Reply(msgRoundId == roundId))
      ensures old(sessionState) == IDLE || msgRoundId != roundId ==> View() == old(View())
      ensures old(sessionState) != IDLE && msgRoundId == roundId ==>
                && requestRoundCount == (old(requestRoundCount) + 1) % 0x1_0000_0000 && replies == old(replies) + 1
                && sentRequestCount == (if requestRoundCount <= 3 then 0 else 5)
                && sends == old(sends) + (if requestRoundCount <= 3 then 1 else 0)
                && sessionState == old(sessionState) && timerActive == old(timerActive)
      ensures termCallback == old(termCallback) && stopped == old(stopped)
    {
      if sessionState == IDLE {
        return;
      }
      if msgRoundId != roundId {
        return;
      }
      replies := replies + 1;
      requestRoundCount := Wrap32(requestRoundCount + 1);
      if requestRoundCount <= REQUEST_ROUND_MAX {
        sentRequestCount := 0;
        SendMessage(ok);
      } else {
        sentRequestCount := REQUEST_COUNT_MAX;
      }
    }

    /** The callback follows every timeout, not only the one that ends the session. */
    method OnSessionTimeout(ok: bool)
      requires sessionState != IDLE && timerActive
      modifies this
      ensures Valid() && View() == Next(old(View()), Expire)
      ensures old(sentRequestCount) < 5 ==>
                && sentRequestCount == old(sentRequestCount) + 1 && sends == old(sends) + 1
                && sessionState == old(sessionState) && timerActive && requestRoundCount == old(requestRoundCount)
      ensures old(sentRequestCount) >= 5 ==>
                && sessionState == IDLE && sentRequestCount == requestRoundCount == 0 && !timerActive
                && sends == old(sends)
      ensures stopped == (old(stopped) || termCallback) && termCallback == old(termCallback)
    {
      if sentRequestCount < REQUEST_COUNT_MAX {
        SendMessage(ok);
        sentRequestCount := sentRequestCount + 1;
      } else {
        timerActive := false;
        Reset();
      }
      CallBack();
    }

    method Terminate()
      requires Valid()
      modifies this
      ensures Valid() && View() == Next(old(View()), Event.Terminate)
      ensures sessionState == IDLE && !timerActive && sends == old(sends)
      ensures stopped == (old(stopped) || termCallback) && termCallback == old(termCallback)
    {
      timerActive := false;
      Reset();
      CallBack();
    }
  }
}
