/** The server TLS handshake wrapper (tls_handshake.cpp) as a transition system over connections. */
module Handshake {
  datatype HandshakeStatus = Ok | Timeout | Error

  // ---- The transition system ----

  // What the handler was called with; only whether a stream came along matters here.
  datatype Answer = Answer(status: HandshakeStatus, withStream: bool)

  // One connection: the fields of Shared, whether its socket is still open as far as this code is
  // concerned, the handler calls made, and the callbacks the executor still owes.
  datatype Connection = Connection(
    hasHandler: bool,
    completed: bool,
    timeoutStarted: bool,
    timerCancelled: bool,
    holdsStream: bool,
    socketOpen: bool,
    answers: seq<Answer>,
    timerPending: bool,
    handshakePending: bool)

  function Started(hasHandler: bool): Connection {
    Connection(hasHandler, false, false, false, true, true, [], true, true)
  }

  // The timer callback; failed is its error code (set when the wait was aborted).
  function OnTimer(c: Connection, failed: bool): Connection {
    var d := c.(timerPending := false);
    if failed || c.completed then d
    else d.(timeoutStarted := true, socketOpen := false)
  }

  // The handshake callback; failed is its error code. After a success without a handler the stream
  // moved out of the state has no owner left, and its destruction closes the socket.
  function OnHandshake(c: Connection, failed: bool): Connection {
    var d := c.(handshakePending := false);
    if c.completed then d
    else
      var e := d.(completed := true, timerCancelled := true);
      if c.timeoutStarted then Answered(e, Answer(Timeout, false))
      else if failed then Answered(e.(socketOpen := false), Answer(Error, false))
      else Answered(e.(holdsStream := false, socketOpen := c.socketOpen && c.hasHandler), Answer(Ok, true))
  }

  function Answered(c: Connection, a: Answer): Connection {
    if c.hasHandler then c.(answers := c.answers + [a]) else c
  }

  datatype Event =
    | Accept(hasHandler: bool)
    | TimerFired(conn: nat, failed: bool)
    | HandshakeDone(conn: nat, failed: bool)

  // Each callback runs once, in any order and with any error code: a timer already queued when it is
  // cancelled fires without an error, and a handshake may succeed although the socket was closed.
  predicate Enabled(w: seq<Connection>, e: Event) {
    match e
    case Accept(_) => true
    case TimerFired(i, _) => i < |w| && w[i].timerPending
    case HandshakeDone(i, _) => i < |w| && w[i].handshakePending
  }

  function Step(w: seq<Connection>, e: Event): seq<Connection>
    requires Enabled(w, e)
  {
    match e
    case Accept(h) => w + [Started(h)]
    case TimerFired(i, failed) => w[i := OnTimer(w[i], failed)]
    case HandshakeDone(i, failed) => w[i := OnHandshake(w[i], failed)]
  }

  predicate IsRun(events: seq<Event>)
    decreases |events|, 0
  {
    events == [] || (IsRun(Front(events)) && Enabled(World(Front(events)), events[|events| - 1]))
  }

  function World(events: seq<Event>): seq<Connection>
    requires IsRun(events)
    decreases |events|, 1
  {
    if events == [] then [] else Step(World(Front(events)), events[|events| - 1])
  }

  function Front<T>(s: seq<T>): seq<T>
    requires s != []
  {
    s[..|s| - 1]
  }

  // ---- What the events say about one connection ----

  ghost predicate HandshakeAt(events: seq<Event>, i: nat, k: nat) {
    k < |events| && events[k].HandshakeDone? && events[k].conn == i
  }

  // The timer expired (without an abort) among the first n events.
  ghost predicate ExpiredBefore(events: seq<Event>, i: nat, n: nat)
    requires n <= |events|
  {
    exists j :: 0 <= j < n && events[j] == TimerFired(i, false)
  }

  // The answer that a handshake callback at position k calls for.
  ghost function DueAnswer(events: seq<Event>, i: nat, k: nat): Answer
    requires HandshakeAt(events, i, k)
  {
    if ExpiredBefore(events, i, k) then Answer(Timeout, false)
    else if events[k].failed then Answer(Error, false)
    else Answer(Ok, true)
  }

  // Before its handshake callback a connection is unanswered and keeps its stream, closed only by
  // an expired timer.
  ghost predicate Unanswered(c: Connection, expired: bool) {
    && !c.completed && c.handshakePending && c.holdsStream && !c.timerCancelled
    && c.answers == []
    && c.timeoutStarted == expired
    && c.socketOpen == !expired
  }

  // After it there is exactly one answer (none without a handler), and the socket is open exactly
  // when the stream was handed to a handler.
  ghost predicate AnsweredWith(c: Connection, a: Answer) {
    && c.completed && !c.handshakePending && c.timerCancelled
    && c.answers == (if c.hasHandler then [a] else [])
    && c.socketOpen == (c.hasHandler && a.status == Ok)
    && c.holdsStream == (a.status != Ok)
    && (c.timeoutStarted <==> a.status == Timeout)
  }

  predicate Names(e: Event, i: nat) { !e.Accept? && e.conn == i }

  // Callbacks belong to connections that were accepted.
  lemma {:induction false} OnlyAcceptedAreNamed(events: seq<Event>, i: nat)
    requires IsRun(events) && |World(events)| <= i
    ensures forall k :: 0 <= k < |events| ==> !Names(events[k], i)
    decreases |events|
  {
    if events == [] {
    } else {
      OnlyAcceptedAreNamed(Front(events), i);
      assert forall k :: 0 <= k < |events| - 1 ==> events[k] == Front(events)[k];
    }
  }

  // The state of a connection as its events determine it.
  ghost predicate Described(events: seq<Event>, i: nat, c: Connection) {
    && ((forall k :: !HandshakeAt(events, i, k)) ==> Unanswered(c, ExpiredBefore(events, i, |events|)))
    && (forall k :: HandshakeAt(events, i, k) ==> AnsweredWith(c, DueAnswer(events, i, k)))
  }

  // The effect of one event on connection i.
  function Effect(e: Event, i: nat, c: Connection): Connection {
    if !Names(e, i) then c
    else if e.TimerFired? then OnTimer(c, e.failed)
    else OnHandshake(c, e.failed)
  }

  lemma ExpiryOfPrefix(events: seq<Event>, i: nat, n: nat)
    requires n < |events|
    ensures ExpiredBefore(events, i, n) <==> ExpiredBefore(Front(events), i, n)
  {
    assert forall j :: 0 <= j < n ==> Front(events)[j] == events[j];
  }

  lemma ExpiryGrows(events: seq<Event>, i: nat)
    requires events != []
    ensures var n := |events| - 1;
            && (ExpiredBefore(events, i, n + 1) <==> ExpiredBefore(events, i, n) || events[n] == TimerFired(i, false))
            && (ExpiredBefore(events, i, n) <==> ExpiredBefore(Front(events), i, n))
  {
    ExpiryOfPrefix(events, i, |events| - 1);
  }

  lemma AnswersOfPrefix(events: seq<Event>, i: nat, k: nat)
    requires events != [] && k < |events| - 1
    ensures HandshakeAt(events, i, k) <==> HandshakeAt(Front(events), i, k)
    ensures HandshakeAt(events, i, k) ==> DueAnswer(events, i, k) == DueAnswer(Front(events), i, k)
  {
    ExpiryOfPrefix(events, i, k);
  }

  lemma DescribedStep(events: seq<Event>, i: nat, c: Connection)
    requires events != [] && Described(Front(events), i, c)
    requires var e := events[|events| - 1];
             Names(e, i) && e.HandshakeDone? ==> c.handshakePending
    ensures Described(events, i, Effect(events[|events| - 1], i, c))
  {
    var n := |events| - 1;
    var e := events[n];
    var d := Effect(e, i, c);
    ExpiryGrows(events, i);
    if k: nat :| HandshakeAt(Front(events), i, k) {
      AnswersOfPrefix(events, i, k);
    } else {
      assert Unanswered(c, ExpiredBefore(events, i, n));
    }
    forall k: nat | HandshakeAt(events, i, k)
      ensures AnsweredWith(d, DueAnswer(events, i, k))
    {
      if k < n {
        AnswersOfPrefix(events, i, k);
      }
    }
    if forall k :: !HandshakeAt(events, i, k) {
      assert !HandshakeAt(events, i, n);
    }
    hide ExpiredBefore;
  }

  // Every connection of every run is in the state that its events determine.
  lemma {:induction false} StateFollowsEvents(events: seq<Event>, i: nat)
    requires IsRun(events) && i < |World(events)|
    ensures Described(events, i, World(events)[i])
    decreases |events|
  {
    var before, last := Front(events), events[|events| - 1];
    if i < |World(before)| {
      StateFollowsEvents(before, i);
      DescribedStep(events, i, World(before)[i]);
      hide Described, OnTimer, OnHandshake;
    } else {
      OnlyAcceptedAreNamed(before, i);
    }
  }

  // ---- Safety ----

  // In every run, for every connection: at most one answer; a stream goes with ok alone, and then
  // this code has not closed the socket; timeout and error come after it was closed. Without a
  // handler the socket ends closed. The stream leaves the state only in the handshake callback.
  lemma HandshakeSafety(events: seq<Event>, i: nat)
    requires IsRun(events) && i < |World(events)|
    ensures var c := World(events)[i];
            && |c.answers| <= 1
            && (forall a | a in c.answers ::
                  && a.withStream == (a.status == Ok)
                  && c.socketOpen == (a.status == Ok))
            && (c.completed && !c.hasHandler ==> !c.socketOpen)
            && (!c.holdsStream ==> c.completed && c.socketOpen == c.hasHandler)
            && (c.completed ==> c.timerCancelled)
  {
    StateFollowsEvents(events, i);
    hide World;
  }

  lemma CompletedOwesNoHandshake(events: seq<Event>, i: nat)
    requires IsRun(events) && i < |World(events)|
    ensures World(events)[i].completed <==> !World(events)[i].handshakePending
  {
    StateFollowsEvents(events, i);
    hide World, HandshakeAt, DueAnswer, ExpiredBefore;
  }

  // Once completed, a connection is left alone for good: later events of any connection can at most
  // deliver its timer callback, which does nothing. So a stream handed over is never closed.
  lemma {:induction false} CompletedIsFinal(events: seq<Event>, n: nat, i: nat)
    requires IsRun(events) && n <= |events|
    ensures IsRun(events[..n])
    ensures i < |World(events[..n])| ==>
              && i < |World(events)|
              && (World(events[..n])[i].completed ==>
                    var (c, d) := (World(events[..n])[i], World(events)[i]);
                    d == c.(timerPending := d.timerPending) && (d.timerPending ==> c.timerPending))
    decreases |events|
  {
    if n == |events| {
      assert events[..n] == events;
    } else {
      var before, e := Front(events), events[|events| - 1];
      assert before[..n] == events[..n];
      CompletedIsFinal(before, n, i);
      if i < |World(before)| {
        CompletedOwesNoHandshake(before, i);
        assert World(events)[i] == Effect(e, i, World(before)[i]);
      }
      hide World;
    }
  }

  // ---- Completion ----

  // The number of callbacks still owed.
  function Owed(w: seq<Connection>): nat {
    if w == [] then 0
    else Owed(Front(w)) + OwedTo(w[|w| - 1])
  }

  function OwedTo(c: Connection): nat {
    (if c.timerPending then 1 else 0) + (if c.handshakePending then 1 else 0)
  }

  lemma {:induction false} OwedUpdate(w: seq<Connection>, i: nat, c: Connection)
    requires i < |w|
    ensures Owed(w[i := c]) == Owed(w) - OwedTo(w[i]) + OwedTo(c)
  {
    if i == |w| - 1 {
      assert Front(w[i := c]) == Front(w);
    } else {
      assert Front(w[i := c]) == Front(w)[i := c];
      OwedUpdate(Front(w), i, c);
    }
  }

  lemma StepOwes(w: seq<Connection>, e: Event)
    requires Enabled(w, e)
    ensures Owed(Step(w, e)) == if e.Accept? then Owed(w) + 2 else Owed(w) - 1
    ensures |Step(w, e)| == if e.Accept? then |w| + 1 else |w|
  {
    if e.Accept? {
      assert Front(w + [Started(e.hasHandler)]) == w;
    } else {
      OwedUpdate(w, e.conn, Step(w, e)[e.conn]);
    }
  }

  function Accepts(events: seq<Event>): nat {
    if events == [] then 0
    else Accepts(Front(events)) + (if events[|events| - 1].Accept? then 1 else 0)
  }

  // Every callback event uses up one owed callback, and accepting a connection creates two. Hence a
  // run over n connections has at most 3n events, and delivers all callbacks when it has 3n.
  lemma {:induction false} EveryStepConsumes(events: seq<Event>)
    requires IsRun(events)
    ensures Accepts(events) == |World(events)| <= |events|
    ensures |events| + Owed(World(events)) == 3 * |World(events)|
    decreases |events|
  {
    if events == [] {
    } else {
      EveryStepConsumes(Front(events));
      StepOwes(World(Front(events)), events[|events| - 1]);
      hide Owed, Enabled;
    }
  }

  // A delivered handshake callback is one event of the run; the handler, if there is one, has been
  // called exactly once, with the answer due there: timeout when the timer expired first (even if
  // the handshake itself then succeeded), otherwise by the handshake's own error code.
  lemma HandshakeCompletion(events: seq<Event>, i: nat) returns (k: nat)
    requires IsRun(events) && i < |World(events)| && !World(events)[i].handshakePending
    ensures HandshakeAt(events, i, k)
    ensures forall j :: HandshakeAt(events, i, j) ==> DueAnswer(events, i, j) == DueAnswer(events, i, k)
    ensures AnsweredWith(World(events)[i], DueAnswer(events, i, k))
  {
    StateFollowsEvents(events, i);
    hide World, ExpiredBefore;
    k :| HandshakeAt(events, i, k);
  }

  lemma QuietState(events: seq<Event>, i: nat) returns (k: nat)
    requires IsRun(events) && i < |World(events)| && |events| == 3 * |World(events)|
    ensures HandshakeAt(events, i, k) && AnsweredWith(World(events)[i], DueAnswer(events, i, k))
    ensures !World(events)[i].timerPending
  {
    EveryStepConsumes(events);
    NothingOwed(World(events), i);
    k := HandshakeCompletion(events, i);
    hide World, HandshakeAt, DueAnswer;
  }

  lemma {:induction false} NothingOwed(w: seq<Connection>, i: nat)
    requires i < |w| && Owed(w) == 0
    ensures OwedTo(w[i]) == 0
  {
    if i == |w| - 1 {
    } else {
      NothingOwed(Front(w), i);
    }
  }

  // ---- From the events alone ----

  lemma StepKeepsHandlers(w: seq<Connection>, e: Event, i: nat)
    requires Enabled(w, e) && i < |w|
    ensures i < |Step(w, e)| && Step(w, e)[i].hasHandler == w[i].hasHandler
  {}

  // Connections are numbered in the order of acceptance, and each has the handler it was accepted with.
  lemma {:induction false} HandlerIsTheAccepted(events: seq<Event>, k: nat)
    requires IsRun(events) && k < |events| && events[k].Accept?
    ensures Accepts(events[..k]) < |World(events)|
    ensures World(events)[Accepts(events[..k])].hasHandler == events[k].hasHandler
    decreases |events|
  {
    var before := Front(events);
    EveryStepConsumes(before);
    if k == |events| - 1 {
      assert events[..k] == before;
    } else {
      assert before[..k] == events[..k] && before[k] == events[k];
      HandlerIsTheAccepted(before, k);
      StepKeepsHandlers(World(before), events[|events| - 1], Accepts(events[..k]));
    }
    hide Accepts, Enabled, Step;
  }

  // What the handler given to the Accept event k is called with in the whole run: nothing before the
  // handshake callback of its connection or when there is no handler, otherwise the answer due there.
  ghost predicate IsExpected(events: seq<Event>, k: nat, answers: seq<Answer>)
    requires k < |events| && events[k].Accept?
  {
    var i := Accepts(events[..k]);
    && ((forall j :: !HandshakeAt(events, i, j)) ==> answers == [])
    && (forall j :: HandshakeAt(events, i, j) ==>
          answers == if events[k].hasHandler then [DueAnswer(events, i, j)] else [])
  }

  // In every run every handler that came with a connection is called as its events call for.
  lemma AnswersFollowEvents(events: seq<Event>, k: nat)
    requires IsRun(events) && k < |events| && events[k].Accept?
    ensures Accepts(events[..k]) < |World(events)|
    ensures IsExpected(events, k, World(events)[Accepts(events[..k])].answers)
  {
    HandlerIsTheAccepted(events, k);
    StateFollowsEvents(events, Accepts(events[..k]));
    hide World, Accepts, HandshakeAt, DueAnswer, ExpiredBefore;
  }

  lemma AllAnswersFollowEvents(events: seq<Event>)
    requires IsRun(events)
    ensures forall k | 0 <= k < |events| && events[k].Accept? ::
              && Accepts(events[..k]) < |World(events)|
              && IsExpected(events, k, World(events)[Accepts(events[..k])].answers)
  {
    hide World, Accepts, IsExpected;
    forall k: nat | k < |events| && events[k].Accept?
      ensures Accepts(events[..k]) < |World(events)|
      ensures IsExpected(events, k, World(events)[Accepts(events[..k])].answers)
    {
      AnswersFollowEvents(events, k);
    }
  }

  // When no callback is owed any more, the handler of every Accept event has been called exactly
  // once, with the answer due at the handshake callback of its connection.
  lemma QuietMeansAnswered(events: seq<Event>, k: nat) returns (j: nat)
    requires IsRun(events) && k < |events| && events[k].Accept? && |events| == 3 * Accepts(events)
    ensures var i := Accepts(events[..k]);
            && HandshakeAt(events, i, j) && i < |World(events)|
            && World(events)[i].answers == (if events[k].hasHandler then [DueAnswer(events, i, j)] else [])
            && World(events)[i].completed && !World(events)[i].timerPending
  {
    EveryStepConsumes(events);
    HandlerIsTheAccepted(events, k);
    j := QuietState(events, Accepts(events[..k]));
    hide World, Accepts, HandshakeAt, DueAnswer;
  }

  // Two events that deliver the same callback.
  predicate SameCallback(e: Event, f: Event) {
    && !e.Accept? && !f.Accept?
    && e.conn == f.conn && e.TimerFired? == f.TimerFired?
  }

  ghost predicate Delivered(events: seq<Event>, e: Event) {
    exists j :: 0 <= j < |events| && SameCallback(events[j], e)
  }

  lemma DeliveredGrows(before: seq<Event>, last: Event, e: Event)
    ensures Delivered(before + [last], e) <==> Delivered(before, e) || SameCallback(last, e)
  {
    hide SameCallback;
    var events := before + [last];
    assert events[|before|] == last;
    assert forall j :: 0 <= j < |before| ==> events[j] == before[j];
  }

  lemma EffectOnPending(before: seq<Event>, last: Event, i: nat, failed: bool)
    requires IsRun(before + [last]) && IsRun(before) && i < |World(before)|
    ensures i < |World(before + [last])|
    ensures var (c, d) := (World(before)[i], World(before + [last])[i]);
            && (d.timerPending <==> c.timerPending && !SameCallback(last, TimerFired(i, failed)))
            && (d.handshakePending <==> c.handshakePending && !SameCallback(last, HandshakeDone(i, failed)))
  {
    assert Front(before + [last]) == before;
    assert World(before + [last])[i] == Effect(last, i, World(before)[i]);
  }

  // A callback is owed exactly until it has been delivered.
  lemma {:induction false} PendingUntilDelivered(events: seq<Event>, i: nat, failed: bool)
    requires IsRun(events) && i < |World(events)|
    ensures World(events)[i].timerPending <==> !Delivered(events, TimerFired(i, failed))
    ensures World(events)[i].handshakePending <==> !Delivered(events, HandshakeDone(i, failed))
    decreases |events|
  {
    var before, last := Front(events), events[|events| - 1];
    assert events == before + [last];
    DeliveredGrows(before, last, TimerFired(i, failed));
    DeliveredGrows(before, last, HandshakeDone(i, failed));
    if i < |World(before)| {
      PendingUntilDelivered(before, i, failed);
      EffectOnPending(before, last, i, failed);
      hide Delivered, World, Enabled;
    } else {
      OnlyAcceptedAreNamed(before, i);
      assert last.Accept?;
    }
  }

  // Event k accepts a connection, or delivers for the first time a callback of a connection accepted
  // before it.
  ghost predicate IsDue(events: seq<Event>, k: nat)
    requires k < |events|
  {
    || events[k].Accept?
    || (events[k].conn < Accepts(events[..k]) && !Delivered(events[..k], events[k]))
  }

  lemma DueAfter(before: seq<Event>, last: Event)
    requires IsRun(before)
    ensures Enabled(World(before), last) <==> IsDue(before + [last], |before|)
  {
    assert (before + [last])[..|before|] == before;
    EveryStepConsumes(before);
    if !last.Accept? && last.conn < |World(before)| {
      PendingUntilDelivered(before, last.conn, last.failed);
    }
    hide Delivered, World;
  }

  // The runs are exactly the orders of events in which every event is due: nothing else restricts them.
  lemma {:induction false} RunsAreExactly(events: seq<Event>)
    ensures IsRun(events) <==> forall k :: 0 <= k < |events| ==> IsDue(events, k)
  {
    if events == [] {
    } else {
      var n := |events| - 1;
      var before, last := Front(events), events[n];
      RunsAreExactly(before);
      assert events == before + [last];
      forall k: nat | k < n
        ensures IsDue(events, k) <==> IsDue(before, k)
      {
        assert before[..k] == events[..k];
      }
      if IsRun(before) {
        DueAfter(before, last);
      }
      hide IsDue, Enabled, World;
    }
  }

  // The run up to event k, and that event's step.
  lemma RunUpTo(events: seq<Event>, k: nat)
    requires IsRun(events) && k < |events|
    ensures IsRun(events[..k]) && IsRun(events[..k + 1])
    ensures var w := World(events[..k]);
            Enabled(w, events[k]) && World(events[..k + 1]) == Step(w, events[k])
  {
    CompletedIsFinal(events, k, 0);
    CompletedIsFinal(events, k + 1, 0);
    assert Front(events[..k + 1]) == events[..k] && events[..k + 1][k] == events[k];
    hide Enabled, Step;
  }
}
