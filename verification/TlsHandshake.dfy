/** asyncServerHandshake and its two callbacks on real objects (tls_handshake.cpp). */
module TlsHandshake {
  import opened Handshake

  // An SSL stream, as far as this code acts on it: its lowest layer can be closed.
  class SslStream {
    var open: bool

    constructor ()
      ensures open
    {
      open := true;
    }

    method Close()
      modifies this
      ensures !open
    {
      open := false;
    }
  }

  datatype HandlerCall = HandlerCall(status: HandshakeStatus, stream: SslStream?)

  // The Shared state of one connection. Its methods are the two callbacks.
  class Shared {
    var stream: SslStream?
    var timerCancelled: bool
    const hasHandler: bool
    var handlerCalls: seq<HandlerCall>
    var completed: bool
    var timeoutStarted: bool
    ghost const socket: SslStream
    ghost var timerPending: bool
    ghost var handshakePending: bool

    // Until the handshake callback has run, the stream has not been moved out; a stream passed to
    // the handler is this connection's own.
    ghost predicate Valid()
      reads this
    {
      && (stream == null || stream == socket)
      && (!completed ==> stream == socket)
      && (handshakePending <==> !completed)
      && CarriesOwnStream(handlerCalls, socket)
    }

    ghost function View(): Connection
      reads this, socket
    {
      Connection(hasHandler, completed, timeoutStarted, timerCancelled, stream != null, socket.open,
                 AnswersOf(handlerCalls), timerPending, handshakePending)
    }

    ghost predicate IsIn(c: Connection)
      reads this, socket
    {
      Valid() && View() == c
    }

    // asyncServerHandshake: takes over the stream made for an accepted socket and starts the timer
    // and the handshake, which will each call back once.
    constructor (ssl: SslStream, hasHandler: bool)
      requires ssl.open
      ensures Valid() && View() == Started(hasHandler) && socket == ssl
    {
      stream := ssl;
      socket := ssl;
      timerCancelled := false;
      this.hasHandler := hasHandler;
      handlerCalls := [];
      completed := false;
      timeoutStarted := false;
      timerPending := true;
      handshakePending := true;
    }

    method TimerCallback(failed: bool)
      requires Valid() && timerPending
      modifies this, socket
      ensures Valid() && View() == OnTimer(old(View()), failed)
      ensures handlerCalls == old(handlerCalls)
    {
      timerPending := false;
      if failed || completed {
        return;
      }
      timeoutStarted := true;
      stream.Close();
    }

    method HandshakeCallback(failed: bool)
      requires Valid() && handshakePending
      modifies this, socket
      ensures Valid() && View() == OnHandshake(old(View()), failed)
      ensures old(handlerCalls) <= handlerCalls
    {
      handshakePending := false;
      if completed {
        return;
      }
      completed := true;
      timerCancelled := true;
      if timeoutStarted {
        if hasHandler {
          CallHandler(Timeout, null);
        }
        return;
      }
      if failed {
        stream.Close();
        if hasHandler {
          CallHandler(Error, null);
        }
        return;
      }
      var moved := stream;
      stream := null;
      if hasHandler {
        CallHandler(Ok, moved);
      } else {
        // The local owner is the last one: the stream is destroyed here, which closes its socket.
        moved.Close();
      }
    }

    method CallHandler(status: HandshakeStatus, moved: SslStream?)
      modifies this`handlerCalls
      ensures handlerCalls == old(handlerCalls) + [HandlerCall(status, moved)]
      ensures AnswersOf(handlerCalls) == old(AnswersOf(handlerCalls)) + [Answer(status, moved != null)]
    {
      handlerCalls := handlerCalls + [HandlerCall(status, moved)];
    }
  }

  ghost function AnswersOf(calls: seq<HandlerCall>): seq<Answer> {
    seq(|calls|, i requires 0 <= i < |calls| => Answer(calls[i].status, calls[i].stream != null))
  }

  // The objects are those of the connections of a world; no two connections share a stream.
  ghost predicate Embody(conns: seq<Shared>, sockets: seq<SslStream>, w: seq<Connection>)
    reads conns, sockets
  {
    && |conns| == |sockets| == |w|
    && (forall i | 0 <= i < |w| :: conns[i].socket == sockets[i] && conns[i].IsIn(w[i]))
    && (forall i, j | 0 <= i < j < |w| :: conns[i] != conns[j] && sockets[i] != sockets[j])
  }

  // Makes the stream and the state of a newly accepted socket.
  method AcceptOne(ghost conns: seq<Shared>, ghost sockets: seq<SslStream>, ghost w: seq<Connection>, hasHandler: bool)
    returns (conn: Shared, ssl: SslStream)
    requires Embody(conns, sockets, w)
    ensures fresh(conn) && fresh(ssl) && Embody(conns + [conn], sockets + [ssl], w + [Started(hasHandler)])
  {
    hide Started;
    ssl := new SslStream();
    conn := new Shared(ssl, hasHandler);
  }

  // Makes the callback of an event.
  method CallBack(conns: seq<Shared>, ghost sockets: seq<SslStream>, ghost w: seq<Connection>, e: Event)
    requires Embody(conns, sockets, w) && Enabled(w, e) && !e.Accept?
    modifies conns[e.conn], sockets[e.conn]
    ensures Embody(conns, sockets, Step(w, e))
  {
    hide OnTimer, OnHandshake;
    match e
    case TimerFired(i, failed) => conns[i].TimerCallback(failed);
    case HandshakeDone(i, failed) => conns[i].HandshakeCallback(failed);
  }

  // Any number of connections at work together: the callbacks of a run, made on real objects in the
  // order of the run. For each connection this returns the stream made for its socket and the calls
  // its handler received. The calls are those of the transition system, so the handler given to each
  // Accept event is called as the events call for; with ok comes the connection's own stream, which
  // no other connection shares, and it is open.
  method Drive(events: seq<Event>) returns (sockets: seq<SslStream>, calls: seq<seq<HandlerCall>>)
    requires IsRun(events)
    ensures |sockets| == |calls| == |World(events)|
    ensures forall i | 0 <= i < |calls| :: AnswersOf(calls[i]) == World(events)[i].answers
    ensures forall k | 0 <= k < |events| && events[k].Accept? ::
              && Accepts(events[..k]) < |calls|
              && IsExpected(events, k, AnswersOf(calls[Accepts(events[..k])]))
    ensures forall i | 0 <= i < |calls| :: CarriesOwnStream(calls[i], sockets[i])
    ensures forall i | 0 <= i < |sockets| :: sockets[i].open == World(events)[i].socketOpen
    ensures forall i, j | 0 <= i < j < |sockets| :: sockets[i] != sockets[j]
  {
    assert events[..0] == [] && events[..|events|] == events;
    assert IsRun([]) && World([]) == [];
    hide IsRun, World, OnTimer, OnHandshake, Started, Accepts, IsExpected;
    var conns: seq<Shared> := [];
    sockets := [];
    ghost var w := [];
    for k := 0 to |events|
      invariant IsRun(events[..k]) && w == World(events[..k])
      invariant Embody(conns, sockets, w)
      invariant forall i | 0 <= i < |conns| :: fresh(conns[i]) && fresh(sockets[i])
    {
      RunUpTo(events, k);
      if events[k].Accept? {
        var conn, ssl := AcceptOne(conns, sockets, w, events[k].hasHandler);
        conns, sockets := conns + [conn], sockets + [ssl];
      } else {
        CallBack(conns, sockets, w, events[k]);
      }
      hide Embody;
      w := Step(w, events[k]);
    }
    calls := Collect(conns, sockets, w);
    AllAnswersFollowEvents(events);
  }

  // Whatever stream a handler was given is this one (a call without a stream carries null).
  ghost predicate CarriesOwnStream(calls: seq<HandlerCall>, socket: SslStream) {
    forall call | call in calls :: call.stream == null || call.stream == socket
  }

  method Collect(conns: seq<Shared>, ghost sockets: seq<SslStream>, ghost w: seq<Connection>)
    returns (calls: seq<seq<HandlerCall>>)
    requires Embody(conns, sockets, w)
    ensures |calls| == |w|
    ensures forall i | 0 <= i < |w| :: AnswersOf(calls[i]) == w[i].answers && CarriesOwnStream(calls[i], sockets[i])
    ensures forall i | 0 <= i < |w| :: sockets[i].open == w[i].socketOpen
  {
    calls := [];
    for i := 0 to |conns|
      invariant |calls| == i
      invariant forall j | 0 <= j < i :: AnswersOf(calls[j]) == w[j].answers && CarriesOwnStream(calls[j], sockets[j])
    {
      calls := calls + [conns[i].handlerCalls];
    }
  }
}
