/** Moving download bytes from the relay channel into a socket that may accept
    only a prefix of what it is offered. */
module Drain {
  import opened Prelude

  type Chunk = seq<Byte>

  /** Any socket: whether it is ready and how much room it has may change arbitrarily
      from one call to the next. */
  datatype Sink = Sink(ready: nat -> bool, room: nat -> nat, calls: nat, delivered: seq<Byte>)

  predicate CanSend(s: Sink) {
    s.ready(s.calls)
  }

  /** Takes as many leading bytes as fit. */
  function Accepts(s: Sink, data: Chunk): (n: nat)
    ensures n <= |data|
  {
    if s.room(s.calls) < |data| then s.room(s.calls) else |data|
  }

  function Enqueue(s: Sink, data: Chunk): Sink {
    s.(calls := s.calls + 1, delivered := s.delivered + data[..Accepts(s, data)])
  }

  datatype Outcome = Idle | Disconnected

  /** What was delivered, what is held back, and what still waits in the channel, in order. */
  function Stream(s: Sink, pending: Chunk, queue: seq<Chunk>): seq<Byte> {
    s.delivered + pending + Flatten(queue)
  }

  lemma PartlySent(s: Sink, data: Chunk)
    ensures Enqueue(s, data).delivered + data[Accepts(s, data)..] == s.delivered + data
  {
    assert data[..Accepts(s, data)] + data[Accepts(s, data)..] == data;
  }

  lemma HeldSent(s: Sink, pending: Chunk, queue: seq<Chunk>)
    ensures Stream(Enqueue(s, pending), pending[Accepts(s, pending)..], queue) == Stream(s, pending, queue)
  {
    PartlySent(s, pending);
  }

  lemma NextSent(s: Sink, queue: seq<Chunk>)
    requires queue != []
    ensures var data := queue[0]; Stream(Enqueue(s, data), data[Accepts(s, data)..], queue[1..]) == Stream(s, [], queue)
  {
    PartlySent(s, queue[0]);
    Unit(s.delivered);
    Grouping(s.delivered, queue[0], Flatten(queue[1..]));
  }

  /** The socket was offered bytes only when it was ready for them. */
  ghost predicate AskedWhenReady(before: Sink, after: Sink) {
    && after.ready == before.ready && after.room == before.room && before.calls <= after.calls
    && before.delivered <= after.delivered
    && forall i :: before.calls <= i < after.calls ==> before.ready(i)
  }

  /** The last offer used up the room there was, and it was not enough. */
  predicate LastFilled(before: Sink, after: Sink) {
    && before.calls < after.calls && |after.delivered| >= |before.delivered|
    && |after.delivered| - |before.delivered| >= before.room(after.calls - 1)
  }

  /** The socket is always ready and has room for each of the pieces. */
  ghost predicate Roomy(s: Sink, held: Chunk, channel: seq<Chunk>) {
    forall n: nat :: s.ready(n) && s.room(n) >= |held| && forall c :: c in channel ==> s.room(n) >= |c|
  }

  lemma OfferedOne(before: Sink, s: Sink, data: Chunk)
    requires AskedWhenReady(before, s) && CanSend(s)
    ensures AskedWhenReady(before, Enqueue(s, data))
    ensures Accepts(s, data) < |data| ==> LastFilled(before, Enqueue(s, data))
  {
  }

  /** One call. Nothing is lost, duplicated or reordered; the relay is reported gone only when
      nothing of it is left; and an idle end means that the socket is not ready, that its last
      room was too little, or that the channel is empty and still open. */
  method DrainDownload(sink: Sink, held: Chunk, channel: seq<Chunk>, closed: bool)
    returns (sink': Sink, pending: Chunk, queue: seq<Chunk>, outcome: Outcome)
    ensures Stream(sink', pending, queue) == Stream(sink, held, channel)
    ensures AskedWhenReady(sink, sink')
    ensures outcome == Disconnected ==> pending == [] && queue == [] && closed
    ensures outcome == Idle ==>
              || !CanSend(sink')
              || (pending != [] && LastFilled(sink, sink'))
              || (pending == [] && queue == [] && !closed)
    ensures Roomy(sink, held, channel) ==> pending == [] && queue == []
  {
    sink', pending, queue := sink, held, channel;
    while true
      invariant Stream(sink', pending, queue) == Stream(sink, held, channel)
      invariant AskedWhenReady(sink, sink')
      invariant Roomy(sink, held, channel) ==> Roomy(sink, pending, queue)
      decreases |queue|
    {
      if pending != [] {
        if !CanSend(sink') { return sink', pending, queue, Idle; }
        var sent := Accepts(sink', pending);
        HeldSent(sink', pending, queue);
        OfferedOne(sink, sink', pending);
        sink' := Enqueue(sink', pending);
        if sent < |pending| {
          pending := pending[sent..];
          return sink', pending, queue, Idle;
        }
        pending := [];
      }
      if !CanSend(sink') { return sink', pending, queue, Idle; }
      if queue == [] {
        return sink', pending, queue, if closed then Disconnected else Idle;
      }
      var data := queue[0];
      if Roomy(sink, [], queue) { RoomyNext(sink, sink', queue); }
      NextSent(sink', queue);
      OfferedOne(sink, sink', data);
      queue := queue[1..];
      var sent := Accepts(sink', data);
      sink' := Enqueue(sink', data);
      if sent < |data| {
        pending := data[sent..];
      }
    }
  }

  lemma RoomyNext(before: Sink, s: Sink, queue: seq<Chunk>)
    requires queue != [] && before.room == s.room && Roomy(before, [], queue)
    ensures Roomy(before, [], queue[1..]) && Accepts(s, queue[0]) == |queue[0]|
  {
    assert queue[0] in queue;
    assert forall c :: c in queue[1..] ==> c in queue;
  }

  /** Any number of calls, with chunks arriving in between and the socket draining at
      will: what was delivered, held and queued is always exactly what arrived, in order. */
  method DrainTicks(sink: Sink, arrivals: seq<seq<Chunk>>) returns (sink': Sink, pending: Chunk, queue: seq<Chunk>)
    ensures Stream(sink', pending, queue) == sink.delivered + Flatten(Flatten(arrivals))
  {
    sink', pending, queue := sink, [], [];
    Unit(sink.delivered);
    for i := 0 to |arrivals|
      invariant Stream(sink', pending, queue) == sink.delivered + Flatten(Flatten(arrivals[..i]))
    {
      Arrives(sink', pending, queue, sink.delivered, arrivals, i);
      var outcome;
      var later := sink'.(calls := sink'.calls + 1);
      sink', pending, queue, outcome := DrainDownload(later, pending, queue + arrivals[i], false);
    }
    assert arrivals[..|arrivals|] == arrivals;
  }

  /** Chunks that arrive extend the stream. */
  lemma Arrives(s: Sink, pending: Chunk, queue: seq<Chunk>, before: seq<Byte>, arrivals: seq<seq<Chunk>>, i: nat)
    requires i < |arrivals| && Stream(s, pending, queue) == before + Flatten(Flatten(arrivals[..i]))
    ensures Stream(s, pending, queue + arrivals[i]) == before + Flatten(Flatten(arrivals[..i + 1]))
  {
    FlattenConcat(queue, arrivals[i]);
    FlattenSnoc(arrivals, i);
    FlattenConcat(Flatten(arrivals[..i]), arrivals[i]);
    Grouping(s.delivered + pending, Flatten(queue), Flatten(arrivals[i]));
    Grouping(before, Flatten(Flatten(arrivals[..i])), Flatten(arrivals[i]));
  }
}
