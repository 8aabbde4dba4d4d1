/** The firmware coordinator: one service, three sockets, and an endless loop that handles a turn in every pass. */
module Coordinator {
  import opened Machine
  import opened Messages
  import opened Benchmark
  import opened CoordinatorMessages
  import opened CoordinatorSpec
  import BenchmarkSpec
  import BenchmarkService

  /** A nonblocking socket. Closing discards what is queued; the network takes datagrams from the front. */
  class UdpSocket {
    const capacity: nat
    var open: bool
    var queue: seq<Envelope>

    ghost function Snapshot(): Socket
      reads this
    {
      Socket(open, queue)
    }

    constructor (capacity: nat)
      ensures this.capacity == capacity && Snapshot() == CLOSED
    {
      this.capacity, open, queue := capacity, false, [];
    }

    method Bind(ok: bool) returns (bound: bool)
      requires !open
      modifies this`open
      ensures Snapshot() == Bound(old(Snapshot()), ok) && bound == open
    {
      open := ok;
      bound := open;
    }

    method Close()
      modifies this
      ensures Snapshot() == CLOSED
    {
      open, queue := false, [];
    }

    /** Queues the datagram, or refuses it and keeps the queue as it was. */
    method TrySend(m: Envelope, accepted: bool) returns (sent: bool)
      modifies this`queue
      ensures sent == Sends(old(Snapshot()), capacity, accepted)
      ensures Snapshot() == Queued(old(Snapshot()), m, sent)
    {
      sent := accepted && open && |queue| < capacity;
      if sent {
        queue := queue + [m];
      }
    }

    method TryFlush() returns (flushed: bool)
      ensures flushed <==> queue == []
    {
      flushed := queue == [];
    }

    /** The network takes some datagrams while other tasks run. */
    method Drain(n: nat)
      modifies this`queue
      ensures Snapshot() == Taken(old(Snapshot()), n)
    {
      queue := queue[if n < |queue| then n else |queue|..];
    }
  }

  class Task {
    const service: BenchmarkService.Service
    const command: UdpSocket
    const status: UdpSocket
    const health: UdpSocket
    var generation: (u32, bool)
    var previousConfig: Network
    /** The newest samples taken, and what could be observed at each await point so far. */
    ghost var newest: seq<Option<Envelope>>
    ghost var moments: seq<Moment>

    ghost predicate Valid()
      reads this, service, command, status, health
    {
      command != status && command != health && status != health && |newest| == 2 &&
      command.capacity == COMMAND_CAPACITY && status.capacity == health.capacity == STREAM_CAPACITY && service.Valid()
    }

    ghost function Snapshot(): Station
      reads this, service, command, status, health
      requires |newest| == 2
    {
      Station(service.Snapshot(), generation, previousConfig, command.Snapshot(),
              [Stream(status.Snapshot(), newest[0]), Stream(health.Snapshot(), newest[1])])
    }

    constructor (service: BenchmarkService.Service, network: Network)
      requires service.Valid() && service.lease.None?
      ensures Valid() && fresh(command) && fresh(status) && fresh(health) && this.service == service && moments == []
      ensures Consistent(Snapshot())
      ensures forall format, crc :: ServiceOf(service.Snapshot(), format, crc) ==> Proper(Snapshot(), format, crc)
    {
      this.service := service;
      command := new UdpSocket(COMMAND_CAPACITY);
      status := new UdpSocket(STREAM_CAPACITY);
      health := new UdpSocket(STREAM_CAPACITY);
      generation := (service.epoch, service.lease.Some?);
      previousConfig := network;
      newest := [None, None];
      moments := [];
    }

    /** Other tasks run: they may see the queues as they are, and the network may drain them. */
    method Await(drain: Drain)
      requires Valid()
      modifies this`moments, command`queue, status`queue, health`queue
      ensures Valid() && Snapshot() == Drained(old(Snapshot()), drain)
      ensures moments == old(moments) + [MomentOf(old(Snapshot()))]
    {
      moments := moments + [MomentOf(Snapshot())];
      command.Drain(drain.command);
      status.Drain(drain.status);
      health.Drain(drain.health);
    }

    method CloseSockets()
      requires Valid()
      modifies command, status, health
      ensures Valid() && Snapshot() == CloseAll(old(Snapshot()))
    {
      command.Close();
      status.Close();
      health.Close();
    }

    /** Discards the queues if the run has changed since they were filled, and leaves them alone otherwise. */
    method Renew()
      requires Valid()
      modifies this`generation, command, status, health
      ensures Valid() && Snapshot() == Synchronize(old(Snapshot()))
    {
      if generation != (service.epoch, service.lease.Some?) {
        CloseSockets();
        generation := (service.epoch, service.lease.Some?);
      }
    }

    /** Ends the run and discards the queues. */
    method Stop()
      requires Valid()
      modifies service, command, status, health
      ensures Valid() && Snapshot() == Halt(old(Snapshot()))
    {
      service.End();
      CloseSockets();
    }

    /** Binds what is closed, and gives up at the first socket that cannot be bound. */
    method BindSockets(turn: Turn) returns (bound: bool)
      requires Valid()
      modifies command`open, status`open, health`open
      ensures Valid() && bound == AllOpen(BindAll(old(Snapshot()), turn))
      ensures bound ==> Snapshot() == BindAll(old(Snapshot()), turn)
      ensures Halt(Snapshot()) == Halt(old(Snapshot()))
    {
      if !command.open {
        bound := command.Bind(turn.bindCommand);
        if !bound {
          return false;
        }
      }
      if !status.open {
        bound := status.Bind(turn.bindStatus);
        if !bound {
          return false;
        }
      }
      bound := true;
      if !health.open {
        bound := health.Bind(turn.bindHealth);
      }
    }

    /** The clock, the link and the sockets, up to the receive step. */
    method MakeReady(turn: Turn) returns (phase: Phase)
      requires Valid()
      modifies this`generation, this`previousConfig, service, command, status, health
      ensures Valid() && (Snapshot(), phase) == Prepare(old(Snapshot()), turn)
    {
      hide CloseAll, BindAll, BenchmarkSpec.Wf, BenchmarkSpec.End, BenchmarkSpec.Tick;
      service.Tick(turn.start);
      var ready := turn.linkUp && turn.network.Some?;
      if !ready || turn.network != previousConfig {
        Stop();
        previousConfig := turn.network;
      }
      Renew();
      if !ready {
        return Waiting;
      }
      var bound := BindSockets(turn);
      if !bound {
        Stop();
        return Stopped;
      }
      return Ready;
    }

    /** Queues a reply, a probe reply only if its run still lasts. */
    method Answer(reply: Envelope, turn: Turn)
      requires Valid()
      modifies service, command`queue
      ensures Valid() && Snapshot() == Reply(old(Snapshot()), reply, turn)
    {
      hide BenchmarkSpec.Tick, BenchmarkSpec.Wf;
      service.Tick(turn.answered);
      if reply.kind != Some(15) || (reply.runEpoch == Some(service.epoch) && service.lease.Some?) {
        var sent := false;
        if turn.encoded {
          sent := command.TrySend(reply, turn.accepted);
        }
        service.Sent(0, sent);
      }
    }

    /** Handles a request; false when the rest of the pass is abandoned. */
    method HandleRequest(request: Envelope, peer: BenchmarkSpec.Peer, turn: Turn) returns (proceed: bool)
      requires Valid()
      modifies this`generation, service, command, status, health
      ensures Valid() && (Snapshot(), proceed) == Serve(old(Snapshot()), request, peer, turn)
    {
      hide CloseAll, Reply, BenchmarkSpec.Handle, BenchmarkSpec.Wf, BenchmarkSpec.End;
      var reply := service.Handle(request, peer, turn.handled);
      Renew();
      if !command.open {
        var bound := command.Bind(turn.rebind);
        if !bound {
          service.End();
          return false;
        }
      }
      if reply.Some? {
        Answer(reply.value, turn);
      }
      return true;
    }

    /** Handles at most one datagram. */
    method ReceiveOne(turn: Turn) returns (proceed: bool)
      requires Valid()
      modifies this`generation, service, command, status, health
      ensures Valid() && (Snapshot(), proceed) == Receive(old(Snapshot()), turn)
    {
      hide Serve, BenchmarkSpec.Wf, BenchmarkSpec.Reject;
      proceed := true;
      match turn.received {
        case Nothing =>
        case Foreign =>
        case Broken => service.Reject(false);
        case Misaddressed => service.Reject(false);
        case Unreadable(error) => service.Reject(error == CodecError.Crc);
        case Request(request, peer) =>
          proceed := HandleRequest(request, peer, turn);
      }
    }

    /** The socket of a stream. */
    ghost predicate IsStream(index: nat, socket: UdpSocket)
      reads this
    {
      index < 2 && socket == if index == 0 then status else health
    }

    /** Queues the newest sample, unless its run has ended meanwhile. */
    method DeliverSample(index: nat, socket: UdpSocket, sample: Envelope, round: Round)
      requires Valid() && IsStream(index, socket)
      modifies service, socket`queue
      ensures Valid() && Snapshot() == Deliver(old(Snapshot()), index, sample, round)
    {
      hide BenchmarkSpec.Tick, BenchmarkSpec.Wf;
      service.Tick(round.queued);
      if service.lease.None? || sample.runEpoch != Some(service.epoch) {
        return;
      }
      var sent := false;
      if round.encoded {
        sent := socket.TrySend(sample, round.accepted);
      }
      service.Sent(index + 1, sent);
      if !sent {
        service.Skip(1);
      }
      SameStreams(Snapshot().streams, Deliver(old(Snapshot()), index, sample, round).streams);
    }

    /** Discards an unsent older sample, and counts it as skipped. */
    method Discard(index: nat, socket: UdpSocket, rebind: bool) returns (bound: bool)
      requires Valid() && IsStream(index, socket)
      modifies service, socket
      ensures Valid() && Snapshot() == Emptied(old(Snapshot()), index, rebind)
      ensures bound == rebind && socket.Snapshot() == Bound(CLOSED, rebind)
    {
      hide BenchmarkSpec.Wf;
      service.Skip(1);
      socket.Close();
      bound := socket.Bind(rebind);
      SameStreams(Snapshot().streams, Emptied(old(Snapshot()), index, rebind).streams);
    }

    method BindStream(index: nat, socket: UdpSocket, ok: bool) returns (bound: bool)
      requires Valid() && IsStream(index, socket)
      modifies socket`open
      ensures Valid() && bound == socket.open && socket.Snapshot() == Bound(old(socket.Snapshot()), ok)
      ensures Snapshot() == WithSocket(old(Snapshot()), index, Bound(old(socket.Snapshot()), ok))
    {
      bound := true;
      if !socket.open {
        bound := socket.Bind(ok);
      }
      SameStreams(Snapshot().streams,
                  WithSocket(old(Snapshot()), index, Bound(old(socket.Snapshot()), ok)).streams);
    }

    /** Polls one stream and replaces whatever is still unsent; false when its socket cannot be bound. */
    method PublishOne(index: nat, socket: UdpSocket, round: Round) returns (bound: bool)
      requires Valid() && IsStream(index, socket)
      modifies this`newest, service, socket
      ensures Valid() && (Snapshot(), bound) == PublishNewest(old(Snapshot()), index, round)
    {
      hide Deliver, Emptied, Bound, BenchmarkSpec.Poll, BenchmarkSpec.Wf, BenchmarkSpec.End;
      ghost var before := Snapshot();
      bound := BindStream(index, socket, round.bind);
      if !bound {
        service.End();
        UnboundIsUnchanged(before.streams[index].socket, round.bind);
        SameStreams(Snapshot().streams, before.streams);
        return;
      }
      var message := service.Publication(index, round.polled);
      if message.None? {
        return;
      }
      newest := newest[index := message];
      SameStreams(Snapshot().streams, before.streams[index := Stream(socket.Snapshot(), message)]);
      var flushed := socket.TryFlush();
      if !flushed {
        bound := Discard(index, socket, round.rebind);
        if !bound {
          service.End();
          return;
        }
      }
      DeliverSample(index, socket, message.value, round);
    }

    lemma UnboundIsUnchanged(socket: Socket, ok: bool)
      ensures !Bound(socket, ok).open ==> Bound(socket, ok) == socket
    {
    }

    lemma SameStreams(a: Streams, b: Streams)
      requires a[0] == b[0] && a[1] == b[1]
      ensures a == b
    {
    }

    /** Both streams in order; the second is left out when the first cannot be bound. */
    method PublishEach(rounds: Rounds)
      requires Valid()
      modifies this`newest, service, status, health
      ensures Valid() && Snapshot() == PublishBoth(old(Snapshot()), rounds)
    {
      hide PublishNewest, BenchmarkSpec.Wf;
      var bound := PublishOne(0, status, rounds[0]);
      if bound {
        bound := PublishOne(1, health, rounds[1]);
      }
    }

    /** One pass of the endless loop, from its first await to its last. */
    method Turnaround(turn: Turn) returns (stopped: bool)
      requires Valid()
      modifies this, service, command, status, health
      ensures var pass := Pass(old(Snapshot()), turn);
              Valid() && Snapshot() == pass.after && moments == old(moments) + pass.moments && stopped == pass.stopped
    {
      hide Drained, Prepare, Receive, PublishBoth, Synchronize, MomentOf, BenchmarkSpec.Wf;
      Await(turn.first);
      var phase := MakeReady(turn);
      if phase != Ready {
        Await(turn.last);
        return phase == Stopped;
      }
      var proceed := ReceiveOne(turn);
      if proceed {
        Renew();
        PublishEach(turn.rounds);
        Renew();
        Await(turn.last);
      }
      return false;
    }

    /**
     * The loop over any turns: it does what the station does, it shows at every await point exactly what is queued
     * there, none of that ever belongs to an earlier run, and all of it is valid if the service has a valid identity.
     */
    method Run(turns: seq<Turn>) returns (stopped: bool)
      requires Valid() && Consistent(Snapshot())
      modifies this, service, command, status, health
      ensures var passes := Passes(old(Snapshot()), turns);
              Valid() && Snapshot() == passes.after && moments == old(moments) + passes.moments &&
              stopped == passes.stopped
      ensures Consistent(Snapshot()) && (!stopped ==> |moments| >= |old(moments)| + |turns|)
      ensures forall k :: |old(moments)| <= k < |moments| ==> Isolated(moments[k])
      ensures var (format, crc) := (old(Snapshot()).service.format, old(Snapshot()).service.crc);
              Proper(old(Snapshot()), format, crc) ==>
                forall k :: |old(moments)| <= k < |moments| ==> AllSound(moments[k], format, crc)
    {
      hide Pass, Consistent, Isolated, Proper, AllSound, MomentOf, BenchmarkSpec.Wf;
      ghost var start, before := Snapshot(), moments;
      ConsistentIsWf(start);
      PassesAreIsolated(start, turns);
      PassesAreSound(start, turns);
      stopped := false;
      var i := 0;
      while i < |turns| && !stopped
        invariant Valid() && i <= |turns| && before <= moments
        invariant stopped ==> Passes(start, turns) == Passed(Snapshot(), moments[|before|..], true)
        invariant !stopped ==>
                    Passes(start, turns) == After(moments[|before|..], Passes(Snapshot(), turns[i..]))
      {
        ghost var here, seen := Snapshot(), moments;
        stopped := Turnaround(turns[i]);
        PassesFrom(here, turns, i);
        assert moments[|before|..] == seen[|before|..] + Pass(here, turns[i]).moments;
        i := i + 1;
      }
      assert stopped || turns[i..] == [];
    }
  }

  /** What a run has come to when some of its moments have been seen. */
  ghost function After(seen: seq<Moment>, rest: Passed): Passed {
    rest.(moments := seen + rest.moments)
  }

  lemma PassesAreSound(c: Station, turns: seq<Turn>)
    requires BenchmarkSpec.Wf(c.service)
    ensures var (format, crc) := (c.service.format, c.service.crc);
            Proper(c, format, crc) ==>
              forall k :: 0 <= k < |Passes(c, turns).moments| ==> AllSound(Passes(c, turns).moments[k], format, crc)
  {
    hide Proper, AllSound, BenchmarkSpec.Wf, Passes;
    if Proper(c, c.service.format, c.service.crc) {
      EverythingQueuedIsValid(c, turns, c.service.format, c.service.crc);
    }
  }

  lemma PassesFrom(c: Station, turns: seq<Turn>, i: nat)
    requires BenchmarkSpec.Wf(c.service) && i < |turns|
    ensures var pass := Pass(c, turns[i]);
            BenchmarkSpec.Wf(pass.after.service) &&
            Passes(c, turns[i..]) ==
              if pass.stopped then pass else After(pass.moments, Passes(pass.after, turns[i + 1..]))
  {
    hide Pass, BenchmarkSpec.Wf;
    PassWf(c, turns[i]);
    assert turns[i..][0] == turns[i] && turns[i..][1..] == turns[i + 1..];
  }
}
