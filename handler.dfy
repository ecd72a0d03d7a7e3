/**
 * The endpoints of the log transport and the registries that hold them, sequentially:
 * the publishing handler with its queue and sender loop, the listener with its dispatch
 * of decoded records, the proxy handler, and the three process-wide dictionaries.
 */
module LogHandler {
  import opened Wrappers
  import opened Bytes
  import opened Codec
  import opened CodecProperties
  import opened LogRecords
  import opened SendQueue
  import opened Concurrent

  /**
   * `PynngLoggingHandler`: records are queued by `emit` and written to a Pub socket by a
   * sender thread that the constructor starts. `sent` is what the sender has written, and
   * `senderAlive` says the sender has not returned: it returns at the sentinel or when it
   * finds the handler stopped, `stop` joins it, and a thread cannot be started twice.
   */
  class Publisher {
    const address: string
    var running: bool
    var senderAlive: bool
    var queue: seq<Item>
    var sent: seq<seq<byte>>

    /** `__init__`: the sender thread is started and the handler is running. */
    constructor (host: string, port: nat)
      ensures address == Address(host, port)
      ensures running && senderAlive && queue == [] && sent == []
    {
      address := Address(host, port);
      running := true;
      senderAlive := true;
      queue := [];
      sent := [];
    }

    /** `emit`: the prepared record is put at the back of the queue. */
    method Emit(format: Record -> string, rec: Record)
      modifies this
      ensures queue == old(queue) + [Msg(Prepare(format, rec))]
      ensures running == old(running) && senderAlive == old(senderAlive) && sent == old(sent)
    {
      queue := queue + [Msg(Prepare(format, rec))];
    }

    /**
     * `start`: nothing to do while running. Otherwise the flag is set and the sender thread,
     * which the constructor already started, is started again, which raises RuntimeError;
     * no sender comes back.
     */
    method Start() returns (r: Result<()>)
      modifies this
      ensures running
      ensures old(running) ==> r == Ok(())
      ensures !old(running) ==> r == Err(RuntimeError)
      ensures senderAlive == old(senderAlive) && queue == old(queue) && sent == old(sent)
    {
      if running {
        return Ok(());
      }
      running := true;
      return Err(RuntimeError);
    }

    /**
     * The state `stop` leaves from a given one: stopped, with the sentinel queued once and
     * the sender joined if the handler was running, and nothing else changed otherwise.
     */
    predicate StoppedFrom(wasRunning: bool, wasAlive: bool, queue0: seq<Item>, sent0: seq<seq<byte>>)
      reads this
    {
      && !running
      && senderAlive == (wasAlive && !wasRunning)
      && queue == (if wasRunning then queue0 + [Sentinel] else queue0)
      && sent == sent0
    }

    /**
     * `stop`: nothing to do when stopped; otherwise the flag is cleared, the sentinel
     * queued and the sender thread joined.
     */
    method Stop()
      modifies this
      ensures StoppedFrom(old(running), old(senderAlive), old(queue), old(sent))
    {
      if !running {
        return;
      }
      running := false;
      queue := queue + [Sentinel];
      senderAlive := false;
    }

    /**
     * `_send_logs` over the queued items: while running, take items in FIFO order; return at
     * the sentinel; send each record as a JSON, compressed frame, skipping a record whose
     * encoding fails. A stopped handler's sender returns at once, and a sender that has
     * returned sends nothing again. `done` says the sender returned at the sentinel.
     */
    method SendLogs(reg: Registry<Record>, z: Zlib) returns (done: bool)
      modifies this
      ensures running == old(running)
      ensures !(old(running) && old(senderAlive)) ==>
                !done && !senderAlive && queue == old(queue) && sent == old(sent)
      ensures old(running) && old(senderAlive) ==> sent == old(sent) + Frames(reg, z, Pending(old(queue)))
      ensures old(running) && old(senderAlive) ==> queue == AfterSentinel(old(queue))
      ensures old(running) && old(senderAlive) ==> (done <==> Sentinel in old(queue)) && senderAlive == !done
    {
      done := false;
      if !running || !senderAlive {
        senderAlive := false;
        return;
      }
      while running && queue != []
        invariant running && senderAlive
        invariant sent + Frames(reg, z, Pending(queue)) == old(sent) + Frames(reg, z, Pending(old(queue)))
        invariant AfterSentinel(queue) == AfterSentinel(old(queue))
        invariant Sentinel in queue <==> Sentinel in old(queue)
        decreases |queue|
      {
        var q := queue;
        var item := q[0];
        queue := q[1..];
        assert q == [item] + queue;
        if item.Sentinel? {
          senderAlive := false;
          return true;
        }
        FramesCons(reg, z, item.rec, Pending(queue));
        var frame := SendFrame(reg, z, item.rec);
        if frame.Ok? {
          sent := sent + [frame.value];
        }
      }
    }
  }

  /**
   * A handler that was stopped and then started again sends nothing more: `start` raises,
   * and the sender `stop` joined does not come back for the records emitted afterwards.
   */
  method RestartSendsNothing(host: string, port: nat, format: Record -> string, rec: Record, reg: Registry<Record>, z: Zlib)
    returns (r: Result<()>, done: bool, sent: seq<seq<byte>>, queued: seq<Item>)
    ensures r == Err(RuntimeError) && !done && sent == []
    ensures queued == [Sentinel, Msg(Prepare(format, rec))]
  {
    var p := new Publisher(host, port);
    p.Stop();
    r := p.Start();
    p.Emit(format, rec);
    done := p.SendLogs(reg, z);
    sent, queued := p.sent, p.queue;
  }

  /**
   * `PynngLoggingListener`: a Sub socket whose thread is created but not started by the
   * constructor; `start` starts it.
   */
  class Listener {
    const address: string
    var running: bool
    var threadStarted: bool

    /** `__init__`: not running, thread not started. */
    constructor (host: string, port: nat)
      ensures address == Address(host, port)
      ensures !running && !threadStarted
    {
      address := Address(host, port);
      running := false;
      threadStarted := false;
    }

    /**
     * `start`: nothing to do while running. Otherwise the flag is set and the thread started;
     * a thread that was started before cannot be started again (RuntimeError).
     */
    method Start() returns (r: Result<()>)
      modifies this
      ensures running
      ensures old(running) ==> r == Ok(()) && threadStarted == old(threadStarted)
      ensures !old(running) ==> threadStarted
      ensures !old(running) && old(threadStarted) ==> r == Err(RuntimeError)
      ensures !old(running) && !old(threadStarted) ==> r == Ok(())
    {
      if running {
        return Ok(());
      }
      running := true;
      if threadStarted {
        return Err(RuntimeError);
      }
      threadStarted := true;
      return Ok(());
    }

    /** `stop`: nothing to do when stopped; otherwise the flag is cleared. */
    method Stop()
      modifies this
      ensures !running && threadStarted == old(threadStarted)
    {
      if !running {
        return;
      }
      running := false;
    }
  }

  /** One sent frame as one message to a decoder with an empty buffer: its record, and nothing kept. */
  method ReceiveFrame(codec: ProtocolCodec<Record>, ghost rec: Record, e: seq<byte>) returns (out: seq<Record>)
    requires codec.buffer == [] && SendFrame(codec.serializers, codec.zlib, rec) == Ok(e)
    requires SERIALIZE_JSON in codec.serializers && RoundTrips(codec.serializers[SERIALIZE_JSON]) && Inflates(codec.zlib)
    modifies codec
    ensures out == [rec] && codec.buffer == []
  {
    CopiedRoundTrip(codec.serializers, codec.zlib, rec, SERIALIZE_JSON, true, e);
    assert codec.buffer + e == e;
    out := codec.Decode(e);
  }

  /**
   * The listener's side of what a publisher sends: each frame arrives as one message and
   * `_process_logs` passes it to `decode` on its own. Every call yields that frame's record
   * and leaves the buffer empty, so the records come out as they were sent.
   */
  method ReceiveFrames(codec: ProtocolCodec<Record>, rs: seq<Record>) returns (got: seq<Record>)
    requires codec.buffer == []
    requires SERIALIZE_JSON in codec.serializers && RoundTrips(codec.serializers[SERIALIZE_JSON]) && Inflates(codec.zlib)
    modifies codec
    ensures got == Sendable(codec.serializers, codec.zlib, rs) && codec.buffer == []
  {
    var reg, z := codec.serializers, codec.zlib;
    var fs := Frames(reg, z, rs);
    ghost var sendable := Sendable(reg, z, rs);
    FramesSendable(reg, z, rs);
    got := [];
    var i := 0;
    while i < |fs|
      invariant 0 <= i <= |fs| && codec.buffer == [] && |got| == i
      invariant forall k :: 0 <= k < i ==> got[k] == sendable[k]
    {
      var out := ReceiveFrame(codec, sendable[i], fs[i]);
      got := got + out;
      i := i + 1;
    }
  }

  /** `Logging2PynngProxyHandler`: forwards records, stamped with its id, to a publisher. */
  class ProxyHandler {
    const proxyId: string
    const level: int
    const publisher: Publisher

    constructor (proxyId: string, level: int, publisher: Publisher)
      ensures this.proxyId == proxyId && this.level == level && this.publisher == publisher
    {
      this.proxyId := proxyId;
      this.level := level;
      this.publisher := publisher;
    }

    /**
     * `handle`: the record gets the proxy id (`stamped` is the caller's record afterwards)
     * and the publisher emits it.
     */
    method Handle(format: Record -> string, rec: Record) returns (stamped: Record)
      modifies publisher
      ensures stamped == Stamp(rec, proxyId)
      ensures publisher.queue == old(publisher.queue) + [Msg(Prepare(format, stamped))]
      ensures publisher.running == old(publisher.running) && publisher.senderAlive == old(publisher.senderAlive)
      ensures publisher.sent == old(publisher.sent)
    {
      stamped := Stamp(rec, proxyId);
      publisher.Emit(format, stamped);
    }
  }

  /**
   * The process-wide registries: publishers and listeners by address, and each proxy id's
   * destination handlers.
   */
  class Transport {
    const handlers: ThreadSafeDict<string, Publisher>
    const listeners: ThreadSafeDict<string, Listener>
    const proxies: ThreadSafeDict<string, seq<Dest>>

    constructor ()
      ensures fresh(handlers) && fresh(listeners) && fresh(proxies)
      ensures handlers.data == map[] && listeners.data == map[] && proxies.data == map[]
    {
      handlers := new ThreadSafeDict();
      listeners := new ThreadSafeDict();
      proxies := new ThreadSafeDict();
    }

    /**
     * `PynngLoggingHandler.get_instance`: the publisher registered under the address, or a
     * new one, registered, when there is none.
     */
    method GetPublisher(host: string, port: nat) returns (p: Publisher)
      modifies handlers
      ensures var key := Address(host, port);
              key in old(handlers.data) ==> p == old(handlers.data)[key] && handlers.data == old(handlers.data)
      ensures var key := Address(host, port);
              key !in old(handlers.data) ==>
                && fresh(p) && p.address == key && p.running && p.senderAlive && p.queue == [] && p.sent == []
                && handlers.data == old(handlers.data)[key := p]
    {
      var key := Address(host, port);
      var created := new Publisher(host, port);
      // A handler object has neither `__bool__` nor `__len__`: it is always truthy.
      var truthy := (h: Publisher) => true;
      var r, called := handlers.ComputeIfAbsent(key, () => Some(created), truthy);
      p := r.value;
    }

    /** `PynngLoggingListener.get_instance`: as for publishers, in the listener registry. */
    method GetListener(host: string, port: nat) returns (l: Listener)
      modifies listeners
      ensures var key := Address(host, port);
              key in old(listeners.data) ==> l == old(listeners.data)[key] && listeners.data == old(listeners.data)
      ensures var key := Address(host, port);
              key !in old(listeners.data) ==>
                && fresh(l) && l.address == key && !l.running && !l.threadStarted
                && listeners.data == old(listeners.data)[key := l]
    {
      var key := Address(host, port);
      var created := new Listener(host, port);
      var truthy := (h: Listener) => true;
      var r, called := listeners.ComputeIfAbsent(key, () => Some(created), truthy);
      l := r.value;
    }

    /** Asking twice for the same address yields the same publisher. */
    method GetPublisherTwice(host: string, port: nat) returns (p1: Publisher, p2: Publisher)
      modifies handlers
      ensures p1 == p2 && Address(host, port) in handlers.data && handlers.data[Address(host, port)] == p1
    {
      p1 := GetPublisher(host, port);
      p2 := GetPublisher(host, port);
    }

    /**
     * `Logging2PynngProxyHandler.__init__`: the publisher for the address is looked up or
     * created, and a non-empty destination list is installed unless the id already has one.
     */
    method NewProxy(proxyId: string, level: int, host: string, port: nat, dests: seq<Dest>) returns (h: ProxyHandler)
      modifies handlers, proxies
      ensures fresh(h) && h.proxyId == proxyId && h.level == level
      ensures var key := Address(host, port);
              key in old(handlers.data) ==> h.publisher == old(handlers.data)[key] && handlers.data == old(handlers.data)
      ensures var key := Address(host, port);
              key !in old(handlers.data) ==>
                && fresh(h.publisher) && h.publisher.address == key && h.publisher.running && h.publisher.senderAlive
                && h.publisher.queue == [] && h.publisher.sent == []
                && handlers.data == old(handlers.data)[key := h.publisher]
      ensures dests == [] || proxyId in old(proxies.data) ==> proxies.data == old(proxies.data)
      ensures dests != [] && proxyId !in old(proxies.data) ==> proxies.data == old(proxies.data)[proxyId := dests]
    {
      var p := GetPublisher(host, port);
      h := new ProxyHandler(proxyId, level, p);
      if dests != [] {
        var installed := proxies.SetDefault(proxyId, dests);
      }
    }

    /** Two proxies built for the same address emit through one registered publisher. */
    method ProxiesShare(id1: string, id2: string, level: int, host: string, port: nat, d1: seq<Dest>, d2: seq<Dest>)
      returns (h1: ProxyHandler, h2: ProxyHandler)
      modifies handlers, proxies
      ensures h1 != h2 && h1.publisher == h2.publisher
      ensures Address(host, port) in handlers.data && handlers.data[Address(host, port)] == h1.publisher
    {
      h1 := NewProxy(id1, level, host, port, d1);
      h2 := NewProxy(id2, level, host, port, d2);
    }

    /**
     * The loop of `get_proxy` over the set of names: each is resolved through `named`
     * (`logging.getHandlerByName`); an unresolved one raises ValueError. `order` is the
     * order in which the set was walked.
     */
    method ResolveNames(names: set<string>, named: map<string, Dest>) returns (r: Result<seq<Dest>>, order: seq<string>)
      ensures r.Err? <==> !(names <= named.Keys)
      ensures r.Err? ==> r.error == ValueError
      ensures r.Ok? ==> |order| == |names| && |r.value| == |order|
      ensures r.Ok? ==> forall n :: n in order <==> n in names
      ensures r.Ok? ==> forall i, j :: 0 <= i < j < |order| ==> order[i] != order[j]
      ensures r.Ok? ==> forall i :: 0 <= i < |order| ==> order[i] in named && r.value[i] == named[order[i]]
    {
      var rest := names;
      var found: seq<Dest> := [];
      order := [];
      while rest != {}
        invariant rest <= names
        invariant forall n :: n in order <==> n in names && n !in rest
        invariant forall i, j :: 0 <= i < j < |order| ==> order[i] != order[j]
        invariant |order| + |rest| == |names| && |found| == |order|
        invariant forall i :: 0 <= i < |order| ==> order[i] in named && found[i] == named[order[i]]
        decreases |rest|
      {
        var n :| n in rest;
        if n !in named {
          return Err(ValueError), order;
        }
        found := found + [named[n]];
        order := order + [n];
        rest := rest - {n};
      }
      return Ok(found), order;
    }

    /**
     * `get_proxy`: with names, duplicates collapse, every name must resolve (ValueError
     * otherwise, and nothing is created), and the proxy is built with the resolved handlers;
     * without names, it is built with none.
     */
    method GetProxy(proxyId: string, names: seq<string>, named: map<string, Dest>, level: int, host: string, port: nat)
      returns (r: Result<ProxyHandler>, dests: seq<Dest>)
      modifies handlers, proxies
      ensures r.Err? <==> !((set n | n in names) <= named.Keys)
      ensures r.Err? ==> r.error == ValueError && handlers.data == old(handlers.data) && proxies.data == old(proxies.data)
      ensures r.Ok? ==> |dests| == |(set n | n in names)| && forall d :: d in dests <==> exists n :: n in names && n in named && named[n] == d
      ensures r.Ok? ==> fresh(r.value) && r.value.proxyId == proxyId && r.value.level == level
      ensures var key := Address(host, port);
              r.Ok? && key in old(handlers.data) ==>
                r.value.publisher == old(handlers.data)[key] && handlers.data == old(handlers.data)
      ensures var key := Address(host, port);
              r.Ok? && key !in old(handlers.data) ==>
                && fresh(r.value.publisher) && r.value.publisher.address == key && r.value.publisher.running
                && r.value.publisher.senderAlive && r.value.publisher.queue == [] && r.value.publisher.sent == []
                && handlers.data == old(handlers.data)[key := r.value.publisher]
      ensures r.Ok? && (dests == [] || proxyId in old(proxies.data)) ==> proxies.data == old(proxies.data)
      ensures r.Ok? && dests != [] && proxyId !in old(proxies.data) ==> proxies.data == old(proxies.data)[proxyId := dests]
    {
      dests := [];
      if names != [] {
        var resolved, order := ResolveNames((set n | n in names), named);
        if resolved.Err? {
          return Err(resolved.error), [];
        }
        dests := resolved.value;
        var nameSet := set n | n in names;
        forall d | d in dests
          ensures exists n :: n in names && n in named && named[n] == d
        {
          var i :| 0 <= i < |dests| && dests[i] == d;
          assert order[i] in nameSet;
        }
        forall n | n in names && n in named
          ensures named[n] in dests
        {
          assert n in nameSet;
          var i :| 0 <= i < |order| && order[i] == n;
          assert dests[i] == named[n];
        }
      }
      var h := NewProxy(proxyId, level, host, port, dests);
      r := Ok(h);
    }

    /**
     * One message through `_process_logs`: the codec decodes it and each record is routed by
     * `_handle` against the proxy registry, in order.
     */
    method Process(codec: ProtocolCodec<Record>, msg: seq<byte>, fails: Dest -> bool) returns (ds: seq<Dispatched>)
      modifies codec
      ensures var d := DecodeFrom(Copying(codec.serializers), codec.zlib, old(codec.buffer) + msg, 0);
              && codec.buffer == (old(codec.buffer) + msg)[d.offset..]
              && |ds| == |d.records|
              && forall i :: 0 <= i < |ds| ==> ds[i] == Dispatch(d.records[i], proxies.data, fails)
    {
      var records := codec.Decode(msg);
      ds := [];
      var i := 0;
      while i < |records|
        invariant 0 <= i <= |records| && |ds| == i
        invariant forall k :: 0 <= k < i ==> ds[k] == Dispatch(records[k], proxies.data, fails)
      {
        ds := ds + [Dispatch(records[i], proxies.data, fails)];
        i := i + 1;
      }
    }

    /** The first loop of `cleanup`: every registered publisher is stopped. */
    method StopPublishers()
      modifies set p | p in handlers.data.Values
      ensures forall p :: p in handlers.data.Values ==> p.StoppedFrom(old(p.running), old(p.senderAlive), old(p.queue), old(p.sent))
    {
      var pubs := handlers.data.Values;
      while pubs != {}
        invariant pubs <= handlers.data.Values
        invariant forall p :: p in handlers.data.Values && p !in pubs ==> p.StoppedFrom(old(p.running), old(p.senderAlive), old(p.queue), old(p.sent))
        invariant forall p :: p in pubs ==> unchanged(p)
        decreases |pubs|
      {
        var p :| p in pubs;
        p.Stop();
        pubs := pubs - {p};
      }
    }

    /** The second loop of `cleanup`: every registered listener is stopped. */
    method StopListeners()
      modifies set l | l in listeners.data.Values
      ensures forall l :: l in listeners.data.Values ==> !l.running && l.threadStarted == old(l.threadStarted)
    {
      var ls := listeners.data.Values;
      while ls != {}
        invariant ls <= listeners.data.Values
        invariant forall l :: l in listeners.data.Values && l !in ls ==> !l.running && l.threadStarted == old(l.threadStarted)
        invariant forall l :: l in ls ==> unchanged(l)
        decreases |ls|
      {
        var l :| l in ls;
        l.Stop();
        ls := ls - {l};
      }
    }

    /** `cleanup`: every registered publisher is stopped, then every registered listener. */
    method Cleanup()
      modifies set p | p in handlers.data.Values, set l | l in listeners.data.Values
      ensures forall p :: p in handlers.data.Values ==> p.StoppedFrom(old(p.running), old(p.senderAlive), old(p.queue), old(p.sent))
      ensures forall l :: l in listeners.data.Values ==> !l.running && l.threadStarted == old(l.threadStarted)
    {
      StopPublishers();
      StopListeners();
    }
  }
}
