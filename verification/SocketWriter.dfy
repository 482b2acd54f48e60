// pkg/http/websocket/writer.go and session.go: the bounded write queue and the activation
// barrier that decides where sealing starts.
module SocketWriter {
  import opened Wrappers
  import opened Octets
  import opened Frames
  import opened SecureStream
  import Rc4

  // One queued operation, with the outcome the transport will give its write.
  datatype Item = Send(packet: Packet, delivered: bool) | Activate | Close

  datatype Error = Disposed | Cancelled | QueueFull

  // The writer goroutine's world. prepared: the channel has negotiated and holds its
  // ciphers; ready: it has been activated; stream: the outbound cipher, when server
  // encryption is on.
  datatype Writer = Writer(prepared: bool, ready: bool, stream: Option<Rc4.State>, running: bool, wire: seq<seq<Byte>>)

  function Written(w: Writer, bytes: seq<Byte>): Writer {
    w.(wire := w.wire + [bytes])
  }

  // handleWrite. Any failure finishes the socket, and so does a close.
  function Handle(w: Writer, item: Item): Writer {
    if !w.running then w
    else
      match item
      case Send(p, delivered) =>
        if !Fits(p) then w.(running := false)
        else if !w.ready || w.stream.None? then
          (if delivered then Written(w, Frame(p)) else w.(running := false))
        else
          var (next, sealed) := Rc4.Apply(w.stream.value, Frame(p));
          var sealing := w.(stream := Some(next));
          if delivered then Written(sealing, sealed) else sealing.(running := false)
      case Activate => if w.prepared && !w.ready then w.(ready := true) else w.(running := false)
      case Close => w.(running := false)
  }

  function Drain(w: Writer, items: seq<Item>): Writer
    decreases |items|
  {
    if items == [] then w else Drain(Handle(w, items[0]), items[1..])
  }

  lemma {:induction false} DrainConcat(w: Writer, a: seq<Item>, b: seq<Item>)
    ensures Drain(w, a + b) == Drain(Drain(w, a), b)
    decreases |a|
  {
    if a == [] {
      assert a + b == b;
    } else {
      DrainConcat(Handle(w, a[0]), a[1..], b);
      assert (a + b)[0] == a[0] && (a + b)[1..] == a[1..] + b;
    }
  }

  // ---------------------------------------------------------------- the queue

  class Socket {
    const capacity: nat
    var queue: seq<Item>
    var closed: bool
    var finished: bool  // finish was called from outside the writer
    var writer: Writer
    ghost const start: Writer
    ghost var accepted: seq<Item>

    // First in, first out, at every moment: what has been written and what is still
    // queued together amount to everything ever accepted, in the order of acceptance. A
    // socket finished from outside keeps what it has written of that.
    ghost predicate Valid()
      reads this
    {
      && |queue| <= capacity
      && (if finished then !writer.running && writer.wire <= Drain(start, accepted).wire
          else Drain(writer, queue) == Drain(start, accepted))
    }

    constructor (capacity: nat, writer: Writer)
      ensures Valid() && queue == [] && !closed && !finished && start == writer && accepted == []
      ensures this.capacity == capacity && this.writer == writer
    {
      this.capacity, this.writer, this.start := capacity, writer, writer;
      queue, closed, finished, accepted := [], false, false, [];
    }

    // send and activate: never block. picked says that select took the cancelled context.
    method Enqueue(item: Item, picked: bool) returns (err: Option<Error>)
      requires Valid() && !item.Close?
      modifies this`queue, this`accepted
      ensures Valid()
      ensures closed ==> err == Some(Disposed)
      ensures !closed && picked ==> err == Some(Cancelled)
      ensures !closed && !picked ==> (err == if |old(queue)| < capacity then None else Some(QueueFull))
      ensures if err == None then queue == old(queue) + [item] && accepted == old(accepted) + [item]
              else queue == old(queue) && accepted == old(accepted)
    {
      if closed {
        return Some(Disposed);
      }
      if picked {
        return Some(Cancelled);
      }
      if |queue| == capacity {
        return Some(QueueFull);
      }
      Accept(item);
      err := None;
    }

    method Accept(item: Item)
      requires Valid() && |queue| < capacity
      modifies this`queue, this`accepted
      ensures Valid() && queue == old(queue) + [item] && accepted == old(accepted) + [item]
    {
      DrainConcat(writer, queue, [item]);
      DrainConcat(start, accepted, [item]);
      WireGrows(Drain(start, accepted), [item]);
      queue := queue + [item];
      accepted := accepted + [item];
    }

    // dispose: only the first caller goes on to queue the farewell.
    method StartDispose() returns (first: bool)
      requires Valid()
      modifies this`closed
      ensures Valid() && closed && (first <==> !old(closed))
    {
      first := !closed;
      closed := true;
    }

    // enqueueBestEffort: waits for room, and finishes the socket when the context or the
    // grace period ends first.
    method EnqueueFarewell(item: Item, gaveUp: bool) returns (queued: bool)
      requires Valid()
      modifies this`queue, this`accepted, this`writer, this`finished
      ensures Valid() && (queued <==> |old(queue)| < capacity && !gaveUp)
      ensures queued ==> queue == old(queue) + [item] && accepted == old(accepted) + [item]
                         && writer == old(writer) && finished == old(finished)
      ensures !queued ==> queue == old(queue) && accepted == old(accepted) && finished
                          && writer == old(writer).(running := false)
    {
      queued := |queue| < capacity && !gaveUp;
      if queued {
        Accept(item);
      } else {
        Finish();
      }
    }

    // finish: the connection is closed, so nothing is written any more.
    method Finish()
      requires Valid()
      modifies this`writer, this`finished
      ensures Valid() && finished && writer == old(writer).(running := false)
    {
      WireGrows(writer, queue);
      writer := writer.(running := false);
      finished := true;
    }

    // writeLoop: one item off the queue.
    method WriteNext()
      requires Valid() && queue != []
      modifies this`queue, this`writer
      ensures Valid() && queue == old(queue)[1..] && writer == Handle(old(writer), old(queue)[0])
    {
      writer := Handle(writer, queue[0]);
      queue := queue[1..];
    }
  }

  // Handling items only ever adds to the wire.
  lemma {:induction false} WireGrows(w: Writer, items: seq<Item>)
    ensures w.wire <= Drain(w, items).wire
    decreases |items|
  {
    hide Rc4.Apply, Frame, Fits;
    if items != [] {
      WireGrows(Handle(w, items[0]), items[1..]);
    }
  }

  // ---------------------------------------------------------------- the barrier

  // The packet of this item gets onto the wire of a running writer.
  predicate Delivered(item: Item) {
    item.Send? && item.delivered && Fits(item.packet)
  }

  // How many items are handled before the first that ends the writer.
  function Through(items: seq<Item>): (n: nat)
    ensures n <= |items|
  {
    if items == [] || !Delivered(items[0]) then 0 else 1 + Through(items[1..])
  }

  // The packets that get onto the wire.
  function Sent(items: seq<Item>): (r: seq<Packet>)
    ensures |r| == Through(items)
    ensures forall p :: p in r ==> Fits(p)
  {
    if items == [] || !Delivered(items[0]) then [] else [items[0].packet] + Sent(items[1..])
  }

  // They are those of the longest prefix in which every item is delivered.
  lemma {:induction false} SentPrefix(items: seq<Item>)
    ensures forall i :: 0 <= i < Through(items) ==> Delivered(items[i]) && Sent(items)[i] == items[i].packet
    ensures Through(items) < |items| ==> !Delivered(items[Through(items)])
  {
    if items != [] && Delivered(items[0]) {
      SentPrefix(items[1..]);
      assert forall i :: 1 <= i < |items| ==> items[i] == items[1..][i - 1];
    }
  }

  predicate NoActivation(items: seq<Item>) {
    forall i :: 0 <= i < |items| ==> !items[i].Activate?
  }

  function Framed(packets: seq<Packet>): seq<seq<Byte>> {
    seq(|packets|, i requires 0 <= i < |packets| => Frame(packets[i]))
  }

  lemma DrainStopped(w: Writer, items: seq<Item>)
    requires !w.running
    ensures Drain(w, items) == w
    decreases |items|
  {
  }

  // Any queue without an activation goes out in the clear up to its first failure or close.
  lemma {:induction false} DrainPlain(w: Writer, items: seq<Item>)
    requires w.running && (!w.ready || w.stream.None?)
    requires w.ready || NoActivation(items)
    ensures Drain(w, items) == w.(wire := w.wire + Framed(Sent(items)), running := Through(items) == |items|)
    decreases |items|
  {
    hide Frame, Fits;
    if items == [] {
      assert w.wire + Framed([]) == w.wire;
    } else if Delivered(items[0]) {
      var tail, frame := items[1..], Frame(items[0].packet);
      DrainPlain(Written(w, frame), tail);
      assert Framed(Sent(items)) == [frame] + Framed(Sent(tail));
      assert (w.wire + [frame]) + Framed(Sent(tail)) == w.wire + Framed(Sent(items));
    } else {
      DrainStopped(Handle(w, items[0]), items[1..]);
      assert w.wire + Framed([]) == w.wire;
    }
  }

  // Any queue handled by an activated, encrypting writer goes out sealed as one stream.
  lemma {:induction false} DrainSealed(w: Writer, items: seq<Item>)
    requires w.running && w.ready && w.stream.Some?
    ensures Drain(w, items).wire == w.wire + SealEach(w.stream.value, Sent(items)).1
    ensures Drain(w, items).running == (Through(items) == |items|)
    decreases |items|
  {
    hide Rc4.Apply, Frame, Fits;
    if items == [] {
      assert w.wire + [] == w.wire;
    } else if Delivered(items[0]) {
      var tail := items[1..];
      var (next, first) := Rc4.Apply(w.stream.value, Frame(items[0].packet));
      DrainSealed(Written(w.(stream := Some(next)), first), tail);
      SealFirst(w.stream.value, items[0].packet, Sent(tail));
      var rest := SealEach(next, Sent(tail)).1;
      assert (w.wire + [first]) + rest == w.wire + ([first] + rest);
    } else {
      DrainStopped(Handle(w, items[0]), items[1..]);
      assert w.wire + [] == w.wire;
    }
  }

  lemma SealFirst(s: Rc4.State, p: Packet, rest: seq<Packet>)
    ensures var (next, first) := Rc4.Apply(s, Frame(p));
      SealEach(s, [p] + rest).1 == [first] + SealEach(next, rest).1
  {
    hide Rc4.Apply, Frame;
    assert ([p] + rest)[1..] == rest;
  }

  // How a writer that has been activated puts packets onto the wire.
  function Protected(stream: Option<Rc4.State>, packets: seq<Packet>): seq<seq<Byte>> {
    if stream.Some? then SealEach(stream.value, packets).1 else Framed(packets)
  }

  // Whatever is queued around the first activation, and whichever writes fail: what comes
  // before it goes out in the clear up to the first failure or close; if there is none and
  // the channel is ready for activation, what comes after it goes out sealed as one stream
  // when server encryption is on, again up to the first failure, close or second activation;
  // otherwise nothing goes out after it.
  lemma Barrier(w: Writer, before: seq<Item>, after: seq<Item>)
    requires w.running && !w.ready && NoActivation(before)
    ensures Drain(w, before + [Activate] + after).wire
            == w.wire + Framed(Sent(before))
               + (if Through(before) == |before| && w.prepared then Protected(w.stream, Sent(after)) else [])
    ensures Drain(w, before + [Activate] + after).running
            <==> Through(before) == |before| && w.prepared && Through(after) == |after|
  {
    hide Drain, Handle, Protected, Sent, Through, Framed, NoActivation;
    DrainConcat(w, before + [Activate], after);
    DrainConcat(w, before, [Activate]);
    DrainPlain(w, before);
    var plain := Drain(w, before);
    DrainOne(plain, Activate);
    ActivationHandled(plain);
    var ready := Handle(plain, Activate);
    if ready.running {
      DrainProtected(ready, after);
    } else {
      DrainStopped(ready, after);
      assert plain.wire + [] == plain.wire;
    }
  }

  lemma ActivationHandled(w: Writer)
    requires !w.ready
    ensures Handle(w, Activate) == if w.running && w.prepared then w.(ready := true) else w.(running := false)
  {
  }

  lemma DrainProtected(w: Writer, items: seq<Item>)
    requires w.running && w.ready
    ensures Drain(w, items).wire == w.wire + Protected(w.stream, Sent(items))
    ensures Drain(w, items).running == (Through(items) == |items|)
  {
    hide Drain, SealEach, Sent, Through, Framed;
    if w.stream.Some? {
      DrainSealed(w, items);
    } else {
      DrainPlain(w, items);
    }
  }

  lemma DrainOne(w: Writer, item: Item)
    ensures Drain(w, [item]) == Handle(w, item)
  {
    assert [item][1..] == [];
  }

  // At every moment of a socket that started unactivated, the wire holds the beginning of
  // what the barrier makes of everything accepted so far.
  lemma WireFollowsBarrier(socket: Socket, before: seq<Item>, after: seq<Item>)
    requires socket.Valid() && socket.accepted == before + [Activate] + after
    requires socket.start.running && !socket.start.ready && socket.start.wire == [] && NoActivation(before)
    ensures socket.writer.wire
            <= Framed(Sent(before))
               + (if Through(before) == |before| && socket.start.prepared
                  then Protected(socket.start.stream, Sent(after)) else [])
  {
    hide Drain, Sent, Through, Framed, NoActivation, Protected;
    Barrier(socket.start, before, after);
    FromNothing(Framed(Sent(before)));
    WrittenSoFar(socket);
  }

  lemma WrittenSoFar(socket: Socket)
    requires socket.Valid()
    ensures socket.writer.wire <= Drain(socket.start, socket.accepted).wire
  {
    WireGrows(socket.writer, socket.queue);
  }

  lemma FromNothing(wire: seq<seq<Byte>>)
    ensures [] + wire == wire
  {
  }

  lemma {:induction false} FramedStream(packets: seq<Packet>)
    ensures Concat(Framed(packets)) == Stream(packets)
    decreases |packets|
  {
    if packets != [] {
      FramedStream(packets[1..]);
      assert Framed(packets)[1..] == Framed(packets[1..]);
    }
  }
}
