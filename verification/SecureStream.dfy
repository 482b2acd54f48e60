// The wire end to end: frames sealed packet by packet, cut anywhere by the transport,
// opened and decoded incrementally (pkg/http/websocket/writer.go and reader.go over
// networking/codec and the RC4 streams).
module SecureStream {
  import opened Octets
  import opened Frames
  import Rc4

  // writePacket seals one frame at a time.
  function SealEach(s: Rc4.State, packets: seq<Packet>): (r: (Rc4.State, seq<seq<Byte>>))
    ensures |r.1| == |packets|
    decreases |packets|
  {
    if packets == [] then (s, [])
    else
      var (mid, first) := Rc4.Apply(s, Frame(packets[0]));
      var (end, rest) := SealEach(mid, packets[1..]);
      (end, [first] + rest)
  }

  // receive opens each fragment and feeds it to the decoder.
  function ReceiveEach(s: Rc4.State, buffer: seq<Byte>, fragments: seq<seq<Byte>>): Decoded
    decreases |fragments|
  {
    if fragments == [] then Decoded([], buffer, false)
    else
      var (next, plain) := Rc4.Apply(s, fragments[0]);
      var d := Decode(buffer + plain);
      if d.failed then Decoded([], buffer + plain, true)
      else
        var more := ReceiveEach(next, d.rest, fragments[1..]);
        more.(packets := d.packets + more.packets)
  }

  // Sealing frame by frame is sealing the whole stream.
  lemma {:induction false} SealedStream(s: Rc4.State, packets: seq<Packet>)
    ensures (SealEach(s, packets).0, Concat(SealEach(s, packets).1)) == Rc4.Apply(s, Stream(packets))
    decreases |packets|
  {
    if packets == [] {
      Rc4.ApplyNone(s);
    } else {
      var (mid, first) := Rc4.Apply(s, Frame(packets[0]));
      SealedStream(mid, packets[1..]);
      Rc4.ApplyConcat(s, Frame(packets[0]), Stream(packets[1..]));
      hide Rc4.Apply, Frame;
      var rest := SealEach(mid, packets[1..]).1;
      assert ([first] + rest)[1..] == rest;
    }
  }

  function OpenEach(s: Rc4.State, fragments: seq<seq<Byte>>): seq<seq<Byte>>
    decreases |fragments|
  {
    if fragments == [] then []
    else
      var (next, plain) := Rc4.Apply(s, fragments[0]);
      [plain] + OpenEach(next, fragments[1..])
  }

  lemma {:induction false} OpenedStream(s: Rc4.State, fragments: seq<seq<Byte>>)
    ensures Concat(OpenEach(s, fragments)) == Rc4.Apply(s, Concat(fragments)).1
    decreases |fragments|
  {
    if fragments == [] {
    } else {
      var (next, plain) := Rc4.Apply(s, fragments[0]);
      OpenedStream(next, fragments[1..]);
      Rc4.ApplyConcat(s, fragments[0], Concat(fragments[1..]));
      hide Rc4.Apply;
      assert ([plain] + OpenEach(next, fragments[1..]))[1..] == OpenEach(next, fragments[1..]);
    }
  }

  lemma {:induction false} ReceiveIsFeed(s: Rc4.State, buffer: seq<Byte>, fragments: seq<seq<Byte>>)
    ensures ReceiveEach(s, buffer, fragments) == Feed(buffer, OpenEach(s, fragments))
    decreases |fragments|
  {
    if fragments == [] {
    } else {
      var (next, plain) := Rc4.Apply(s, fragments[0]);
      var opened' := OpenEach(next, fragments[1..]);
      assert ([plain] + opened')[1..] == opened';
      ReceiveIsFeed(next, Decode(buffer + plain).rest, fragments[1..]);
    }
  }

  // Whatever the fragments, the receiver gets exactly the packets that were sent, in
  // order, and is left with an empty buffer.
  lemma EndToEnd(key: seq<Byte>, packets: seq<Packet>, fragments: seq<seq<Byte>>)
    requires key != [] && forall p :: p in packets ==> Fits(p)
    requires Concat(fragments) == Concat(SealEach(Rc4.Initial(key), packets).1)
    ensures ReceiveEach(Rc4.Initial(key), [], fragments) == Decoded(packets, [], false)
  {
    hide Rc4.Apply, Rc4.Initial, Decode, SealEach, OpenEach, Feed;
    var s := Rc4.Initial(key);
    SealedStream(s, packets);
    ReceiveIsFeed(s, [], fragments);
    OpenedStream(s, fragments);
    Rc4.ApplyCancels(s, Stream(packets));
    DecodeStream([]);
    DecodeStream(packets);
    AnyChunking([], OpenEach(s, fragments));
    assert [] + Stream(packets) == Stream(packets);
  }
}
