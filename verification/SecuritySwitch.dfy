// Switching to encryption: networking/connection/security.go (CompleteSecurity) queues the
// completion packet and the activation in two steps, and pkg/http/websocket/reader.go opens
// messages before or after the writer has handled the activation.
module SecuritySwitch {
  import opened Wrappers
  import opened Octets
  import opened Frames
  import opened SecureStream
  import opened SocketWriter
  import Rc4

  // ---------------------------------------------------------------- reading a stream

  // A receiver gets given packets, and nothing else, exactly when the octets it opens are
  // their stream.
  lemma ReadsExactly(s: Rc4.State, fragments: seq<seq<Byte>>, packets: seq<Packet>)
    requires forall p :: p in packets ==> Fits(p)
    ensures ReceiveEach(s, [], fragments) == Decoded(packets, [], false)
            <==> Rc4.Apply(s, Concat(fragments)).1 == Stream(packets)
  {
    hide Rc4.Apply, Decode, Feed, OpenEach, ReceiveEach, Stream;
    ReceiveIsFeed(s, [], fragments);
    OpenedStream(s, fragments);
    FeedsExactly(OpenEach(s, fragments), packets);
  }

  lemma FeedsExactly(fragments: seq<seq<Byte>>, packets: seq<Packet>)
    requires forall p :: p in packets ==> Fits(p)
    ensures Feed([], fragments) == Decoded(packets, [], false) <==> Concat(fragments) == Stream(packets)
  {
    hide Decode, Feed;
    DecodeStream([]);
    AnyChunking([], fragments);
    assert [] + Concat(fragments) == Concat(fragments);
    DecodesExactly(Concat(fragments), packets);
  }

  // Plain octets in front of a sealed stream come out of the opening unchanged only where
  // the key octets are all zero.
  lemma PlainInFront(s: Rc4.State, plain: seq<Byte>, sealed: seq<Byte>, rest: seq<Byte>)
    requires Rc4.Apply(s, plain + sealed).1 == plain + rest
    ensures Rc4.Silent(s, |plain|)
  {
    hide Rc4.Apply, Rc4.Silent;
    Rc4.ApplyConcat(s, plain, sealed);
    var (mid, first) := Rc4.Apply(s, plain);
    assert (plain + rest)[..|plain|] == plain && (first + Rc4.Apply(mid, sealed).1)[..|plain|] == first;
    Rc4.UnchangedIsSilent(s, plain);
  }

  // ---------------------------------------------------------------- the client's switch

  // What a client reads in the clear, up to and including the completion packet, and the
  // octets it then opens.
  datatype Switch = Switch(packets: seq<Packet>, rest: seq<Byte>, found: bool)

  function PlainPart(header: Uint16, src: seq<Byte>): Switch {
    if !Complete(src) then Switch([], src, false)
    else
      var tail := src[LENGTH_SIZE + HeadSize(src)..];
      if Head(src).header == header then Switch([Head(src)], tail, true)
      else
        var more := PlainPart(header, tail);
        more.(packets := [Head(src)] + more.packets)
  }

  lemma {:induction false} SwitchesAt(plain: seq<Packet>, completion: Packet, tail: seq<Byte>)
    requires Fits(completion) && forall p :: p in plain ==> Fits(p) && p.header != completion.header
    ensures PlainPart(completion.header, Stream(plain) + Frame(completion) + tail)
            == Switch(plain + [completion], tail, true)
    decreases |plain|
  {
    hide Frame, Head, HeadSize, Complete;
    if plain == [] {
      assert [] + Frame(completion) + tail == Frame(completion) + tail;
      FrameHead(completion, tail);
    } else {
      var src := Stream(plain[1..]) + Frame(completion) + tail;
      assert Stream(plain) + Frame(completion) + tail == Frame(plain[0]) + src;
      FrameHead(plain[0], src);
      SwitchesAt(plain[1..], completion, tail);
      assert plain + [completion] == [plain[0]] + (plain[1..] + [completion]);
    }
  }

  lemma {:induction false} ConcatJoins(a: seq<seq<Byte>>, b: seq<seq<Byte>>)
    ensures Concat(a + b) == Concat(a) + Concat(b)
  {
    if a == [] {
      assert a + b == b;
    } else {
      assert (a + b)[1..] == a[1..] + b;
      ConcatJoins(a[1..], b);
    }
  }

  lemma {:induction false} SentJoins(a: seq<Item>, b: seq<Item>)
    requires Through(a) == |a|
    ensures Sent(a + b) == Sent(a) + Sent(b) && Through(a + b) == |a| + Through(b)
    decreases |a|
  {
    hide Delivered;
    if a == [] {
      assert a + b == b;
    } else {
      assert (a + b)[1..] == a[1..] + b;
      SentJoins(a[1..], b);
    }
  }

  // A connection whose channel has negotiated with server encryption, before activation.
  function Negotiated(key: seq<Byte>): Writer
    requires key != []
  {
    Writer(true, false, Some(Rc4.Initial(key)), true, [])
  }

  // The octets a client of such a connection gets: first everything up to the completion
  // packet in the clear; then, still in the clear, what was queued between it and the
  // activation; then what was queued after that, sealed.
  lemma OctetsSent(key: seq<Byte>, first: seq<Item>, completion: Packet, between: seq<Item>, after: seq<Item>)
    requires key != [] && NoActivation(first) && NoActivation(between) && Through(first) == |first| && Fits(completion)
    ensures var wire := Drain(Negotiated(key), first + [Send(completion, true)] + between + [Activate] + after).wire;
            Concat(wire) == Stream(Sent(first)) + Frame(completion)
              + (Stream(Sent(between)) + (if Through(between) == |between|
                                          then Rc4.Apply(Rc4.Initial(key), Stream(Sent(after))).1 else []))
  {
    hide Rc4.Initial, Rc4.Apply, Drain, Protected, Frame, Stream, Sent, Through, Fits, NoActivation, Framed, Concat;
    var plain := first + [Send(completion, true)] + between;
    PlainItems(first, completion, between);
    WireOctets(Negotiated(key), plain, after);
    SealedOctets(Rc4.Initial(key), Sent(after));
    StreamOfThree(Sent(first), completion, Sent(between));
    var sealed := if Through(between) == |between| then Rc4.Apply(Rc4.Initial(key), Stream(Sent(after))).1 else [];
    Regroup(Stream(Sent(first)) + Frame(completion), Stream(Sent(between)), sealed);
  }

  lemma Regroup(a: seq<Byte>, b: seq<Byte>, c: seq<Byte>)
    ensures a + b + c == a + (b + c)
  {
  }

  lemma WireOctets(w: Writer, before: seq<Item>, after: seq<Item>)
    requires w.running && w.prepared && !w.ready && w.wire == [] && NoActivation(before)
    ensures Concat(Drain(w, before + [Activate] + after).wire)
            == Stream(Sent(before))
               + (if Through(before) == |before| then Concat(Protected(w.stream, Sent(after))) else [])
  {
    hide Drain, Protected, Stream, Sent, Through, NoActivation, Framed;
    Barrier(w, before, after);
    var plain := Framed(Sent(before));
    var sealed := if Through(before) == |before| then Protected(w.stream, Sent(after)) else [];
    assert [] + plain == plain;
    ConcatJoins(plain, sealed);
    FramedStream(Sent(before));
  }

  lemma SealedOctets(s: Rc4.State, packets: seq<Packet>)
    ensures Concat(Protected(Some(s), packets)) == Rc4.Apply(s, Stream(packets)).1
  {
    hide Rc4.Apply, SealEach, Concat, Stream;
    SealedStream(s, packets);
  }

  lemma StreamOfThree(a: seq<Packet>, p: Packet, b: seq<Packet>)
    ensures Stream(a + [p] + b) == Stream(a) + Frame(p) + Stream(b)
  {
    hide Stream, Frame;
    StreamConcat(a + [p], b);
    StreamConcat(a, [p]);
    StreamOne(p);
  }

  lemma StreamOne(p: Packet)
    ensures Stream([p]) == Frame(p)
  {
    StreamFirst(p, []);
    assert Frame(p) + [] == Frame(p);
  }

  lemma PlainItems(first: seq<Item>, completion: Packet, between: seq<Item>)
    requires NoActivation(first) && NoActivation(between) && Through(first) == |first| && Fits(completion)
    ensures var plain := first + [Send(completion, true)] + between;
      && NoActivation(plain) && Sent(plain) == Sent(first) + [completion] + Sent(between)
      && (Through(plain) == |plain| <==> Through(between) == |between|)
  {
    hide Fits;
    var c := [Send(completion, true)];
    assert c[1..] == [];
    SentJoins(first, c);
    SentJoins(first + c, between);
  }

  // Everything that went out after the completion packet.
  function Following(between: seq<Item>, after: seq<Item>): (r: seq<Packet>)
    ensures forall p :: p in r ==> Fits(p)
  {
    Sent(between) + (if Through(between) == |between| then Sent(after) else [])
  }

  // A client that switches right behind the completion packet first reads everything up to
  // it; and then, however the rest is cut, everything that followed, when nothing was
  // written between the completion and the activation. That is the only way, unless the
  // first key octets happen to be zero for as long as what was written in between.
  lemma SwitchReadsAll(key: seq<Byte>, first: seq<Item>, completion: Packet, between: seq<Item>, after: seq<Item>,
                       fragments: seq<seq<Byte>>)
    requires key != [] && NoActivation(first) && NoActivation(between) && Through(first) == |first| && Fits(completion)
    requires forall p :: p in Sent(first) ==> p.header != completion.header
    requires var wire := Drain(Negotiated(key), first + [Send(completion, true)] + between + [Activate] + after).wire;
             Concat(fragments) == PlainPart(completion.header, Concat(wire)).rest
    ensures var wire := Drain(Negotiated(key), first + [Send(completion, true)] + between + [Activate] + after).wire;
            var read := PlainPart(completion.header, Concat(wire));
            read.found && read.packets == Sent(first) + [completion]
    ensures var received := ReceiveEach(Rc4.Initial(key), [], fragments);
            && (Sent(between) == [] ==> received == Decoded(Following(between, after), [], false))
            && (received == Decoded(Following(between, after), [], false) ==>
                  Rc4.Silent(Rc4.Initial(key), |Stream(Sent(between))|))
  {
    hide Rc4.Initial, Rc4.Apply, Rc4.Silent, Drain, ReceiveEach;
    hide Sent, Through, Stream, Frame, NoActivation, PlainPart, Concat;
    var s := Rc4.Initial(key);
    OctetsSent(key, first, completion, between, after);
    var plain := Stream(Sent(between));
    var sealed := if Through(between) == |between| then Rc4.Apply(s, Stream(Sent(after))).1 else [];
    SwitchesAt(Sent(first), completion, plain + sealed);
    ReadsExactly(s, fragments, Following(between, after));
    var rest := if Through(between) == |between| then Stream(Sent(after)) else [];
    FollowingStream(between, after);
    if Sent(between) == [] {
      SealedAlone(s, plain, sealed, Stream(Sent(after)), Through(between) == |between|);
    }
    if Rc4.Apply(s, plain + sealed).1 == plain + rest {
      PlainInFront(s, plain, sealed, rest);
    }
  }

  lemma SealedAlone(s: Rc4.State, plain: seq<Byte>, sealed: seq<Byte>, octets: seq<Byte>, reached: bool)
    requires plain == [] && sealed == (if reached then Rc4.Apply(s, octets).1 else [])
    ensures Rc4.Apply(s, plain + sealed).1 == plain + (if reached then octets else [])
  {
    hide Rc4.Apply;
    assert plain + sealed == sealed;
    Rc4.ApplyCancels(s, octets);
    Rc4.ApplyNone(s);
  }

  lemma FollowingStream(between: seq<Item>, after: seq<Item>)
    ensures Stream(Following(between, after))
            == Stream(Sent(between)) + (if Through(between) == |between| then Stream(Sent(after)) else [])
    ensures Sent(between) == [] ==> Stream(Sent(between)) == []
  {
    hide Sent, Through, Frame;
    StreamConcat(Sent(between), if Through(between) == |between| then Sent(after) else []);
  }

  // So with a key whose first six key octets, the length of the shortest frame, are not all
  // zero, the client reads everything exactly when nothing was written in between.
  lemma SwitchReadsAllExactly(key: seq<Byte>, first: seq<Item>, completion: Packet, between: seq<Item>,
                              after: seq<Item>, fragments: seq<seq<Byte>>)
    requires key != [] && NoActivation(first) && NoActivation(between) && Through(first) == |first| && Fits(completion)
    requires forall p :: p in Sent(first) ==> p.header != completion.header
    requires var wire := Drain(Negotiated(key), first + [Send(completion, true)] + between + [Activate] + after).wire;
             Concat(fragments) == PlainPart(completion.header, Concat(wire)).rest
    requires !Rc4.Silent(Rc4.Initial(key), FRAME_OVERHEAD)
    ensures ReceiveEach(Rc4.Initial(key), [], fragments) == Decoded(Following(between, after), [], false)
            <==> Sent(between) == []
  {
    hide Rc4.Initial, Rc4.Silent, Drain, ReceiveEach, Sent, Through, NoActivation, PlainPart, Concat, Following;
    SwitchReadsAll(key, first, completion, between, after, fragments);
    if Sent(between) != [] {
      FrameLength(Sent(between));
      if Rc4.Silent(Rc4.Initial(key), |Stream(Sent(between))|) {
        Rc4.SilentSooner(Rc4.Initial(key), FRAME_OVERHEAD, |Stream(Sent(between))|);
      }
    }
  }

  lemma FrameLength(packets: seq<Packet>)
    requires packets != []
    ensures |Stream(packets)| >= FRAME_OVERHEAD
  {
    assert |Frame(packets[0])| >= FRAME_OVERHEAD;
  }

  // ---------------------------------------------------------------- the reader's switch

  // receive with session.Open: messages that come before the writer has handled the
  // activation are not opened.
  function ReceiveAround(s: Rc4.State, early: seq<seq<Byte>>, late: seq<seq<Byte>>): Decoded {
    Feed([], early + OpenEach(s, late))
  }

  // The client may already have the completion packet while the channel is not ready.
  lemma CompletionOutFirst(key: seq<Byte>, first: seq<Item>, completion: Packet)
    requires key != [] && NoActivation(first) && Through(first) == |first| && Fits(completion)
    ensures var w := Drain(Negotiated(key), first + [Send(completion, true)]);
            w.running && !w.ready && w.wire == Framed(Sent(first) + [completion])
  {
    hide Rc4.Initial, Drain, Sent, Through, Framed, Fits, NoActivation;
    NothingSent();
    PlainItems(first, completion, []);
    var plain := first + [Send(completion, true)];
    assert plain + [] == plain && Sent(first) + [completion] + [] == Sent(first) + [completion];
    DrainPlain(Negotiated(key), plain);
    assert [] + Framed(Sent(plain)) == Framed(Sent(plain));
  }

  lemma NothingSent()
    ensures Sent([]) == [] && Through([]) == 0 && NoActivation([])
  {
  }

  // The server then reads what the client seals from there on exactly when everything comes
  // after the activation was handled, unless the key octets happen to be zero for as long
  // as what came before.
  lemma ReaderReadsAll(key: seq<Byte>, packets: seq<Packet>, early: seq<seq<Byte>>, late: seq<seq<Byte>>)
    requires key != [] && forall p :: p in packets ==> Fits(p)
    requires Concat(early) + Concat(late) == Rc4.Apply(Rc4.Initial(key), Stream(packets)).1
    ensures Concat(early) == [] ==> ReceiveAround(Rc4.Initial(key), early, late) == Decoded(packets, [], false)
    ensures ReceiveAround(Rc4.Initial(key), early, late) == Decoded(packets, [], false) ==>
              Rc4.Silent(Rc4.Initial(key), |Concat(early)|)
  {
    hide Rc4.Initial, Rc4.Apply, Rc4.Silent, Stream, Feed, OpenEach, Concat;
    var s, sent := Rc4.Initial(key), Stream(packets);
    var a, b := Concat(early), Concat(late);
    ConcatJoins(early, OpenEach(s, late));
    OpenedStream(s, late);
    FeedsExactly(early + OpenEach(s, late), packets);
    if a == [] {
      assert a + b == b && a + Rc4.Apply(s, b).1 == Rc4.Apply(s, b).1;
      Rc4.ApplyCancels(s, sent);
    }
    if a + Rc4.Apply(s, b).1 == sent {
      EarlyUnchanged(s, a, b, sent);
    }
  }

  lemma EarlyUnchanged(s: Rc4.State, early: seq<Byte>, late: seq<Byte>, sent: seq<Byte>)
    requires early + late == Rc4.Apply(s, sent).1 && early + Rc4.Apply(s, late).1 == sent
    ensures Rc4.Silent(s, |early|)
  {
    hide Rc4.Apply, Rc4.Silent;
    Rc4.ApplyConcat(s, early, Rc4.Apply(s, late).1);
    var (mid, first) := Rc4.Apply(s, early);
    var second := Rc4.Apply(mid, Rc4.Apply(s, late).1).1;
    assert (early + late)[..|early|] == early && (first + second)[..|early|] == first;
    Rc4.UnchangedIsSilent(s, early);
  }

  // So with a key whose key octets are not all zero over what came early, exactly then.
  lemma ReaderReadsAllExactly(key: seq<Byte>, packets: seq<Packet>, early: seq<seq<Byte>>, late: seq<seq<Byte>>)
    requires key != [] && forall p :: p in packets ==> Fits(p)
    requires Concat(early) + Concat(late) == Rc4.Apply(Rc4.Initial(key), Stream(packets)).1
    requires Concat(early) != [] ==> !Rc4.Silent(Rc4.Initial(key), |Concat(early)|)
    ensures ReceiveAround(Rc4.Initial(key), early, late) == Decoded(packets, [], false) <==> Concat(early) == []
  {
    ReaderReadsAll(key, packets, early, late);
  }
}
