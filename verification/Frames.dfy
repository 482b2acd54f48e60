// networking/codec/frame.go: length-prefixed frames and their incremental decoding.
module Frames {
  import opened Wrappers
  import opened Octets

  const HEADER_SIZE := 2
  const LENGTH_SIZE := 4
  const FRAME_OVERHEAD := LENGTH_SIZE + HEADER_SIZE

  type Uint16 = n: int | 0 <= n < 0x1_0000

  datatype Packet = Packet(header: Uint16, payload: seq<Byte>)

  datatype FrameError = PayloadTooLarge | FrameTooSmall

  function Size(p: Packet): nat {
    HEADER_SIZE + |p.payload|
  }

  // The frame length prefix holds the size on 32 bits.
  predicate Fits(p: Packet) {
    Size(p) <= 0xFFFF_FFFF
  }

  function Frame(p: Packet): seq<Byte> {
    Fixed(LENGTH_SIZE, Size(p)) + Fixed(HEADER_SIZE, p.header) + p.payload
  }

  // The size of header and payload on four octets, the header on two, then the payload.
  lemma FrameLaid(p: Packet)
    requires |p.payload| + 2 < 0x1_0000_0000
    ensures Fits(p) && |Frame(p)| == 6 + |p.payload|
    ensures Value(Frame(p)[..4]) == 2 + |p.payload|
    ensures Value(Frame(p)[4..6]) == p.header
    ensures Frame(p)[6..] == p.payload
  {
    hide Power256, Fixed;
    FrameWidths();
    ValueOfFixed(4, Size(p));
    ValueOfFixed(2, p.header);
    assert Frame(p)[..4] == Fixed(4, Size(p)) && Frame(p)[4..6] == Fixed(2, p.header);
  }

  lemma FrameWidths()
    ensures Power256(2) == 0x1_0000 && Power256(4) == 0x1_0000_0000
  {
  }

  method AppendFrame(dst: seq<Byte>, p: Packet) returns (out: seq<Byte>, err: Option<FrameError>)
    ensures if Fits(p) then err == None && out == dst + Frame(p) else err == Some(PayloadTooLarge) && out == dst
  {
    var size := Size(p);
    if size > 0xFFFF_FFFF {
      return dst, Some(PayloadTooLarge);
    }
    var offset := |dst|;
    out := dst + Zeros(FRAME_OVERHEAD);
    out := out[..offset] + Fixed(LENGTH_SIZE, size) + out[offset + LENGTH_SIZE..];
    out := out[..offset + LENGTH_SIZE] + Fixed(HEADER_SIZE, p.header) + out[offset + FRAME_OVERHEAD..];
    out := out + p.payload;
    assert out == dst + Frame(p);
    err := None;
  }

  function Stream(packets: seq<Packet>): seq<Byte> {
    if packets == [] then [] else Frame(packets[0]) + Stream(packets[1..])
  }

  // ---------------------------------------------------------------- decoding

  datatype Decoded = Decoded(packets: seq<Packet>, rest: seq<Byte>, failed: bool)

  // The packet at the head of src, when its frame is complete.
  function HeadSize(src: seq<Byte>): nat
    requires |src| >= LENGTH_SIZE
  {
    Value(src[..LENGTH_SIZE])
  }

  predicate Complete(src: seq<Byte>) {
    |src| >= LENGTH_SIZE && HeadSize(src) >= HEADER_SIZE && |src| >= LENGTH_SIZE + HeadSize(src)
  }

  lemma HeaderRange(octets: seq<Byte>)
    requires |octets| == HEADER_SIZE
    ensures Value(octets) < 0x1_0000
  {
    ValueBelow(octets);
    assert Power256(2) == 0x1_0000;
  }

  function Head(src: seq<Byte>): Packet
    requires Complete(src)
  {
    var frame := src[LENGTH_SIZE..LENGTH_SIZE + HeadSize(src)];
    HeaderRange(frame[..HEADER_SIZE]);
    Packet(Value(frame[..HEADER_SIZE]), frame[HEADER_SIZE..])
  }

  function Decode(src: seq<Byte>): Decoded {
    if |src| < LENGTH_SIZE then Decoded([], src, false)
    else if HeadSize(src) < HEADER_SIZE then Decoded([], src, true)
    else if |src| < LENGTH_SIZE + HeadSize(src) then Decoded([], src, false)
    else
      var more := Decode(src[LENGTH_SIZE + HeadSize(src)..]);
      more.(packets := [Head(src)] + more.packets)
  }

  method DecodeFrames(dst: seq<Packet>, src: seq<Byte>) returns (packets: seq<Packet>, rest: seq<Byte>, failed: bool)
    ensures var d := Decode(src); packets == dst + d.packets && rest == d.rest && failed == d.failed
  {
    hide Decode, Head, HeadSize;
    packets, rest := dst, src;
    while |rest| >= LENGTH_SIZE
      invariant dst + Decode(src).packets == packets + Decode(rest).packets
      invariant Decode(src).rest == Decode(rest).rest && Decode(src).failed == Decode(rest).failed
      decreases |rest|
    {
      var size := HeadSize(rest);
      if size < HEADER_SIZE {
        DecodeIncomplete(rest);
        return packets, rest, true;
      }
      var end := LENGTH_SIZE + size;
      if |rest| < end {
        DecodeIncomplete(rest);
        return packets, rest, false;
      }
      DecodeHead(rest);
      ghost var more := Decode(rest[end..]).packets;
      assert packets + ([Head(rest)] + more) == packets + [Head(rest)] + more;
      packets := packets + [Head(rest)];
      rest := rest[end..];
    }
    DecodeIncomplete(rest);
    failed := false;
  }

  lemma DecodeIncomplete(src: seq<Byte>)
    requires !Complete(src)
    ensures Decode(src) == Decoded([], src, |src| >= LENGTH_SIZE && HeadSize(src) < HEADER_SIZE)
  {
  }

  // ---------------------------------------------------------------- laws

  lemma FrameHead(p: Packet, tail: seq<Byte>)
    requires Fits(p)
    ensures var src := Frame(p) + tail;
      && Complete(src) && Head(src) == p && src[LENGTH_SIZE + HeadSize(src)..] == tail
  {
    var src := Frame(p) + tail;
    assert Power256(4) == 0x1_0000_0000 by { assert Power256(2) == 0x1_0000; }
    assert src[..LENGTH_SIZE] == Fixed(LENGTH_SIZE, Size(p));
    ValueOfFixed(LENGTH_SIZE, Size(p));
    assert Power256(2) == 0x1_0000;
    ValueOfFixed(HEADER_SIZE, p.header);
    var frame := src[LENGTH_SIZE..LENGTH_SIZE + Size(p)];
    assert frame == Fixed(HEADER_SIZE, p.header) + p.payload;
    assert frame[..HEADER_SIZE] == Fixed(HEADER_SIZE, p.header);
    assert frame[HEADER_SIZE..] == p.payload;
  }

  // Encoding then decoding gives back the packets and leaves nothing over.
  lemma {:induction false} DecodeStream(packets: seq<Packet>)
    requires forall p :: p in packets ==> Fits(p)
    ensures Decode(Stream(packets)) == Decoded(packets, [], false)
  {
    if packets == [] {
    } else {
      FrameHead(packets[0], Stream(packets[1..]));
      DecodeStream(packets[1..]);
      assert packets == [packets[0]] + packets[1..];
    }
  }

  // Decoding a longer input is decoding its first part and then the rest of it together
  // with what follows; a malformed frame stays malformed.
  lemma {:induction false} DecodeConcat(a: seq<Byte>, b: seq<Byte>)
    ensures Decode(a + b) == Resumed(Decode(a), b)
    decreases |a|
  {
    hide Decode, Complete, Head, HeadSize, Resumed;
    if Complete(a) {
      CompleteFits(a);
      var tail := a[LENGTH_SIZE + HeadSize(a)..];
      ConcatComplete(a, b);
      DecodeConcat(tail, b);
      DecodeHead(a);
      DecodeHead(a + b);
      ResumedBehind(Head(a), Decode(tail), b);
    } else {
      ConcatMalformed(a, b);
      ResumedAtStart(a, b);
    }
  }

  // Decoding goes on with b where it stopped.
  function Resumed(first: Decoded, b: seq<Byte>): Decoded {
    if first.failed then Decoded(first.packets, first.rest + b, true)
    else
      var second := Decode(first.rest + b);
      Decoded(first.packets + second.packets, second.rest, second.failed)
  }

  lemma ResumedBehind(head: Packet, first: Decoded, b: seq<Byte>)
    ensures var r := Resumed(first, b);
      Resumed(first.(packets := [head] + first.packets), b) == r.(packets := [head] + r.packets)
  {
    hide Decode;
    assert [head] + first.packets + Decode(first.rest + b).packets
        == [head] + (first.packets + Decode(first.rest + b).packets);
  }

  lemma ResumedAtStart(a: seq<Byte>, b: seq<Byte>)
    requires Decode(a).packets == [] && Decode(a).rest == a
    requires Decode(a).failed ==> Decode(a + b) == Decoded([], a + b, true)
    ensures Decode(a + b) == Resumed(Decode(a), b)
  {
    hide Decode;
    assert [] + Decode(a + b).packets == Decode(a + b).packets;
  }

  lemma CompleteFits(src: seq<Byte>)
    requires Complete(src)
    ensures LENGTH_SIZE <= LENGTH_SIZE + HeadSize(src) <= |src|
  {
  }

  lemma DecodeHead(src: seq<Byte>)
    requires Complete(src) && LENGTH_SIZE + HeadSize(src) <= |src|
    ensures var more := Decode(src[LENGTH_SIZE + HeadSize(src)..]);
      Decode(src) == more.(packets := [Head(src)] + more.packets)
  {
  }

  lemma ConcatComplete(a: seq<Byte>, b: seq<Byte>)
    requires Complete(a)
    ensures Complete(a + b) && HeadSize(a + b) == HeadSize(a) && Head(a + b) == Head(a)
    ensures (a + b)[LENGTH_SIZE + HeadSize(a)..] == a[LENGTH_SIZE + HeadSize(a)..] + b
  {
    var end := LENGTH_SIZE + HeadSize(a);
    assert (a + b)[..LENGTH_SIZE] == a[..LENGTH_SIZE];
    assert (a + b)[LENGTH_SIZE..end] == a[LENGTH_SIZE..end];
  }

  lemma ConcatMalformed(a: seq<Byte>, b: seq<Byte>)
    requires !Complete(a)
    ensures Decode(a).packets == [] && Decode(a).rest == a
    ensures Decode(a).failed ==> Decode(a + b) == Decoded([], a + b, true)
  {
    if |a| >= LENGTH_SIZE {
      assert (a + b)[..LENGTH_SIZE] == a[..LENGTH_SIZE];
    }
  }

  // What is left over never holds a complete frame.
  lemma {:induction false} RestIncomplete(src: seq<Byte>)
    requires !Decode(src).failed
    ensures Decode(Decode(src).rest) == Decoded([], Decode(src).rest, false)
  {
    if Complete(src) {
      RestIncomplete(src[LENGTH_SIZE + HeadSize(src)..]);
    }
  }

  // ---------------------------------------------------------------- streaming

  // The reader loop over transport fragments; it stops at the first malformed frame, and
  // then dispatches none of that fragment's packets.
  function Feed(buffer: seq<Byte>, fragments: seq<seq<Byte>>): Decoded
    decreases |fragments|
  {
    if fragments == [] then Decoded([], buffer, false)
    else
      var d := Decode(buffer + fragments[0]);
      if d.failed then Decoded([], buffer + fragments[0], true)
      else
        var more := Feed(d.rest, fragments[1..]);
        more.(packets := d.packets + more.packets)
  }

  function Concat(fragments: seq<seq<Byte>>): seq<Byte> {
    if fragments == [] then [] else fragments[0] + Concat(fragments[1..])
  }

  // However the stream is cut, the same packets come out and the same bytes remain, and
  // a malformed stream is noticed for one cut exactly when it is for any other.
  lemma {:induction false} AnyChunking(buffer: seq<Byte>, fragments: seq<seq<Byte>>)
    requires !Decode(buffer).failed && Decode(buffer).packets == []
    ensures Feed(buffer, fragments).failed == Decode(buffer + Concat(fragments)).failed
    ensures !Feed(buffer, fragments).failed ==> Feed(buffer, fragments) == Decode(buffer + Concat(fragments))
    decreases |fragments|
  {
    hide Decode;
    if fragments == [] {
      assert buffer + [] == buffer;
      RestIncomplete(buffer);
      NothingDecoded(buffer);
    } else {
      var head, tail := fragments[0], Concat(fragments[1..]);
      var d := Decode(buffer + head);
      DecodeConcat(buffer + head, tail);
      assert (buffer + head) + tail == buffer + Concat(fragments);
      if !d.failed {
        RestIncomplete(buffer + head);
        AnyChunking(d.rest, fragments[1..]);
      }
    }
  }

  lemma NothingDecoded(src: seq<Byte>)
    requires !Decode(src).failed && Decode(src).packets == []
    ensures Decode(src).rest == src
  {
  }

  // ---------------------------------------------------------------- decoding loses nothing

  lemma FrameOfHead(src: seq<Byte>)
    requires Complete(src)
    ensures var end := LENGTH_SIZE + HeadSize(src);
      end <= |src| && Fits(Head(src)) && Frame(Head(src)) == src[..end]
  {
    var end := LENGTH_SIZE + HeadSize(src);
    var frame := src[LENGTH_SIZE..end];
    FixedOfValue(src[..LENGTH_SIZE]);
    FixedOfValue(frame[..HEADER_SIZE]);
    SizeRange(src[..LENGTH_SIZE]);
    assert frame == frame[..HEADER_SIZE] + frame[HEADER_SIZE..];
    assert src[..end] == src[..LENGTH_SIZE] + frame;
  }

  lemma SizeRange(octets: seq<Byte>)
    requires |octets| == LENGTH_SIZE
    ensures Value(octets) <= 0xFFFF_FFFF
  {
    ValueBelow(octets);
    assert Power256(4) == 0x1_0000_0000 by { assert Power256(2) == 0x1_0000; }
  }

  // The octets decoded are the frames of the packets, followed by the leftover.
  lemma {:induction false} DecodedIsStream(src: seq<Byte>)
    ensures src == Stream(Decode(src).packets) + Decode(src).rest
    decreases |src|
  {
    hide Head, HeadSize, Frame;
    if Complete(src) {
      CompleteFits(src);
      var end := LENGTH_SIZE + HeadSize(src);
      DecodeHead(src);
      FrameOfHead(src);
      DecodedIsStream(src[end..]);
      StreamFirst(Head(src), Decode(src[end..]).packets);
      assert src == src[..end] + src[end..];
    } else {
      DecodeIncomplete(src);
    }
  }

  lemma StreamFirst(head: Packet, rest: seq<Packet>)
    ensures Stream([head] + rest) == Frame(head) + Stream(rest)
  {
    assert ([head] + rest)[1..] == rest;
  }

  // So an input decodes to given packets, with nothing left, exactly when it is their stream.
  lemma DecodesExactly(src: seq<Byte>, packets: seq<Packet>)
    requires forall p :: p in packets ==> Fits(p)
    ensures Decode(src) == Decoded(packets, [], false) <==> src == Stream(packets)
  {
    hide Decode;
    DecodedIsStream(src);
    DecodeStream(packets);
    assert Stream(packets) + [] == Stream(packets);
  }

  lemma {:induction false} StreamConcat(a: seq<Packet>, b: seq<Packet>)
    ensures Stream(a + b) == Stream(a) + Stream(b)
  {
    hide Frame;
    if a == [] {
      assert a + b == b;
    } else {
      assert (a + b)[1..] == a[1..] + b;
      StreamConcat(a[1..], b);
    }
  }
}
