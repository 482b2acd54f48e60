// pkg/http/websocket/reader.go: reassembly of inbound bytes in one reused array.
//
// Decoded payloads are slices of the buffer's array, and the leftover bytes are moved to
// the front of that array before the packets are dispatched. What a handler reads is
// therefore the array after the move.
module SocketReader {
  import opened Octets
  import opened Frames

  // ---------------------------------------------------------------- where payloads lie

  // A decoded packet whose payload is still a slice of the buffer.
  datatype Slot = Slot(header: Uint16, start: nat, length: nat)

  // The complete frames of bytes from position base on, as slices.
  function Layout(bytes: seq<Byte>, base: nat): (r: seq<Slot>)
    requires base <= |bytes|
    ensures forall i :: 0 <= i < |r| ==> r[i].start + r[i].length <= |bytes|
    decreases |bytes| - base
  {
    var src := bytes[base..];
    if !Complete(src) then []
    else
      var end := LENGTH_SIZE + HeadSize(src);
      [Slot(Head(src).header, base + FRAME_OVERHEAD, HeadSize(src) - HEADER_SIZE)] + Layout(bytes, base + end)
  }

  function ReadSlots(slots: seq<Slot>, bytes: seq<Byte>): (r: seq<Packet>)
    requires forall i :: 0 <= i < |slots| ==> slots[i].start + slots[i].length <= |bytes|
    ensures |r| == |slots|
  {
    seq(|slots|, i requires 0 <= i < |slots| =>
      Packet(slots[i].header, bytes[slots[i].start..slots[i].start + slots[i].length]))
  }

  // Read at once, the slices are the decoded packets.
  lemma {:induction false} LayoutDecodes(bytes: seq<Byte>, base: nat)
    requires base <= |bytes| && !Decode(bytes[base..]).failed
    ensures ReadSlots(Layout(bytes, base), bytes) == Decode(bytes[base..]).packets
    decreases |bytes| - base
  {
    hide Decode, Head, HeadSize, ReadSlots;
    var src := bytes[base..];
    if Complete(src) {
      CompleteFits(src);
      var end := LENGTH_SIZE + HeadSize(src);
      assert src[end..] == bytes[base + end..];
      DecodeHead(src);
      LayoutDecodes(bytes, base + end);
      ReadFirst(bytes, base);
    } else {
      NothingRead(bytes, base);
    }
  }

  lemma ReadFirst(bytes: seq<Byte>, base: nat)
    requires base <= |bytes| && Complete(bytes[base..])
    ensures var src := bytes[base..];
      ReadSlots(Layout(bytes, base), bytes)
      == [Head(src)] + ReadSlots(Layout(bytes, base + LENGTH_SIZE + HeadSize(src)), bytes)
  {
    HeadPayload(bytes, base);
  }

  lemma NothingRead(bytes: seq<Byte>, base: nat)
    requires base <= |bytes| && !Complete(bytes[base..])
    ensures ReadSlots(Layout(bytes, base), bytes) == [] && Decode(bytes[base..]).packets == []
  {
  }

  lemma HeadPayload(bytes: seq<Byte>, base: nat)
    requires base <= |bytes| && Complete(bytes[base..])
    ensures var src := bytes[base..];
      Head(src).payload == bytes[base + FRAME_OVERHEAD..base + LENGTH_SIZE + HeadSize(src)]
  {
  }

  // The array contents a handler sees: the leftover copied over the front.
  function Moved(buffer: seq<Byte>): (r: seq<Byte>)
    ensures |r| == |buffer|
  {
    var rest := Decode(buffer).rest;
    if |rest| <= |buffer| then rest + buffer[|rest|..] else buffer
  }

  function Dispatched(buffer: seq<Byte>): seq<Packet> {
    ReadSlots(Layout(buffer, 0), Moved(buffer))
  }

  // ---------------------------------------------------------------- the reader

  lemma TakeFront(a: seq<Byte>, b: seq<Byte>, c: seq<Byte>)
    ensures (a + b + c)[..|a| + |b|] == a + b
  {
  }

  class Reader {
    var data: array<Byte>
    var len: nat

    ghost predicate Valid()
      reads this
    {
      len <= data.Length
    }

    ghost function Buffer(): seq<Byte>
      requires Valid()
      reads this, data
    {
      data[..len]
    }

    constructor ()
      ensures Valid() && Buffer() == [] && fresh(data)
    {
      data := new Byte[0];
      len := 0;
    }

    // append: in place while there is room, otherwise into a fresh, larger array.
    method Append(plain: seq<Byte>, spare: nat)
      requires Valid()
      modifies this, data
      ensures Valid() && Buffer() == old(Buffer()) + plain
      ensures data == old(data) || fresh(data)
    {
      if len + |plain| > data.Length {
        Grow(len + |plain| + spare);
      }
      ghost var before := data[..];
      Copy(data, len, plain);
      TakeFront(before[..len], plain, before[len + |plain|..]);
      len := len + |plain|;
    }

    method Grow(capacity: nat)
      requires Valid() && len <= capacity
      modifies this`data
      ensures len == old(len) && fresh(data) && data.Length == capacity
      ensures Valid() && Buffer() == old(Buffer())
    {
      var bigger := new Byte[capacity](_ => 0);
      ghost var blank := bigger[..];
      Copy(bigger, 0, data[..len]);
      TakeFront(blank[..0], data[..len], blank[len..]);
      data := bigger;
    }

    method Copy(target: array<Byte>, at: nat, bytes: seq<Byte>)
      requires at + |bytes| <= target.Length
      modifies target
      ensures target[..] == old(target[..at]) + bytes + old(target[at + |bytes|..])
    {
      for i := 0 to |bytes|
        invariant target[..] == old(target[..at]) + bytes[..i] + old(target[at + i..])
      {
        target[at + i] := bytes[i];
      }
      assert bytes[..|bytes|] == bytes;
    }

    // The leftover moves to the front of the array, over the payloads already located.
    method MoveToFront(rest: seq<Byte>)
      requires Valid() && |rest| <= len
      modifies data
      ensures Buffer() == rest + old(Buffer())[|rest|..]
    {
      ghost var before := data[..];
      Copy(data, 0, rest);
      MovedFront(before, rest, len);
    }

    // receive, once the message is opened: what gets dispatched is read from the array
    // after the leftover has been moved to its front.
    method Receive(plain: seq<Byte>, spare: nat) returns (packets: seq<Packet>, ok: bool)
      requires Valid()
      modifies this, data
      ensures Valid()
      ensures ok <==> !Decode(old(Buffer()) + plain).failed
      ensures ok ==> Buffer() == Decode(old(Buffer()) + plain).rest
      ensures ok ==> packets == Dispatched(old(Buffer()) + plain)
      ensures !ok ==> packets == []
    {
      hide Decode, Layout, ReadSlots;
      Append(plain, spare);
      var buffer := data[..len];
      var decoded, rest, failed := DecodeFrames([], buffer);
      if failed {
        return [], false;
      }
      var slots := Layout(buffer, 0);
      RestFits(buffer);
      MoveToFront(rest);
      packets := ReadSlots(slots, data[..len]);
      RestLeft(data[..len], rest, buffer[|rest|..]);
      len := |rest|;
      ok := true;
    }
  }

  lemma MovedFront(before: seq<Byte>, rest: seq<Byte>, len: nat)
    requires |rest| <= len <= |before|
    ensures (before[..0] + rest + before[0 + |rest|..])[..len] == rest + before[..len][|rest|..]
  {
  }

  lemma RestLeft(moved: seq<Byte>, rest: seq<Byte>, tail: seq<Byte>)
    requires moved == rest + tail
    ensures moved[..|rest|] == rest
  {
  }

  lemma {:induction false} RestFits(src: seq<Byte>)
    ensures |Decode(src).rest| <= |src|
    decreases |src|
  {
    if Complete(src) {
      RestFits(src[LENGTH_SIZE + HeadSize(src)..]);
    }
  }

  // ---------------------------------------------------------------- when it is right

  // The leftover is the end of the input, behind every complete frame.
  lemma {:induction false} RestAtEnd(bytes: seq<Byte>, base: nat)
    requires base <= |bytes| && !Decode(bytes[base..]).failed
    ensures var rest := Decode(bytes[base..]).rest;
      && |rest| <= |bytes| - base && rest == bytes[|bytes| - |rest|..]
      && forall i :: 0 <= i < |Layout(bytes, base)| ==>
           var slot := Layout(bytes, base)[i];
           base + FRAME_OVERHEAD <= slot.start && slot.start + slot.length <= |bytes| - |rest|
    decreases |bytes| - base
  {
    hide Decode, Head, HeadSize;
    var src := bytes[base..];
    if Complete(src) {
      CompleteFits(src);
      var end := LENGTH_SIZE + HeadSize(src);
      assert src[end..] == bytes[base + end..];
      DecodeHead(src);
      SizeCoversHeader(src);
      RestAtEnd(bytes, base + end);
    } else {
      ConcatMalformed(src, []);
    }
  }

  lemma SizeCoversHeader(src: seq<Byte>)
    requires Complete(src)
    ensures HeadSize(src) >= HEADER_SIZE
  {
  }

  // The leftover does not reach into any payload.
  predicate Untouched(buffer: seq<Byte>) {
    forall i :: 0 <= i < |Layout(buffer, 0)| ==>
      Layout(buffer, 0)[i].length == 0 || |Decode(buffer).rest| <= Layout(buffer, 0)[i].start
  }

  // Then the packets dispatched are the packets decoded.
  lemma UntouchedIsRight(buffer: seq<Byte>)
    requires !Decode(buffer).failed && Untouched(buffer)
    ensures Dispatched(buffer) == Decode(buffer).packets
  {
    hide Decode, Layout;
    assert buffer[0..] == buffer;
    LayoutDecodes(buffer, 0);
    RestAtEnd(buffer, 0);
    var slots, rest := Layout(buffer, 0), Decode(buffer).rest;
    forall i | 0 <= i < |slots|
      ensures ReadSlots(slots, Moved(buffer))[i] == ReadSlots(slots, buffer)[i]
    {
      var slot := slots[i];
      assert slot.length == 0 || |rest| <= slot.start;
      assert Moved(buffer)[slot.start..slot.start + slot.length] == buffer[slot.start..slot.start + slot.length];
    }
  }

  // A leftover of at most six octets, the frame overhead, is always harmless.
  lemma ShortLeftoverIsRight(buffer: seq<Byte>)
    requires !Decode(buffer).failed && |Decode(buffer).rest| <= FRAME_OVERHEAD
    ensures Dispatched(buffer) == Decode(buffer).packets
  {
    hide Decode, Layout;
    assert buffer[0..] == buffer;
    RestAtEnd(buffer, 0);
    UntouchedIsRight(buffer);
  }

  lemma LayoutFirst(bytes: seq<Byte>, base: nat)
    requires base <= |bytes|
    ensures var src := bytes[base..];
      if !Complete(src) then Layout(bytes, base) == []
      else
        var end := LENGTH_SIZE + HeadSize(src);
        && base + end <= |bytes| && src[end..] == bytes[base + end..]
        && Layout(bytes, base)
           == [Slot(Head(src).header, base + FRAME_OVERHEAD, HeadSize(src) - HEADER_SIZE)] + Layout(bytes, base + end)
  {
  }

  lemma {:induction false} LayoutOfTail(bytes: seq<Byte>, bytes': seq<Byte>, base: nat)
    requires base <= |bytes| == |bytes'| && bytes[base..] == bytes'[base..]
    ensures Layout(bytes', base) == Layout(bytes, base)
    decreases |bytes| - base
  {
    hide Layout, Complete, Head, HeadSize;
    LayoutFirst(bytes, base);
    LayoutFirst(bytes', base);
    var src := bytes[base..];
    if Complete(src) {
      CompleteFits(src);
      LayoutOfTail(bytes, bytes', base + LENGTH_SIZE + HeadSize(src));
    }
  }

  lemma HeadKept(bytes: seq<Byte>, base: nat, s: nat, v: Byte)
    requires base <= |bytes| && Complete(bytes[base..]) && base + FRAME_OVERHEAD <= s < |bytes|
    ensures var src, src' := bytes[base..], bytes[s := v][base..];
      && Complete(src') && HeadSize(src') == HeadSize(src) && Head(src').header == Head(src).header
  {
    var src, src' := bytes[base..], bytes[s := v][base..];
    assert src'[..LENGTH_SIZE] == src[..LENGTH_SIZE];
    var end := LENGTH_SIZE + HeadSize(src);
    assert src'[LENGTH_SIZE..end][..HEADER_SIZE] == src[LENGTH_SIZE..end][..HEADER_SIZE];
  }

  // Rewriting one payload octet moves no frame boundary.
  lemma {:induction false} PayloadOctetFree(bytes: seq<Byte>, base: nat, i: nat, s: nat, v: Byte)
    requires base <= |bytes| && !Decode(bytes[base..]).failed && i < |Layout(bytes, base)|
    requires var slot := Layout(bytes, base)[i]; slot.start <= s < slot.start + slot.length
    ensures var bytes' := bytes[s := v];
      && Layout(bytes', base) == Layout(bytes, base)
      && Decode(bytes'[base..]).rest == Decode(bytes[base..]).rest
      && !Decode(bytes'[base..]).failed
    decreases |bytes| - base
  {
    hide Decode, Head, HeadSize, Complete, Layout;
    var bytes' := bytes[s := v];
    LayoutFirst(bytes, base);
    CompleteFits(bytes[base..]);
    var end := LENGTH_SIZE + HeadSize(bytes[base..]);
    RestAtEnd(bytes, base);
    HeadKept(bytes, base, s, v);
    LayoutFirst(bytes', base);
    DecodeHead(bytes[base..]);
    DecodeHead(bytes'[base..]);
    if i == 0 {
      assert bytes'[base + end..] == bytes[base + end..];
      LayoutOfTail(bytes, bytes', base + end);
    } else {
      PayloadOctetFree(bytes, base + end, i - 1, s, v);
    }
  }

  // Otherwise frames of the very same layout, with the same leftover, can be dispatched
  // wrongly: the layout guarantees correct dispatch exactly when the leftover is untouched.
  lemma TouchedCanBeWrong(buffer: seq<Byte>) returns (buffer': seq<Byte>)
    requires !Decode(buffer).failed && !Untouched(buffer)
    ensures !Decode(buffer').failed && Layout(buffer', 0) == Layout(buffer, 0)
    ensures Decode(buffer').rest == Decode(buffer).rest
    ensures Dispatched(buffer') != Decode(buffer').packets
  {
    hide Decode, Layout;
    var slots, rest := Layout(buffer, 0), Decode(buffer).rest;
    assert buffer[0..] == buffer;
    var i :| 0 <= i < |slots| && slots[i].length > 0 && |rest| > slots[i].start;
    var s := slots[i].start;
    buffer' := buffer;
    if rest[s] == buffer[s] {
      var v := if buffer[s] == 0 then 1 else 0;
      PayloadOctetFree(buffer, 0, i, s, v);
      buffer' := buffer[s := v];
      assert buffer'[0..] == buffer';
    }
    WrongAt(buffer', i);
  }

  lemma WrongAt(buffer: seq<Byte>, i: nat)
    requires !Decode(buffer).failed && i < |Layout(buffer, 0)|
    requires var slot, rest := Layout(buffer, 0)[i], Decode(buffer).rest;
      && 0 < slot.length && slot.start < |rest| && rest[slot.start] != buffer[slot.start]
    ensures Dispatched(buffer) != Decode(buffer).packets
  {
    hide Decode, Layout;
    assert buffer[0..] == buffer;
    LayoutDecodes(buffer, 0);
    RestAtEnd(buffer, 0);
    var slots, s := Layout(buffer, 0), Layout(buffer, 0)[i].start;
    assert ReadSlots(slots, Moved(buffer))[i].payload[0] == Decode(buffer).rest[s];
    assert ReadSlots(slots, buffer)[i].payload[0] == buffer[s];
  }

  // The smallest failing message: one frame with a one-octet payload, followed by the
  // first seven octets of another frame.
  lemma SevenOctetLeftoverFails()
    ensures var buffer := Frame(Packet(1, [9])) + [0, 0, 0, 9, 0, 2, 5];
      && Decode(buffer).packets == [Packet(1, [9])] && |Decode(buffer).rest| == 7
      && Dispatched(buffer) == [Packet(1, [5])]
  {
    var p, rest := Packet(1, [9]), [0, 0, 0, 9, 0, 2, 5];
    var buffer := Frame(p) + rest;
    FrameHead(p, rest);
    SmallHead();
    assert buffer[0..] == buffer && buffer[7..] == rest;
    assert Decode(buffer) == Decoded([p], rest, false);
    assert Layout(buffer, 7) == [];
    assert Layout(buffer, 0) == [Slot(1, 6, 1)];
    assert Moved(buffer)[6..7] == [5];
  }

  lemma SmallHead()
    ensures Value([0, 0, 0, 9]) == 9
  {
    assert [0, 0, 0, 9][..3] == [0, 0, 0];
    assert [0, 0, 0][..2] == [0, 0] && [0, 0][..1] == [0];
    assert Value([0, 0, 0]) == 0;
  }
}
