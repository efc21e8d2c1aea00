/**
  The TCP side of the sender: frames in octet-counting form (section 3.4.1 of RFC 6587), a lazily
  opened connection that is dropped on the first error, and a collector that reads each connection.
  */
module OctetCounting {
  import opened Utf8
  import opened Decimal

  const SPACE: Byte := 32

  function Ascii(s: string): (b: Bytes)
    requires AllDigits(s)
    ensures |b| == |s|
  {
    seq(|s|, i requires 0 <= i < |s| => s[i] as int)
  }

  /** "<n> <frame>", n being the frame's length in bytes. */
  function Framed(data: Bytes): Bytes {
    Ascii(Dec(|data|)) + [SPACE] + data
  }

  /** What a connection carries after whole frames only. */
  function Stream(frames: seq<Bytes>): Bytes {
    if frames == [] then [] else Framed(frames[0]) + Stream(frames[1..])
  }

  // ------------------------------------------------------------------ the collector

  predicate IsDigitByte(b: Byte) {
    48 <= b <= 57
  }

  function DigitByteRun(b: Bytes): (n: nat)
    ensures n <= |b|
    ensures forall i :: 0 <= i < n ==> IsDigitByte(b[i])
  {
    if b == [] || !IsDigitByte(b[0]) then 0 else 1 + DigitByteRun(b[1..])
  }

  function Number(b: Bytes): nat
    requires forall i :: 0 <= i < |b| ==> IsDigitByte(b[i])
  {
    if b == [] then 0
    else
      assert IsDigitByte(b[|b| - 1]);
      var last: int := b[|b| - 1];
      10 * Number(b[..|b| - 1]) + (last - 48)
  }

  datatype Head = Incomplete | Malformed | Whole(data: Bytes, rest: Bytes)

  function NextFrame(b: Bytes): (h: Head)
    ensures h.Whole? ==> |h.rest| < |b|
  {
    var k := DigitByteRun(b);
    if k == |b| then Incomplete
    else if k == 0 || b[k] != SPACE then Malformed
    else
      var n := Number(b[..k]);
      if |b| < k + 1 + n then Incomplete else Whole(b[k + 1..k + 1 + n], b[k + 1 + n..])
  }

  /** All frames a collector extracts from the bytes of one connection. */
  function Receive(b: Bytes): seq<Bytes>
    decreases |b|
  {
    match NextFrame(b)
    case Whole(data, rest) => [data] + Receive(rest)
    case _ => []
  }

  // ------------------------------------------------------------------ one frame

  lemma {:induction false} NumberOfAscii(s: string)
    requires AllDigits(s)
    ensures forall i :: 0 <= i < |s| ==> IsDigitByte(Ascii(s)[i])
    ensures Number(Ascii(s)) == Value(s)
  {
    if s != [] {
      NumberOfAscii(s[..|s| - 1]);
      assert Ascii(s)[..|s| - 1] == Ascii(s[..|s| - 1]);
    }
  }

  lemma {:induction false} DigitRunStops(b: Bytes, n: nat)
    requires n < |b| && !IsDigitByte(b[n]) && forall i :: 0 <= i < n ==> IsDigitByte(b[i])
    ensures DigitByteRun(b) == n
  {
    if n > 0 {
      DigitRunStops(b[1..], n - 1);
    }
  }

  lemma {:induction false} DigitRunAll(b: Bytes)
    requires forall i :: 0 <= i < |b| ==> IsDigitByte(b[i])
    ensures DigitByteRun(b) == |b|
  {
    if b != [] {
      DigitRunAll(b[1..]);
    }
  }

  /** A frame on the wire: the digits of its length in bytes, a space, and its bytes. */
  lemma FrameOnTheWire(data: Bytes)
    ensures var digits, b := Dec(|data|), Framed(data);
            && |b| == |digits| + 1 + |data|
            && (forall i :: 0 <= i < |digits| ==> b[i] == digits[i] as int)
            && b[|digits|] == 32 && b[|digits| + 1..] == data
  {
    hide Dec;
  }

  lemma NextOfFramed(data: Bytes, rest: Bytes)
    ensures NextFrame(Framed(data) + rest) == Whole(data, rest)
  {
    var head := Ascii(Dec(|data|));
    var k := |head|;
    NumberOfAscii(Dec(|data|));
    ValueOfDec(|data|);
    var b := Framed(data) + rest;
    hide Dec, Ascii, Number, Value;
    assert b[..k] == head;
    assert forall i :: 0 <= i < k ==> b[i] == head[i];
    assert b[k] == SPACE;
    DigitRunStops(b, k);
    assert b[k + 1..k + 1 + |data|] == data && b[k + 1 + |data|..] == rest;
  }

  lemma NextOfPart(data: Bytes, n: nat)
    requires n < |Framed(data)|
    ensures NextFrame(Framed(data)[..n]) == Incomplete
  {
    var head := Ascii(Dec(|data|));
    var k := |head|;
    NumberOfAscii(Dec(|data|));
    ValueOfDec(|data|);
    var b := Framed(data)[..n];
    hide Dec, Ascii, Number, Value;
    if n <= k {
      assert b == head[..n];
      DigitRunAll(b);
    } else {
      assert b[..k] == head;
      assert forall i :: 0 <= i < k ==> b[i] == head[i];
      assert b[k] == SPACE;
      DigitRunStops(b, k);
    }
  }

  // ------------------------------------------------------------------ whole streams

  /** How many leading frames lie wholly within the first n bytes of their stream. */
  function Complete(frames: seq<Bytes>, n: nat): (m: nat)
    ensures m <= |frames|
  {
    if frames == [] || n < |Framed(frames[0])| then 0
    else 1 + Complete(frames[1..], n - |Framed(frames[0])|)
  }

  /** A connection lost after n bytes yields exactly the frames it carried whole, in order; never a wrong one. */
  lemma {:induction false} ReceivePrefix(frames: seq<Bytes>, n: nat)
    requires n <= |Stream(frames)|
    ensures Receive(Stream(frames)[..n]) == frames[..Complete(frames, n)]
  {
    hide Framed, NextFrame;
    if frames == [] {
    } else {
      var f := Framed(frames[0]);
      var rest := frames[1..];
      if n < |f| {
        assert Stream(frames)[..n] == f[..n];
        NextOfPart(frames[0], n);
      } else {
        assert Stream(frames)[..n] == f + Stream(rest)[..n - |f|];
        NextOfFramed(frames[0], Stream(rest)[..n - |f|]);
        ReceivePrefix(rest, n - |f|);
        assert frames[..Complete(frames, n)] == [frames[0]] + rest[..Complete(rest, n - |f|)];
      }
    }
  }

  lemma {:induction false} CompleteAll(frames: seq<Bytes>)
    ensures Complete(frames, |Stream(frames)|) == |frames|
  {
    if frames != [] {
      CompleteAll(frames[1..]);
    }
  }

  /** Decoding the concatenation of any frames yields exactly those frames. */
  lemma ReceiveAll(frames: seq<Bytes>)
    ensures Receive(Stream(frames)) == frames
  {
    ReceivePrefix(frames, |Stream(frames)|);
    CompleteAll(frames);
    assert Stream(frames)[..|Stream(frames)|] == Stream(frames);
    assert frames[..|frames|] == frames;
  }

  lemma {:induction false} StreamAppend(frames: seq<Bytes>, data: Bytes)
    ensures Stream(frames + [data]) == Stream(frames) + Framed(data)
  {
    hide Framed;
    if frames == [] {
      assert frames + [data] == [data];
      assert Stream([data][1..]) == [];
    } else {
      StreamAppend(frames[1..], data);
      assert (frames + [data])[1..] == frames[1..] + [data];
    }
  }

  lemma {:induction false} CompleteAppend(frames: seq<Bytes>, data: Bytes, k: nat)
    requires k <= |Framed(data)|
    ensures Complete(frames + [data], |Stream(frames)| + k) == |frames| + (if k == |Framed(data)| then 1 else 0)
  {
    hide Framed;
    if frames == [] {
      assert frames + [data] == [data];
      assert [data][1..] == [];
    } else {
      CompleteAppend(frames[1..], data, k);
      assert (frames + [data])[1..] == frames[1..] + [data];
    }
  }

  // ------------------------------------------------------------------ the sender

  /** What the network does to one send; `written` bytes of the failing one got through. */
  datatype Net = Fine | ConnectFails | WriteFails(written: nat)

  function ReceiveEach(conns: seq<Bytes>): seq<Bytes> {
    if conns == [] then [] else ReceiveEach(conns[..|conns| - 1]) + Receive(conns[|conns| - 1])
  }

  datatype Socket = Closed | Open(sent: Bytes)

  /** The TCP part of SyslogSender. `lost` keeps what dropped connections carried; the sender never reads it. */
  class Sender {
    var sock: Socket
    var lost: seq<Bytes>
    ghost var whole: seq<Bytes>   // frames written completely to the open connection

    ghost predicate Valid()
      reads this
    {
      sock.Open? ==> sock.sent == Stream(whole)
    }

    /** Everything the collector has received so far, over all connections. */
    ghost function Collected(): seq<Bytes>
      reads this
    {
      ReceiveEach(lost) + (if sock.Open? then Receive(sock.sent) else [])
    }

    constructor ()
      ensures Valid() && Collected() == [] && sock == Closed
    {
      sock := Closed;
      lost := [];
      whole := [];
    }

    /**
      One send. On success the collector has one more frame; on failure it has either nothing more, or
      the frame itself when every byte had left before the error; never part of a frame or a wrong one.
      */
    method Send(data: Bytes, net: Net) returns (ok: bool)
      requires Valid()
      modifies this
      ensures Valid()
      ensures ok <==> net == Fine || (net == ConnectFails && old(sock).Open?)
      ensures ok ==> sock.Open? && Collected() == old(Collected()) + [data]
      ensures ok ==> sock.sent == (if old(sock).Open? then old(sock).sent else []) + Framed(data)
      ensures !ok ==>
                && sock == Closed
                && Collected() == old(Collected()) +
                     (if net.WriteFails? && net.written >= |Framed(data)| then [data] else [])
    {
      hide Framed, Receive, Stream;
      if sock == Closed {
        if net == ConnectFails { return false; }
        assert Stream([]) == [] by { EmptyStream(); }
        sock := Open([]);
        whole := [];
      }
      var framed := Framed(data);
      if net.WriteFails? {
        var k := if net.written <= |framed| then net.written else |framed|;
        var final := sock.sent + framed[..k];
        StreamAppend(whole, data);
        ReceivePrefix(whole + [data], |Stream(whole)| + k);
        CompleteAppend(whole, data, k);
        ReceiveAll(whole);
        assert Stream(whole + [data])[..|Stream(whole)| + k] == final;
        assert (whole + [data])[..|whole|] == whole && (whole + [data])[..|whole| + 1] == whole + [data];
        assert (lost + [final])[..|lost|] == lost;
        lost := lost + [final];
        sock := Closed;
        return false;
      }
      StreamAppend(whole, data);
      ReceiveAll(whole);
      ReceiveAll(whole + [data]);
      sock := Open(sock.sent + framed);
      whole := whole + [data];
      return true;
    }
  }

  lemma EmptyStream()
    ensures Stream([]) == []
  {
  }
}
