/** The highway frame codec of client/highway/highway_msgobj.go over a stream that arrives in arbitrary pieces. */
module FrameCodec {
  import opened Base
  import opened Gcds

  type byte = x: int | 0 <= x < 256

  const HEAD_LEN := 23
  const MAGIC_LEN := 7
  const MAGIC: seq<byte> := [0x43, 0x53, 0x45, 0x2E, 0x54, 0x43, 0x50]
  const UINT32 := 0x1_0000_0000
  const UINT64 := 0x1_0000_0000_0000_0000

  // ---------- big-endian numbers ----------

  function Pow256(w: nat): (p: nat)
    ensures p > 0
  {
    if w == 0 then 1 else 256 * Pow256(w - 1)
  }

  function ToBE(n: nat, w: nat): (bs: seq<byte>)
    ensures |bs| == w
  {
    if w == 0 then [] else ToBE(n / 256, w - 1) + [n % 256]
  }

  function FromBE(bs: seq<byte>): (n: nat) {
    if bs == [] then 0 else 256 * FromBE(bs[..|bs| - 1]) + bs[|bs| - 1]
  }

  /** A number that fits into w bytes is read back from them. */
  lemma {:induction false} BigEndianRoundTrip(n: nat, w: nat)
    requires n < Pow256(w)
    ensures FromBE(ToBE(n, w)) == n
  {
    if w > 0 {
      BigEndianRoundTrip(n / 256, w - 1);
      var bs := ToBE(n, w);
      assert bs[..|bs| - 1] == ToBE(n / 256, w - 1);
    }
  }

  /** The bytes of a number, the most significant first. */
  lemma {:induction false} BigEndianByte(n: nat, w: nat, j: nat)
    requires j < w
    ensures ToBE(n, w)[j] == n / Pow256(w - 1 - j) % 256
  {
    if j < w - 1 {
      BigEndianByte(n / 256, w - 1, j);
      DivideTwice(n, Pow256(w - 2 - j));
    }
  }

  lemma DivideTwice(n: nat, p: nat)
    requires p > 0
    ensures n / 256 / p == n / (256 * p)
  {
    var q := n / 256 / p;
    var r := n / 256 % p;
    assert n / 256 == p * q + r;
    assert n == 256 * (p * q + r) + n % 256;
    assert 256 * (p * q + r) == (256 * p) * q + 256 * r;
    EuclidUnique(n, 256 * p, q, 256 * r + n % 256);
  }

  lemma Widths()
    ensures Pow256(4) == UINT32 && Pow256(8) == UINT64
  {
    assert Pow256(2) == 65536;
    assert Pow256(4) == UINT32;
    assert Pow256(6) == 65536 * UINT32;
  }

  // ---------- frames ----------

  datatype FrameHead = FrameHead(msgID: nat, totalLen: nat, headerLen: nat)

  function Serialize(h: FrameHead): (bs: seq<byte>)
    ensures |bs| == HEAD_LEN
  {
    MAGIC + ToBE(h.msgID, 8) + ToBE(h.totalLen, 4) + ToBE(h.headerLen, 4)
  }

  /** strings.EqualFold on the magic bytes: letters compare without case. */
  function Fold(b: byte): (r: byte) {
    if 65 <= b <= 90 then b + 32 else b
  }

  predicate MagicMatches(bs: seq<byte>)
    requires |bs| >= MAGIC_LEN
  {
    forall k :: 0 <= k < MAGIC_LEN ==> Fold(bs[k]) == Fold(MAGIC[k])
  }

  /** None: too few bytes, or not the magic. */
  function Deserialize(buf: seq<byte>): (h: Option<FrameHead>) {
    if |buf| < HEAD_LEN || !MagicMatches(buf) then None
    else Some(FrameHead(FromBE(buf[7..15]), FromBE(buf[15..19]), FromBE(buf[19..23])))
  }

  /** A message as marshalled: the protobuf header and body are opaque bytes. */
  datatype Message = Message(msgID: nat, header: seq<byte>, body: seq<byte>)

  function HeadOf(m: Message): (h: FrameHead) {
    var headerLen := |m.header| % UINT32;
    FrameHead(m.msgID, (headerLen + |m.body| % UINT32) % UINT32, headerLen)
  }

  function Encode(m: Message): (bs: seq<byte>) {
    Serialize(HeadOf(m)) + m.header + m.body
  }

  /** The lengths fit their 32-bit fields, and the ID its 64 bits. */
  predicate Fits(m: Message) {
    m.msgID < UINT64 && |m.header| + |m.body| < UINT32
  }

  lemma {:induction false} SerializeRoundTrip(h: FrameHead)
    requires h.msgID < UINT64 && h.totalLen < UINT32 && h.headerLen < UINT32
    ensures Deserialize(Serialize(h)) == Some(h)
  {
    hide ToBE, FromBE, Pow256;
    Widths();
    BigEndianRoundTrip(h.msgID, 8);
    BigEndianRoundTrip(h.totalLen, 4);
    BigEndianRoundTrip(h.headerLen, 4);
    Parts(MAGIC, ToBE(h.msgID, 8), ToBE(h.totalLen, 4), ToBE(h.headerLen, 4));
    var bs := Serialize(h);
    assert forall k :: 0 <= k < 7 ==> bs[k] == bs[..7][k];
  }

  lemma Parts(a: seq<byte>, b: seq<byte>, c: seq<byte>, d: seq<byte>)
    requires |a| == 7 && |b| == 8 && |c| == 4 && |d| == 4
    ensures var s := a + b + c + d; s[..7] == a && s[7..15] == b && s[15..19] == c && s[19..23] == d
  {
    var s := a + b + c + d;
    assert s[..7] == a && s[7..15] == b;
    assert s[15..19] == c;
    assert s[19..23] == d;
  }

  /** The head byte by byte: the text CSE.TCP, then the ID, the total and the header length, big-endian. */
  lemma HeadBytes(h: FrameHead, j: nat)
    requires j < 23
    ensures Serialize(h)[j] ==
            if j < 7 then "CSE.TCP"[j] as int
            else if j < 15 then h.msgID / Pow256(14 - j) % 256
            else if j < 19 then h.totalLen / Pow256(18 - j) % 256
            else h.headerLen / Pow256(22 - j) % 256
  {
    hide ToBE, Pow256;
    if 7 <= j < 15 { BigEndianByte(h.msgID, 8, j - 7); }
    if 15 <= j < 19 { BigEndianByte(h.totalLen, 4, j - 15); }
    if 19 <= j { BigEndianByte(h.headerLen, 4, j - 19); }
  }

  /** b is the character c, or c is a capital letter and b the small one. */
  predicate IsLetter(b: byte, c: char) {
    b == c as int || ('A' <= c <= 'Z' && b == c as int + 32)
  }

  /** A head is refused iff it is too short or does not begin with CSE.TCP, in capital or small letters. */
  lemma HeadRefusedIff(buf: seq<byte>)
    ensures Deserialize(buf) == None <==> |buf| < 23 || exists k :: 0 <= k < 7 && !IsLetter(buf[k], "CSE.TCP"[k])
  {
    hide FromBE;
    if |buf| >= 23 {
      forall k | 0 <= k < 7
        ensures Fold(buf[k]) == Fold(MAGIC[k]) <==> IsLetter(buf[k], "CSE.TCP"[k])
      {
        assert MAGIC[k] == "CSE.TCP"[k] as int;
      }
    }
  }

  // ---------- decoding a stream, on values ----------

  /** A received frame: head and payload, as ProtocolObject holds them. */
  datatype Frame = Frame(head: FrameHead, payload: seq<byte>)

  /** What reading one frame yields, and the bytes left in the stream. */
  datatype Read1 = Got(frame: Frame, rest: seq<byte>) | Failed(rest: seq<byte>)

  function ReadFrame(bs: seq<byte>): (r: Read1)
    ensures r.Got? ==> |r.rest| + HEAD_LEN <= |bs|
  {
    if |bs| < HEAD_LEN then Failed([])
    else
      var h := Deserialize(bs[..HEAD_LEN]);
      var rest := bs[HEAD_LEN..];
      if h == None then Failed(rest)
      else if |rest| < h.value.totalLen then Failed([])
      else Got(Frame(h.value, rest[..h.value.totalLen]), rest[h.value.totalLen..])
  }

  /**
    Reading a frame fails iff the stream ends within the head or the payload, or the head is refused; then everything
    is used up, or exactly the head.
   */
  lemma ReadFailsIff(bs: seq<byte>)
    ensures ReadFrame(bs).Failed? <==>
            || |bs| < 23 || Deserialize(bs[..23]) == None
            || |bs| < 23 + Deserialize(bs[..23]).value.totalLen
    ensures ReadFrame(bs).Failed? ==>
              ReadFrame(bs).rest == if |bs| >= 23 && Deserialize(bs[..23]) == None then bs[23..] else []
  {
    hide Deserialize;
  }

  /** msgRecvLoop: frames until the first failure. */
  function ReadAll(bs: seq<byte>): (frames: seq<Frame>)
    decreases |bs|
  {
    var r := ReadFrame(bs);
    if r.Failed? then [] else [r.frame] + ReadAll(r.rest)
  }

  // ---------- the reader and the loops ----------

  /** A bufio.Reader: rest is what will still arrive before the stream ends or fails. */
  class Reader {
    var rest: seq<byte>

    constructor (stream: seq<byte>)
      ensures rest == stream
    {
      rest := stream;
    }

    /** Fills buf from index at with some, at least one, of the next bytes; how many is not the caller's choice. */
    method Read(buf: array<byte>, at: nat) returns (n: nat, eof: bool)
      requires at < buf.Length
      modifies this, buf
      ensures eof <==> old(rest) == []
      ensures eof ==> n == 0
      ensures !eof ==> 1 <= n
      ensures at + n <= buf.Length && n <= |old(rest)| && rest == old(rest)[n..]
      ensures buf[..] == old(buf[..at]) + old(rest)[..n] + old(buf[..])[at + n..]
    {
      if rest == [] {
        assert buf[..] == buf[..at] + [] + buf[..][at..];
        return 0, true;
      }
      var most := if |rest| < buf.Length - at then |rest| else buf.Length - at;
      n :| 1 <= n <= most;
      forall i | 0 <= i < n {
        buf[at + i] := rest[i];
      }
      rest, eof := rest[n..], false;
    }
  }

  /** One of the two read loops of DeSerializeFrame: fill the buffer or fail. */
  method Fill(rd: Reader, buf: array<byte>) returns (ok: bool)
    modifies rd, buf
    ensures ok <==> |old(rd.rest)| >= buf.Length
    ensures ok ==> buf[..] == old(rd.rest)[..buf.Length] && rd.rest == old(rd.rest)[buf.Length..]
    ensures !ok ==> rd.rest == []
  {
    ghost var stream := rd.rest;
    var count := 0;
    while count < buf.Length
      invariant 0 <= count <= buf.Length && count <= |stream|
      invariant rd.rest == stream[count..] && buf[..count] == stream[..count]
    {
      var n, eof := rd.Read(buf, count);
      if eof {
        return false;
      }
      assert buf[..count + n] == stream[..count] + stream[count..][..n] == stream[..count + n];
      count := count + n;
    }
    return true;
  }

  /** DeSerializeFrame: the frame depends on the bytes alone, not on how the stream is cut into reads. */
  method DeSerializeFrame(rd: Reader) returns (frame: Option<Frame>)
    modifies rd
    ensures var r := ReadFrame(old(rd.rest));
            rd.rest == r.rest && frame == if r.Got? then Some(r.frame) else None
  {
    var buf := new byte[HEAD_LEN];
    var ok := Fill(rd, buf);
    if !ok {
      return None;
    }
    var head := Deserialize(buf[..]);
    if head == None {
      return None;
    }
    var payload := new byte[head.value.totalLen];
    ok := Fill(rd, payload);
    if !ok {
      return None;
    }
    return Some(Frame(head.value, payload[..]));
  }

  method MsgRecvLoop(rd: Reader) returns (frames: seq<Frame>)
    modifies rd
    ensures frames == ReadAll(old(rd.rest))
  {
    frames := [];
    while true
      invariant frames + ReadAll(rd.rest) == ReadAll(old(rd.rest))
      decreases |rd.rest|
    {
      ghost var was := rd.rest;
      var frame := DeSerializeFrame(rd);
      if frame == None {
        return;
      }
      assert ReadAll(was) == [frame.value] + ReadAll(rd.rest);
      frames := frames + [frame.value];
    }
  }

  // ---------- round trips ----------

  lemma EncodedHead(m: Message, tail: seq<byte>)
    requires m.msgID < UINT64
    ensures var bs := Encode(m) + tail;
            && |bs| >= HEAD_LEN && Deserialize(bs[..HEAD_LEN]) == Some(HeadOf(m))
            && bs[HEAD_LEN..] == m.header + m.body + tail
  {
    hide Deserialize, Serialize;
    var h := HeadOf(m);
    SerializeRoundTrip(h);
    assert (Encode(m) + tail)[..HEAD_LEN] == Serialize(h);
  }

  lemma LengthsFit(m: Message)
    requires Fits(m)
    ensures HeadOf(m) == FrameHead(m.msgID, |m.header| + |m.body|, |m.header|)
  {
  }

  /** Reading an encoded message gives the message back iff its lengths fit 32 bits. */
  lemma FrameRoundTripIff(m: Message, tail: seq<byte>)
    requires m.msgID < UINT64
    ensures ReadFrame(Encode(m) + tail) == Got(Frame(HeadOf(m), m.header + m.body), tail) <==> Fits(m)
  {
    hide Deserialize, Encode, HeadOf;
    EncodedHead(m, tail);
    var bs, all := Encode(m) + tail, m.header + m.body;
    if Fits(m) {
      LengthsFit(m);
      assert (all + tail)[..|all|] == all && (all + tail)[|all|..] == tail;
    } else {
      TotalBelow(m);
    }
  }

  lemma TotalBelow(m: Message)
    ensures HeadOf(m).totalLen < UINT32
  {
  }

  /** The payload cut at HeaderLen, as DeSerializeRsp and DeSerializeReq cut it. */
  function Cut(f: Frame): (r: Option<Message>) {
    if f.head.headerLen > |f.payload| then None
    else Some(Message(f.head.msgID, f.payload[..f.head.headerLen], f.payload[f.head.headerLen..]))
  }

  function EncodeAll(ms: seq<Message>): (bs: seq<byte>) {
    if ms == [] then [] else Encode(ms[0]) + EncodeAll(ms[1..])
  }

  function FramesOf(ms: seq<Message>): (frames: seq<Frame>)
    ensures |frames| == |ms|
  {
    if ms == [] then [] else [Frame(HeadOf(ms[0]), ms[0].header + ms[0].body)] + FramesOf(ms[1..])
  }

  /**
    Stream round trip: any messages that fit, encoded one after another and followed by anything, are read back in
    order, and reading goes on with what follows. MsgRecvLoop makes this hold under every way the stream can be cut
    into reads.
   */
  lemma {:induction false} StreamRoundTrip(ms: seq<Message>, tail: seq<byte>)
    requires forall k :: 0 <= k < |ms| ==> Fits(ms[k])
    ensures ReadAll(EncodeAll(ms) + tail) == FramesOf(ms) + ReadAll(tail)
  {
    if ms == [] {
      assert EncodeAll(ms) + tail == tail;
    } else {
      StreamRoundTrip(ms[1..], tail);
      FirstFrame(ms, tail);
    }
  }

  lemma FirstFrame(ms: seq<Message>, tail: seq<byte>)
    requires ms != [] && Fits(ms[0])
    ensures ReadAll(EncodeAll(ms) + tail)
         == [Frame(HeadOf(ms[0]), ms[0].header + ms[0].body)] + ReadAll(EncodeAll(ms[1..]) + tail)
  {
    hide Encode, HeadOf, ReadFrame;
    var rest := EncodeAll(ms[1..]) + tail;
    FrameRoundTripIff(ms[0], rest);
    assert EncodeAll(ms) + tail == Encode(ms[0]) + rest;
  }

  /** Cutting the payload of a frame read back gives the header and the body of its message. */
  lemma {:induction false} FramesCut(ms: seq<Message>, k: nat)
    requires k < |ms| && Fits(ms[k])
    ensures Cut(FramesOf(ms)[k]) == Some(ms[k])
  {
    if k == 0 {
      LengthsFit(ms[0]);
    } else {
      hide Cut;
      FramesCut(ms[1..], k - 1);
    }
  }

  // ---------- writing ----------

  class Writer {
    var out: seq<byte>

    constructor ()
      ensures out == []
    {
      out := [];
    }

    method Write(bs: seq<byte>)
      modifies this
      ensures out == old(out) + bs
    {
      out := out + bs;
    }
  }

  /** The three writes of a frame; an absent body is not written. */
  method WriteFrame(head: FrameHead, header: seq<byte>, body: seq<byte>, w: Writer)
    modifies w
    ensures w.out == old(w.out) + (Serialize(head) + header + body)
  {
    hide Serialize;
    w.Write(Serialize(head));
    w.Write(header);
    if body != [] {
      w.Write(body);
    }
  }

  /** SerializeReq; header and body are what proto.Marshal gave, None for an error. Nothing is written on an error. */
  method SerializeReq(msgID: nat, header: Option<seq<byte>>, body: Option<seq<byte>>, w: Writer)
    modifies w
    ensures w.out == old(w.out) + if header.Some? && body.Some?
                                  then Encode(Message(msgID, header.value, body.value)) else []
  {
    if header == None {
      return;
    }
    var headerLen := |header.value| % UINT32;
    if body == None {
      return;
    }
    var totalLen := (headerLen + |body.value| % UINT32) % UINT32;
    hide Serialize;
    WriteFrame(FrameHead(msgID, totalLen, headerLen), header.value, body.value, w);
  }

  lemma HeadWithout(msgID: nat, header: seq<byte>)
    ensures HeadOf(Message(msgID, header, [])) == FrameHead(msgID, |header| % UINT32, |header| % UINT32)
  {
  }

  lemma HeadWith(m: Message, headerLen: nat, totalLen: nat)
    requires headerLen == |m.header| % UINT32 && totalLen == (headerLen + |m.body| % UINT32) % UINT32
    ensures HeadOf(m) == FrameHead(m.msgID, totalLen, headerLen)
  {
  }

  datatype ResultBody = NoResult | Marshalled(bytes: Option<seq<byte>>)

  /** SerializeRsp; without a result the frame has a header and no body. */
  method SerializeRsp(msgID: nat, header: Option<seq<byte>>, result: ResultBody, w: Writer)
    modifies w
    ensures w.out == old(w.out) +
            if header == None || result == Marshalled(None) then []
            else Encode(Message(msgID, header.value, if result.NoResult? then [] else result.bytes.value))
  {
    if header == None {
      return;
    }
    hide Serialize, HeadOf;
    var headerLen := |header.value| % UINT32;
    if result.NoResult? {
      HeadWithout(msgID, header.value);
      WriteFrame(FrameHead(msgID, headerLen, headerLen), header.value, [], w);
      return;
    }
    if result.bytes == None {
      return;
    }
    var totalLen := (headerLen + |result.bytes.value| % UINT32) % UINT32;
    HeadWith(Message(msgID, header.value, result.bytes.value), headerLen, totalLen);
    WriteFrame(FrameHead(msgID, totalLen, headerLen), header.value, result.bytes.value, w);
  }
}
