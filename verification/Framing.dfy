/**
 * Messages on the wire: the header written by `marshalMessage`, the reader of not yet
 * authenticated connections, and their send buffer (game_server/tcp_service.go).
 */
module Framing {
  import opened Basics

  type byte = b: int | 0 <= b < 256

  const HEAD_LEN := 10
  const MAX_BODY_LEN := 10240
  const MAX_RECEIVED_BODY := MAX_BODY_LEN / 2
  const RECV_BUFFER := (MAX_BODY_LEN + HEAD_LEN) * 2
  const SEND_BUFFER := (MAX_BODY_LEN + HEAD_LEN) * 4
  const WAITING_CHANNEL := 128

  // ---------------------------------------------------------------- the header

  datatype Head = Head(messageId: int, bodyLen: int)

  /** A 32-bit unsigned message id and a 32-bit signed body length. */
  predicate HeadOk(h: Head) {
    0 <= h.messageId < 0x1_0000_0000 && -0x8000_0000 <= h.bodyLen < 0x8000_0000
  }

  /** An I32 value: four bytes, least significant first. */
  function I32(x: int): (r: seq<byte>)
    ensures |r| == 4
  {
    [x % 256, x / 256 % 256, x / 256 / 256 % 256, x / 256 / 256 / 256 % 256]
  }

  function FromI32(b: seq<byte>): int
    requires |b| == 4
  {
    b[0] as int + 256 * (b[1] as int) + 65536 * (b[2] as int) + 16777216 * (b[3] as int)
  }

  // field number * 8 + wire type 5
  const TAG_MESSAGE_ID: byte := 0x0D
  const TAG_BODY_LEN: byte := 0x15

  /** Fields holding zero are left out. */
  function MarshalHead(h: Head): seq<byte> {
    (if h.messageId == 0 then [] else [TAG_MESSAGE_ID] + I32(h.messageId))
    + (if h.bodyLen == 0 then [] else [TAG_BODY_LEN] + I32(h.bodyLen))
  }

  /** Reading the two fields in any order; a field read twice keeps its last value. */
  function UnmarshalHead(b: seq<byte>, h: Head): Option<Head>
    decreases |b|
  {
    if b == [] then Some(h)
    else if |b| < 5 then None
    else if b[0] == TAG_MESSAGE_ID then UnmarshalHead(b[5..], h.(messageId := FromI32(b[1..5])))
    else if b[0] == TAG_BODY_LEN then UnmarshalHead(b[5..], h.(bodyLen := ToInt32(FromI32(b[1..5]))))
    else None
  }

  /** Whatever the header, decoding gives it back. */
  lemma HeadRoundTrip(h: Head)
    requires HeadOk(h)
    ensures UnmarshalHead(MarshalHead(h), Head(0, 0)) == Some(h)
  {
    var first := if h.messageId == 0 then [] else [TAG_MESSAGE_ID] + I32(h.messageId);
    var second := if h.bodyLen == 0 then [] else [TAG_BODY_LEN] + I32(h.bodyLen);
    SecondField(h, second);
    if h.messageId != 0 {
      assert (first + second)[1..5] == I32(h.messageId);
      assert (first + second)[5..] == second;
    } else {
      assert first + second == second;
    }
  }

  lemma SecondField(h: Head, second: seq<byte>)
    requires HeadOk(h)
    requires second == if h.bodyLen == 0 then [] else [TAG_BODY_LEN] + I32(h.bodyLen)
    ensures UnmarshalHead(second, Head(h.messageId, 0)) == Some(h)
  {
    if h.bodyLen != 0 {
      assert second[1..5] == I32(h.bodyLen);
      assert second[5..] == [];
      assert UnmarshalHead([], h) == Some(h);
    }
  }

  // ---------------------------------------------------------------- messages

  datatype Message = Message(id: int, body: seq<byte>)

  predicate IdOk(m: Message) { 0 <= m.id < 0x1_0000_0000 }

  /** -1 stands for an empty body, so that the length is never the omitted zero. */
  function HeadOf(m: Message): Head {
    Head(m.id, if m.body == [] then -1 else ToInt32(|m.body|))
  }

  function Frame(m: Message): seq<byte> {
    MarshalHead(HeadOf(m)) + m.body
  }

  /**
   * The header of a message with an id takes exactly ten bytes, unless the length of its body is
   * a non-zero multiple of 2^32, which the 32-bit length field turns into the omitted zero.
   */
  lemma HeaderIsTenBytes(m: Message)
    requires IdOk(m) && m.id != 0
    ensures |MarshalHead(HeadOf(m))| == HEAD_LEN <==> m.body == [] || |m.body| % 0x1_0000_0000 != 0
  {
    if m.body != [] {
      var r := ToInt32(|m.body|);
      if r == 0 {
        assert (|m.body| - 0) % 0x1_0000_0000 == 0;
      }
    }
  }

  /** The number in the four bytes of a stream from `i` on, the least significant first. */
  function Number(s: seq<byte>, i: nat): int
    requires i + 4 <= |s|
  {
    s[i] as int + 256 * (s[i + 1] as int) + 65536 * (s[i + 2] as int) + 16777216 * (s[i + 3] as int)
  }

  lemma DigitsAddUp(x: int)
    ensures 0 <= x ==> Number(I32(x), 0) == x % 0x1_0000_0000
    ensures I32(-1) == [255, 255, 255, 255]
  {
    if 0 <= x {
      var a, b, c := x / 256, x / 256 / 256, x / 256 / 256 / 256;
      assert x == x % 256 + 256 * (a % 256) + 65536 * (b % 256) + 16777216 * c;
      ModUnique(x, 0x1_0000_0000, c / 256, x % 256 + 256 * (a % 256) + 65536 * (b % 256) + 16777216 * (c % 256));
    }
  }

  /**
   * The bytes of a message with an id and a body that 31 bits can count: the id as fixed32 field 1,
   * the length as sfixed32 field 2 (wire type 5), -1 for an empty body, then the body.
   */
  lemma BytesOfFrame(m: Message)
    requires IdOk(m) && m.id != 0 && |m.body| < 0x8000_0000
    ensures var f := Frame(m);
      && |f| == 10 + |m.body| && f[0] == 1 * 8 + 5 && f[5] == 2 * 8 + 5
      && Number(f, 1) == m.id
      && Number(f, 6) == (if m.body == [] then 0xFFFF_FFFF else |m.body|)
      && f[10..] == m.body
  {
    hide I32;
    var len := if m.body == [] then -1 else |m.body|;
    var head := [TAG_MESSAGE_ID] + I32(m.id) + ([TAG_BODY_LEN] + I32(len));
    assert Frame(m) == head + m.body;
    DigitsAddUp(m.id);
    DigitsAddUp(len);
    assert head[1..5] == I32(m.id) && head[6..10] == I32(len);
    assert forall i :: 0 <= i < 4 ==> Frame(m)[1 + i] == I32(m.id)[i] && Frame(m)[6 + i] == I32(len)[i];
    assert |m.body| % 0x1_0000_0000 == |m.body|;
  }

  // ---------------------------------------------------------------- what a byte stream means

  type Unmarshal = seq<byte> -> Option<Head>

  /** Whether the session survives the last of the messages handed out so far. */
  type Verdict = seq<Message> -> bool

  /** Messages handed out, the bytes of a frame not yet complete, and whether reading goes on. */
  datatype Deframed = Deframed(delivered: seq<Message>, rest: seq<byte>, alive: bool)

  function BodyLen(h: Head): nat {
    if h.bodyLen < 0 then 0 else h.bodyLen
  }

  /** Cutting a whole stream into frames, one after the other. */
  function Deframe(s: seq<byte>, delivered: seq<Message>, unmarshal: Unmarshal, verdict: Verdict): Deframed
    decreases |s|
  {
    if |s| < HEAD_LEN then Deframed(delivered, s, true)
    else
      match unmarshal(s[..HEAD_LEN])
      case None => Deframed(delivered, [], false)
      case Some(h) =>
        if h.bodyLen > MAX_RECEIVED_BODY then Deframed(delivered, [], false)
        else if |s| - HEAD_LEN < BodyLen(h) then Deframed(delivered, s, true)
        else
          var more := delivered + [Message(h.messageId, s[HEAD_LEN..HEAD_LEN + BodyLen(h)])];
          if verdict(more) then Deframe(s[HEAD_LEN + BodyLen(h)..], more, unmarshal, verdict)
          else Deframed(more, [], false)
  }

  /** Where a stream is cut into reads does not matter: the unfinished bytes carry everything over. */
  lemma {:induction false} DeframeResumes(s: seq<byte>, t: seq<byte>, delivered: seq<Message>, unmarshal: Unmarshal, verdict: Verdict)
    ensures var r := Deframe(s, delivered, unmarshal, verdict);
      Deframe(s + t, delivered, unmarshal, verdict) ==
        if r.alive then Deframe(r.rest + t, r.delivered, unmarshal, verdict) else r
    decreases |s|
  {
    if |s| >= HEAD_LEN {
      assert (s + t)[..HEAD_LEN] == s[..HEAD_LEN];
      var head := unmarshal(s[..HEAD_LEN]);
      if head.Some? && head.value.bodyLen <= MAX_RECEIVED_BODY && |s| - HEAD_LEN >= BodyLen(head.value) {
        var end := HEAD_LEN + BodyLen(head.value);
        assert (s + t)[HEAD_LEN..end] == s[HEAD_LEN..end];
        assert (s + t)[end..] == s[end..] + t;
        var more := delivered + [Message(head.value.messageId, s[HEAD_LEN..end])];
        if verdict(more) {
          DeframeResumes(s[end..], t, more, unmarshal, verdict);
        }
      }
    }
  }

  function Frames(ms: seq<Message>): seq<byte> {
    if ms == [] then [] else Frame(ms[0]) + Frames(ms[1..])
  }

  predicate Receivable(m: Message) {
    IdOk(m) && m.id != 0 && |m.body| <= 5120
  }

  /** The decoder inverts the encoder. */
  ghost predicate Decodes(unmarshal: Unmarshal) {
    forall h :: HeadOk(h) ==> unmarshal(MarshalHead(h)) == Some(h)
  }

  /** How many messages the session survives, in turn. */
  function Passed(ms: seq<Message>, delivered: seq<Message>, verdict: Verdict): (k: nat)
    ensures k <= |ms|
    ensures forall i :: 0 < i <= k ==> verdict(delivered + ms[..i])
    ensures k < |ms| ==> !verdict(delivered + ms[..k + 1])
  {
    if ms == [] then 0
    else
      assert ms[..1] == [ms[0]];
      var more := delivered + [ms[0]];
      if !verdict(more) then 0
      else
        var k := 1 + Passed(ms[1..], more, verdict);
        FirstMoves(delivered, ms);
        k
  }

  lemma FirstMoves(delivered: seq<Message>, ms: seq<Message>)
    requires ms != []
    ensures forall i :: 0 < i <= |ms| ==> delivered + ms[..i] == delivered + [ms[0]] + ms[1..][..i - 1]
  {
    forall i | 0 < i <= |ms| ensures delivered + ms[..i] == delivered + [ms[0]] + ms[1..][..i - 1] {
      assert ms[..i] == [ms[0]] + ms[1..][..i - 1];
    }
  }

  /** What is handed out of a stream of frames: all messages, or those up to the first that ends the session. */
  function HandedOut(ms: seq<Message>, tail: seq<byte>, delivered: seq<Message>, verdict: Verdict): Deframed {
    var k := Passed(ms, delivered, verdict);
    if k == |ms| then Deframed(delivered + ms, tail, true) else Deframed(delivered + ms[..k + 1], [], false)
  }

  lemma HandedOutNext(ms: seq<Message>, tail: seq<byte>, delivered: seq<Message>, verdict: Verdict)
    requires ms != []
    ensures var more := delivered + [ms[0]];
      HandedOut(ms, tail, delivered, verdict) ==
        if verdict(more) then HandedOut(ms[1..], tail, more, verdict) else Deframed(more, [], false)
  {
    var more := delivered + [ms[0]];
    var k := Passed(ms[1..], more, verdict);
    assert more + ms[1..] == delivered + ms;
    assert ms[..1] == [ms[0]];
    if k < |ms| - 1 { assert more + ms[1..][..k + 1] == delivered + ms[..k + 2]; }
  }

  /**
   * A stream of well-formed frames is cut into exactly the messages it was made of, up to the
   * first, if any, that the session does not survive.
   */
  lemma {:induction false} DeframeFrames(ms: seq<Message>, tail: seq<byte>, delivered: seq<Message>, unmarshal: Unmarshal, verdict: Verdict)
    requires Decodes(unmarshal) && forall m :: m in ms ==> Receivable(m)
    requires |tail| < HEAD_LEN
    ensures Deframe(Frames(ms) + tail, delivered, unmarshal, verdict) == HandedOut(ms, tail, delivered, verdict)
    decreases |ms|
  {
    hide Deframe, Frame, HandedOut;
    if ms == [] {
      assert Frames(ms) + tail == tail;
      DeframeShort(tail, delivered, unmarshal, verdict);
      NothingHandedOut(tail, delivered, verdict);
    } else {
      FirstFrame(ms[0], Frames(ms[1..]) + tail, delivered, unmarshal, verdict);
      assert Frames(ms) + tail == Frame(ms[0]) + (Frames(ms[1..]) + tail);
      HandedOutNext(ms, tail, delivered, verdict);
      if verdict(delivered + [ms[0]]) { DeframeFrames(ms[1..], tail, delivered + [ms[0]], unmarshal, verdict); }
    }
  }

  lemma NothingHandedOut(tail: seq<byte>, delivered: seq<Message>, verdict: Verdict)
    ensures HandedOut([], tail, delivered, verdict) == Deframed(delivered, tail, true)
  {
  }

  lemma DeframeShort(s: seq<byte>, delivered: seq<Message>, unmarshal: Unmarshal, verdict: Verdict)
    requires |s| < HEAD_LEN
    ensures Deframe(s, delivered, unmarshal, verdict) == Deframed(delivered, s, true)
  {
  }

  lemma DeframeBadHead(head: seq<byte>, delivered: seq<Message>, unmarshal: Unmarshal, verdict: Verdict)
    requires |head| == HEAD_LEN
    requires unmarshal(head).None? || unmarshal(head).value.bodyLen > MAX_RECEIVED_BODY
    ensures Deframe(head, delivered, unmarshal, verdict) == Deframed(delivered, [], false)
  {
    assert head[..HEAD_LEN] == head;
  }

  /** A head and as much of its body as has arrived. */
  lemma DeframeBody(head: seq<byte>, body: seq<byte>, delivered: seq<Message>, unmarshal: Unmarshal, verdict: Verdict)
    requires |head| == HEAD_LEN && unmarshal(head).Some? && unmarshal(head).value.bodyLen <= MAX_RECEIVED_BODY
    requires |body| <= BodyLen(unmarshal(head).value)
    ensures var h := unmarshal(head).value;
      var more := delivered + [Message(h.messageId, body)];
      Deframe(head + body, delivered, unmarshal, verdict) ==
        if |body| < BodyLen(h) then Deframed(delivered, head + body, true)
        else Deframed(more, [], verdict(more))
  {
    var s, h := head + body, unmarshal(head).value;
    assert s[..HEAD_LEN] == head && s[HEAD_LEN..] == body;
    if |body| == BodyLen(h) {
      assert s[HEAD_LEN..HEAD_LEN + |body|] == body;
      assert s[HEAD_LEN + |body|..] == [];
      DeframeShort([], delivered + [Message(h.messageId, body)], unmarshal, verdict);
    }
  }

  lemma FirstFrame(m: Message, rest: seq<byte>, delivered: seq<Message>, unmarshal: Unmarshal, verdict: Verdict)
    requires Decodes(unmarshal) && Receivable(m)
    ensures Deframe(Frame(m) + rest, delivered, unmarshal, verdict) ==
      if verdict(delivered + [m]) then Deframe(rest, delivered + [m], unmarshal, verdict)
      else Deframed(delivered + [m], [], false)
  {
    var s, head := Frame(m) + rest, MarshalHead(HeadOf(m));
    HeaderIsTenBytes(m);
    assert HeadOk(HeadOf(m));
    assert s[..HEAD_LEN] == head;
    var end := HEAD_LEN + |m.body|;
    assert BodyLen(HeadOf(m)) == |m.body|;
    assert s[HEAD_LEN..end] == m.body;
    assert s[end..] == rest;
  }

  /** A frame with a body of more than 5120 bytes ends the session, as does a header that cannot be decoded. */
  lemma LongBodyEnds(m: Message, rest: seq<byte>, delivered: seq<Message>, unmarshal: Unmarshal, verdict: Verdict)
    requires Decodes(unmarshal) && IdOk(m) && m.id != 0 && |m.body| < 0x8000_0000
    ensures |m.body| > 5120 ==>
      Deframe(Frame(m) + rest, delivered, unmarshal, verdict) == Deframed(delivered, [], false)
    ensures forall s: seq<byte> :: |s| >= 10 && unmarshal(s[..10]).None? ==>
      Deframe(s, delivered, unmarshal, verdict) == Deframed(delivered, [], false)
  {
    var s, head := Frame(m) + rest, MarshalHead(HeadOf(m));
    HeaderIsTenBytes(m);
    assert s[..HEAD_LEN] == head && HeadOk(HeadOf(m));
  }

  lemma OwnDecoder()
    ensures Decodes(b => UnmarshalHead(b, Head(0, 0)))
  {
    forall h | HeadOk(h)
      ensures UnmarshalHead(MarshalHead(h), Head(0, 0)) == Some(h)
    {
      HeadRoundTrip(h);
    }
  }

  // ---------------------------------------------------------------- the receiving half of a session

  datatype RecvState = RecvHead | RecvBody

  /** The fields of a session that reading uses. */
  class Receiver {
    const unmarshal: Unmarshal
    const verdict: Verdict

    const recvBuffer: array<byte>
    var recvPos: int
    var recvTotal: int
    var recvState: RecvState
    var recvMsgHead: Head
    var recvFlag: bool

    /** The messages handed to their handlers, and whether the session has been dropped. */
    var delivered: seq<Message>
    var removed: bool

    /** Every byte taken from the socket, and the header bytes behind `recvMsgHead`. */
    ghost var consumed: seq<byte>
    ghost var headBytes: seq<byte>

    ghost predicate Valid()
      reads this, recvBuffer
    {
      var r := Deframe(consumed, [], unmarshal, verdict);
      && recvBuffer.Length == 20500
      && delivered == r.delivered
      && (!removed ==> r.alive && Waiting() && r.rest == Unfinished())
    }

    /** Between two turns of the loop: at the start of the buffer, waiting for more of a head or of a body. */
    ghost predicate Waiting()
      reads this
    {
      && recvFlag && recvPos == 0 && 0 <= recvTotal
      && (recvState == RecvHead ==> recvTotal < HEAD_LEN)
      && (recvState == RecvBody ==>
            && |headBytes| == HEAD_LEN && unmarshal(headBytes) == Some(recvMsgHead)
            && recvTotal < recvMsgHead.bodyLen <= MAX_RECEIVED_BODY)
    }

    /** The bytes of the frame being read. */
    ghost function Unfinished(): seq<byte>
      reads this, recvBuffer
    {
      if !(0 <= recvTotal <= recvBuffer.Length) then []
      else if recvState == RecvHead then recvBuffer[..recvTotal]
      else headBytes + recvBuffer[..recvTotal]
    }

    constructor (unmarshal: Unmarshal, verdict: Verdict)
      ensures Valid() && fresh(recvBuffer)
      ensures this.unmarshal == unmarshal && this.verdict == verdict
      ensures consumed == [] && delivered == [] && !removed
    {
      this.unmarshal := unmarshal;
      this.verdict := verdict;
      recvBuffer := new byte[RECV_BUFFER](_ => 0);
      recvPos, recvTotal := 0, 0;
      recvState := RecvHead;
      recvMsgHead := Head(0, 0);
      recvFlag := true;
      delivered := [];
      removed := false;
      consumed := [];
      headBytes := [];
    }

    /** How many bytes one turn asks the socket for. */
    function Wanted(): int
      reads this
    {
      if !recvFlag then 0
      else if recvState == RecvHead then HEAD_LEN - (recvTotal - recvPos)
      else if recvMsgHead.bodyLen > 0 then recvMsgHead.bodyLen - (recvTotal - recvPos)
      else 0
    }

    lemma StillReads()
      requires Valid() && !removed
      ensures Wanted() >= 1
      ensures delivered == Deframe(consumed, [], unmarshal, verdict).delivered
    {
    }

    /** The socket's bytes land behind what is already in the buffer. */
    method Store(arrived: seq<byte>)
      requires 0 <= recvTotal && recvTotal + |arrived| <= recvBuffer.Length
      modifies recvBuffer, this`recvTotal, this`recvFlag
      ensures recvTotal == old(recvTotal) + |arrived|
      ensures recvBuffer[..recvTotal] == old(recvBuffer[..recvTotal]) + arrived
    {
      for i := 0 to |arrived|
        invariant recvTotal == old(recvTotal)
        invariant recvBuffer[..recvTotal + i] == old(recvBuffer[..recvTotal]) + arrived[..i]
      {
        recvBuffer[recvTotal + i] := arrived[i];
      }
      assert arrived[..|arrived|] == arrived;
      if |arrived| > 0 {
        recvFlag := false;
        recvTotal := recvTotal + |arrived|;
      }
    }

    /** A complete head is decoded and the body comes next; false when it cannot be decoded. */
    method FinishHead() returns (ok: bool)
      requires recvState == RecvHead && recvPos == 0 && 0 <= recvTotal <= HEAD_LEN < recvBuffer.Length
      modifies this`recvState, this`recvPos, this`recvTotal, this`recvFlag, this`recvMsgHead, this`headBytes
      ensures recvTotal == old(recvTotal) || recvTotal == 0
      ensures old(recvTotal) < HEAD_LEN ==>
        ok && recvFlag && recvState == RecvHead && recvPos == 0 && recvTotal == old(recvTotal)
      ensures old(recvTotal) == HEAD_LEN ==>
        && ok == unmarshal(recvBuffer[..HEAD_LEN]).Some?
        && (ok ==> recvFlag && recvState == RecvBody && recvPos == 0 && recvTotal == 0
                   && headBytes == recvBuffer[..HEAD_LEN] && unmarshal(headBytes) == Some(recvMsgHead))
    {
      ok := true;
      if recvTotal - recvPos >= HEAD_LEN {
        var head := unmarshal(recvBuffer[recvPos..recvPos + HEAD_LEN]);
        if head.None? {
          ok := false;
        } else {
          recvMsgHead := head.value;
          recvState := RecvBody;
          headBytes := recvBuffer[..HEAD_LEN];
          recvPos, recvTotal := 0, 0;
          recvFlag := true;
        }
      } else {
        recvFlag := true;
      }
    }

    /** A complete body is handed over and the next head comes next; false when the session must go. */
    method FinishBody() returns (ok: bool)
      requires recvState == RecvBody && recvPos == 0 && 0 <= recvTotal <= recvBuffer.Length
      requires |headBytes| == HEAD_LEN && unmarshal(headBytes) == Some(recvMsgHead)
      requires recvMsgHead.bodyLen <= MAX_RECEIVED_BODY ==> recvTotal <= BodyLen(recvMsgHead)
      requires recvMsgHead.bodyLen > MAX_RECEIVED_BODY ==> recvTotal == 0
      modifies this`recvState, this`recvPos, this`recvTotal, this`recvFlag, this`recvMsgHead, this`delivered
      ensures var r := Deframe(old(headBytes + recvBuffer[..recvTotal]), old(delivered), unmarshal, verdict);
        delivered == r.delivered && ok == r.alive && (ok ==> Waiting() && r.rest == Unfinished())
    {
      ghost var body := recvBuffer[..recvTotal];
      if recvMsgHead.bodyLen > MAX_RECEIVED_BODY {
        assert headBytes + body == headBytes;
        DeframeBadHead(headBytes, delivered, unmarshal, verdict);
        return false;
      }
      DeframeBody(headBytes, body, delivered, unmarshal, verdict);
      if recvTotal - recvPos >= recvMsgHead.bodyLen {
        if recvMsgHead.bodyLen < 0 {
          recvMsgHead := recvMsgHead.(bodyLen := 0);
        }
        delivered := delivered + [Message(recvMsgHead.messageId, recvBuffer[recvPos..recvPos + recvMsgHead.bodyLen])];
        ok := verdict(delivered);
        recvState := RecvHead;
        recvPos, recvTotal := 0, 0;
        recvFlag := true;
      } else {
        ok := true;
        recvFlag := true;
      }
    }

    /** Act on what the buffer now holds: `s` is the frame so far, its head included. */
    method Process(ghost s: seq<byte>) returns (ok: bool)
      requires recvBuffer.Length == RECV_BUFFER && recvPos == 0 && 0 <= recvTotal <= recvBuffer.Length
      requires recvState == RecvHead ==> recvTotal <= HEAD_LEN && s == recvBuffer[..recvTotal]
      requires recvState == RecvBody ==>
        && |headBytes| == HEAD_LEN && unmarshal(headBytes) == Some(recvMsgHead)
        && recvTotal <= recvMsgHead.bodyLen <= MAX_RECEIVED_BODY && s == headBytes + recvBuffer[..recvTotal]
      modifies this`recvState, this`recvPos, this`recvTotal, this`recvFlag, this`recvMsgHead, this`headBytes, this`delivered
      ensures var r := Deframe(s, old(delivered), unmarshal, verdict);
        delivered == r.delivered && ok == r.alive && (ok ==> Waiting() && r.rest == Unfinished())
    {
      hide Deframe;
      ok := true;
      if recvState == RecvHead {
        if recvTotal < HEAD_LEN {
          DeframeShort(s, delivered, unmarshal, verdict);
        } else if unmarshal(s).None? {
          DeframeBadHead(s, delivered, unmarshal, verdict);
        }
        ok := FinishHead();
      }
      if ok && recvState == RecvBody {
        assert s == headBytes + recvBuffer[..recvTotal];
        ok := FinishBody();
      }
    }

    /**
     * One turn of the reading half: take what the socket gives, at most what was asked for, then act
     * on a complete head or body. A broken connection ends the session after that.
     */
    method Turn(arrived: seq<byte>, broken: bool)
      requires Valid() && !removed && |arrived| <= Wanted()
      modifies this, recvBuffer
      ensures Valid() && delivered == Deframe(consumed, [], unmarshal, verdict).delivered
      ensures consumed == old(consumed) + arrived
      ensures removed == (broken || !Deframe(consumed, [], unmarshal, verdict).alive)
    {
      hide Deframe;
      ghost var s := Unfinished() + arrived;
      DeframeResumes(consumed, arrived, [], unmarshal, verdict);
      Store(arrived);
      consumed := consumed + arrived;
      assert s == if recvState == RecvHead then recvBuffer[..recvTotal] else headBytes + recvBuffer[..recvTotal];
      var ok := Process(s);
      removed := broken || !ok;
    }
  }

  /**
   * A connection fed a stream of frames, however it is cut into reads: `sizes` says how much the
   * socket gives in each turn, possibly nothing.
   */
  method ReceiveAll(ms: seq<Message>, tail: seq<byte>, sizes: seq<nat>, unmarshal: Unmarshal, verdict: Verdict)
    returns (taken: nat, session: Receiver)
    requires Decodes(unmarshal) && (forall m :: m in ms ==> Receivable(m)) && |tail| < HEAD_LEN
    ensures fresh(session) && session.Valid()
    ensures taken <= |Frames(ms) + tail| && session.consumed == (Frames(ms) + tail)[..taken]
    ensures var all := HandedOut(ms, tail, [], verdict);
      && session.delivered <= all.delivered && (session.removed ==> !all.alive)
      && (session.removed || taken == |Frames(ms) + tail| ==>
            session.delivered == all.delivered && session.removed == !all.alive)
  {
    hide Deframe, Frames, Receiver.Valid, HandedOut;
    var stream := Frames(ms) + tail;
    session := new Receiver(unmarshal, verdict);
    taken := 0;
    StreamPrefix(ms, tail, 0, unmarshal, verdict);
    session.StillReads();
    for i := 0 to |sizes|
      invariant session.Valid() && !session.removed && fresh(session) && fresh(session.recvBuffer)
      invariant session.unmarshal == unmarshal && session.verdict == verdict
      invariant taken <= |stream| && session.consumed == stream[..taken]
      invariant session.delivered == Deframe(stream[..taken], [], unmarshal, verdict).delivered
      invariant Deframe(stream[..taken], [], unmarshal, verdict).alive
    {
      session.StillReads();
      var n: int := sizes[i];
      if n > session.Wanted() { n := session.Wanted(); }
      if n > |stream| - taken { n := |stream| - taken; }
      assert stream[..taken] + stream[taken..taken + n] == stream[..taken + n];
      StreamPrefix(ms, tail, taken + n, unmarshal, verdict);
      session.Turn(stream[taken..taken + n], false);
      taken := taken + n;
      if session.removed {
        return;
      }
    }
    StreamPrefix(ms, tail, taken, unmarshal, verdict);
  }

  /**
   * Any beginning of a stream of frames yields a beginning of what the whole stream yields; a
   * session ends on it only as it ends on the whole stream.
   */
  lemma StreamPrefix(ms: seq<Message>, tail: seq<byte>, n: nat, unmarshal: Unmarshal, verdict: Verdict)
    requires Decodes(unmarshal) && forall m :: m in ms ==> Receivable(m)
    requires |tail| < HEAD_LEN && n <= |Frames(ms) + tail|
    ensures var r, all := Deframe((Frames(ms) + tail)[..n], [], unmarshal, verdict), HandedOut(ms, tail, [], verdict);
      && r.delivered <= all.delivered
      && (!r.alive || n == |Frames(ms) + tail| ==> r.delivered == all.delivered && r.alive == all.alive)
  {
    hide HandedOut, Frames;
    var s := Frames(ms) + tail;
    assert s == s[..n] + s[n..];
    DeframeFrames(ms, tail, [], unmarshal, verdict);
    DeframeResumes(s[..n], s[n..], [], unmarshal, verdict);
    var r := Deframe(s[..n], [], unmarshal, verdict);
    DeframeGrows(r.rest + s[n..], r.delivered, unmarshal, verdict);
    if n == |s| { assert s[..n] == s; }
  }

  /** The messages survived one by one are all handed out. */
  lemma AllHandedOut(ms: seq<Message>, tail: seq<byte>, verdict: Verdict)
    ensures HandedOut(ms, tail, [], verdict).delivered <= ms
    ensures HandedOut(ms, tail, [], verdict).alive <==> forall k :: 0 < k <= |ms| ==> verdict(ms[..k])
    ensures HandedOut(ms, tail, [], verdict).alive ==> HandedOut(ms, tail, [], verdict).delivered == ms
  {
    var p := Passed(ms, [], verdict);
    assert forall k :: 0 <= k <= |ms| ==> [] + ms[..k] == ms[..k];
    assert [] + ms == ms;
  }

  /** C2S_Signin_GameServer */
  const SIGNIN_GAME_SERVER := 2001

  /**
   * While a session is not authenticated each of its messages has to be the sign-in, and every
   * handler has to agree. `authenticated` says whether it is once some messages have been handled.
   */
  function UnauthVerdict(authenticated: Verdict, handled: Verdict): Verdict {
    (d: seq<Message>) => d != [] && (d[|d| - 1].id == SIGNIN_GAME_SERVER || authenticated(d[..|d| - 1])) && handled(d)
  }

  /** So a message other than the sign-in ends a session that is not authenticated by then. */
  lemma OthersEndSession(ms: seq<Message>, tail: seq<byte>, k: nat, authenticated: Verdict, handled: Verdict)
    requires k < |ms| && ms[k].id != 2001 && !authenticated(ms[..k])
    ensures var all := HandedOut(ms, tail, [], UnauthVerdict(authenticated, handled));
      && !all.alive && |all.delivered| <= k + 1
      && ((forall i :: 0 < i <= k ==> UnauthVerdict(authenticated, handled)(ms[..i])) ==> all.delivered == ms[..k + 1])
  {
    var verdict := UnauthVerdict(authenticated, handled);
    assert ms[..k + 1][..k] == ms[..k];
    assert !verdict(ms[..k + 1]);
    assert forall i :: 0 <= i <= |ms| ==> [] + ms[..i] == ms[..i];
    var p := Passed(ms, [], verdict);
  }

  /** Message `k` is the sign-in or comes to an authenticated session, and is handled. */
  predicate InOrder(ms: seq<Message>, k: nat, authenticated: Verdict, handled: Verdict)
    requires k < |ms|
  {
    (ms[k].id == 2001 || authenticated(ms[..k])) && handled(ms[..k + 1])
  }

  lemma InOrderPasses(ms: seq<Message>, k: nat, authenticated: Verdict, handled: Verdict)
    requires 0 < k <= |ms|
    ensures UnauthVerdict(authenticated, handled)(ms[..k]) <==> InOrder(ms, k - 1, authenticated, handled)
  {
    assert ms[..k][..k - 1] == ms[..k - 1];
  }

  /** A session goes on through a stream exactly when each of its messages is in order. */
  lemma SessionGoesOnExactly(ms: seq<Message>, tail: seq<byte>, authenticated: Verdict, handled: Verdict)
    ensures HandedOut(ms, tail, [], UnauthVerdict(authenticated, handled)).alive
      <==> forall k :: 0 <= k < |ms| ==> InOrder(ms, k, authenticated, handled)
  {
    hide HandedOut, UnauthVerdict, InOrder;
    var verdict := UnauthVerdict(authenticated, handled);
    AllHandedOut(ms, tail, verdict);
    forall k | 0 < k <= |ms|
      ensures verdict(ms[..k]) <==> InOrder(ms, k - 1, authenticated, handled)
    {
      InOrderPasses(ms, k, authenticated, handled);
    }
    if forall k :: 0 < k <= |ms| ==> verdict(ms[..k]) {
      forall k | 0 <= k < |ms| ensures InOrder(ms, k, authenticated, handled) {
        assert verdict(ms[..k + 1]);
      }
    }
  }

  lemma {:induction false} DeframeGrows(s: seq<byte>, delivered: seq<Message>, unmarshal: Unmarshal, verdict: Verdict)
    ensures delivered <= Deframe(s, delivered, unmarshal, verdict).delivered
    decreases |s|
  {
    if |s| >= HEAD_LEN {
      var head := unmarshal(s[..HEAD_LEN]);
      if head.Some? && head.value.bodyLen <= MAX_RECEIVED_BODY && |s| - HEAD_LEN >= BodyLen(head.value) {
        var end := HEAD_LEN + BodyLen(head.value);
        var more := delivered + [Message(head.value.messageId, s[HEAD_LEN..end])];
        if verdict(more) {
          DeframeGrows(s[end..], more, unmarshal, verdict);
        }
      }
    }
  }
}
