/**
 * The sending half of a not yet authenticated session: its queue, the message held back for lack
 * of room, and the buffer drained by partial writes (game_server/tcp_service.go).
 */
module Sending {
  import opened Basics
  import opened Framing

  datatype ConnState = UnAuth | Auth | WaitingForClose | Dead

  /** A message ready to be copied: its header and its body. */
  datatype MsgInfo = MsgInfo(head: seq<byte>, buf: seq<byte>)

  /** Messages without an id are never sent. */
  function MarshalMessage(m: Message): Option<MsgInfo> {
    if m.id == 0 then None else Some(MsgInfo(MarshalHead(HeadOf(m)), m.body))
  }

  /** What one message adds to the wire. */
  function Wire(m: Option<Message>): seq<byte> {
    if m.Some? && m.value.id != 0 then Frame(m.value) else []
  }

  function WireAll(ms: seq<Option<Message>>): seq<byte> {
    if ms == [] then [] else Wire(ms[0]) + WireAll(ms[1..])
  }

  function Held(m: Option<MsgInfo>): seq<byte> {
    if m.Some? then m.value.head + m.value.buf else []
  }

  lemma Regroup(a: seq<byte>, b: seq<byte>, c: seq<byte>, d: seq<byte>)
    ensures a + b + c + d == a + (b + c) + d == a + b + (c + d) == a + (b + (c + d))
  {
  }

  lemma {:induction false} WireAppend(ms: seq<Option<Message>>, m: Option<Message>)
    ensures WireAll(ms + [m]) == WireAll(ms) + Wire(m)
  {
    hide Wire;
    if ms == [] {
      assert ms + [m] == [m];
      assert WireAll([]) == [];
      assert [m][1..] == [];
    } else {
      WireAppend(ms[1..], m);
      assert (ms + [m])[1..] == ms[1..] + [m];
      Regroup([], Wire(ms[0]), WireAll(ms[1..]), Wire(m));
    }
  }

  lemma WireFirst(ms: seq<Option<Message>>)
    requires ms != []
    ensures WireAll(ms) == Wire(ms[0]) + WireAll(ms[1..])
  {
  }

  lemma WireOfHeld(m: Option<Message>)
    ensures Held(if m.Some? then MarshalMessage(m.value) else None) == Wire(m)
  {
  }

  /** What filling copies into the buffer, and the message and queue it leaves. */
  datatype Filled = Filled(bytes: seq<byte>, held: Option<MsgInfo>, queue: seq<Option<Message>>)

  /** Message after message while it fits; a nil or id-less one ends the filling for this turn. */
  function Fill(space: int, held: Option<MsgInfo>, queue: seq<Option<Message>>): Filled
    decreases 2 * |queue| + (if held.Some? then 1 else 0)
  {
    if held.None? && queue == [] then Filled([], None, [])
    else
      var next := if held.None? && queue[0].Some? then MarshalMessage(queue[0].value) else held;
      var rest := if held.None? then queue[1..] else queue;
      if next.None? || |next.value.buf| + |next.value.head| > space then Filled([], next, rest)
      else
        var more := Fill(space - |next.value.head| - |next.value.buf|, None, rest);
        Filled(next.value.head + next.value.buf + more.bytes, more.held, more.queue)
  }

  class Sender {
    const sendBuffer: array<byte>
    var sendPos: int
    var sendTotal: int
    var sendMsg: Option<MsgInfo>
    var chSendingQueue: seq<Option<Message>>
    var connState: ConnState

    /** Everything accepted by PostMessage, and every byte the socket has taken. */
    ghost var posted: seq<Option<Message>>
    ghost var written: seq<byte>

    ghost predicate Valid()
      reads this, sendBuffer
    {
      && sendBuffer.Length == SEND_BUFFER
      && 0 <= sendPos <= sendTotal <= sendBuffer.Length
      && (sendPos == sendTotal ==> sendTotal == 0)
      && |chSendingQueue| <= WAITING_CHANNEL
      && WireAll(posted) == written + Outstanding()
    }

    /** What has been accepted and not yet taken by the socket. */
    ghost function Outstanding(): seq<byte>
      reads this, sendBuffer
      requires 0 <= sendPos <= sendTotal <= sendBuffer.Length
    {
      Pending() + Held(sendMsg) + WireAll(chSendingQueue)
    }

    /** Bytes in the buffer that the socket has not taken yet. */
    ghost function Pending(): seq<byte>
      reads this, sendBuffer
      requires 0 <= sendPos <= sendTotal <= sendBuffer.Length
    {
      sendBuffer[sendPos..sendTotal]
    }

    constructor ()
      ensures Valid() && fresh(sendBuffer) && sendBuffer.Length == 41000
      ensures posted == [] && written == []
    {
      sendBuffer := new byte[SEND_BUFFER](_ => 0);
      sendPos, sendTotal := 0, 0;
      sendMsg := None;
      chSendingQueue := [];
      connState := UnAuth;
      posted, written := [], [];
    }

    /** None stands for the nil posted to wake the writer up. */
    method PostMessage(msg: Option<Message>) returns (ok: bool)
      requires Valid()
      modifies this
      ensures Valid()
      ensures ok == (old(connState) != Dead && old(connState) != WaitingForClose && |old(chSendingQueue)| < 128)
      ensures chSendingQueue == if ok then old(chSendingQueue) + [msg] else old(chSendingQueue)
      ensures posted == if ok then old(posted) + [msg] else old(posted)
      ensures written == old(written)
      ensures connState == if ok || old(connState) == Dead then old(connState) else WaitingForClose
    {
      hide Wire, WireAll, Held;
      if connState == Dead || connState == WaitingForClose {
        return false;
      }
      if |chSendingQueue| >= WAITING_CHANNEL {
        connState := WaitingForClose;
        return false;
      }
      WireAppend(posted, msg);
      WireAppend(chSendingQueue, msg);
      Regroup(written, Pending() + Held(sendMsg), WireAll(chSendingQueue), Wire(msg));
      chSendingQueue := chSendingQueue + [msg];
      posted := posted + [msg];
      return true;
    }

    /** Go's copy into the buffer at `sendTotal`. */
    method Append(bytes: seq<byte>)
      requires 0 <= sendPos <= sendTotal && sendTotal + |bytes| <= sendBuffer.Length
      modifies sendBuffer, this`sendTotal
      ensures sendTotal == old(sendTotal) + |bytes|
      ensures Pending() == old(Pending()) + bytes
    {
      for i := 0 to |bytes|
        invariant sendTotal == old(sendTotal)
        invariant sendBuffer[sendPos..sendTotal + i] == old(Pending()) + bytes[..i]
      {
        sendBuffer[sendTotal + i] := bytes[i];
      }
      assert bytes[..|bytes|] == bytes;
      sendTotal := sendTotal + |bytes|;
    }

    /** Take the next message off the queue if none is held. */
    method TakeNext()
      requires Valid()
      modifies this`sendMsg, this`chSendingQueue
      ensures Valid() && Outstanding() == old(Outstanding())
      ensures old(sendMsg).Some? ==> sendMsg == old(sendMsg) && chSendingQueue == old(chSendingQueue)
      ensures old(sendMsg).None? ==>
        chSendingQueue == if old(chSendingQueue) == [] then [] else old(chSendingQueue)[1..]
      ensures old(sendMsg).None? ==>
        sendMsg == if old(chSendingQueue) != [] && old(chSendingQueue)[0].Some?
                   then MarshalMessage(old(chSendingQueue)[0].value) else None
    {
      hide Wire, WireAll, Held, MarshalMessage;
      if sendMsg.None? && chSendingQueue != [] {
        var msg := chSendingQueue[0];
        WireFirst(chSendingQueue);
        NothingHeld();
        WireOfHeld(msg);
        Regroup(Pending(), [], Wire(msg), WireAll(chSendingQueue[1..]));
        chSendingQueue := chSendingQueue[1..];
        if msg.Some? {
          sendMsg := MarshalMessage(msg.value);
        }
      }
    }

    /** Copy the held message, which fits, into the buffer. */
    method CopyHeld()
      requires Valid() && sendMsg.Some?
      requires |sendMsg.value.buf| + |sendMsg.value.head| <= sendBuffer.Length - sendTotal
      modifies this`sendMsg, this`sendTotal, sendBuffer
      ensures Valid() && Outstanding() == old(Outstanding()) && sendMsg == None
      ensures sendTotal == old(sendTotal + |sendMsg.value.head| + |sendMsg.value.buf|)
      ensures Pending() == old(Pending() + sendMsg.value.head + sendMsg.value.buf)
    {
      hide WireAll;
      Regroup(Pending(), sendMsg.value.head, sendMsg.value.buf, WireAll(chSendingQueue));
      Append(sendMsg.value.head);
      Append(sendMsg.value.buf);
      sendMsg := None;
    }

    /**
     * Copy messages into the buffer until none is left, one is dropped or one does not fit;
     * a message longer than the whole buffer blocks everything behind it.
     */
    method FillBuffer()
      requires Valid()
      modifies this`sendMsg, this`chSendingQueue, this`sendTotal, sendBuffer
      ensures Valid() && Outstanding() == old(Outstanding())
      ensures var f := Fill(sendBuffer.Length - old(sendTotal), old(sendMsg), old(chSendingQueue));
        && Pending() == old(Pending()) + f.bytes && sendTotal == old(sendTotal) + |f.bytes|
        && sendMsg == f.held && chSendingQueue == f.queue
    {
      hide WireAll, MarshalMessage, Wire, Held, Valid, Outstanding, Fill;
      ValidIsInBuffer();
      ghost var before := Pending();
      ghost var goal := Fill(sendBuffer.Length - sendTotal, sendMsg, chSendingQueue);
      ghost var copied := [];
      while true
        invariant Valid() && InBuffer() && Outstanding() == old(Outstanding())
        invariant sendTotal == old(sendTotal) + |copied| && Pending() == before + copied
        invariant Continues(goal, copied, Fill(sendBuffer.Length - sendTotal, sendMsg, chSendingQueue))
        decreases 2 * |chSendingQueue| + (if sendMsg.Some? then 1 else 0)
      {
        ghost var space, held, queue := sendBuffer.Length - sendTotal, sendMsg, chSendingQueue;
        TakeNext();
        FillStarts(space, held, queue, sendMsg, chSendingQueue);
        if sendMsg.None? || |sendMsg.value.buf| + |sendMsg.value.head| > sendBuffer.Length - sendTotal {
          break;
        }
        ghost var bytes := sendMsg.value.head + sendMsg.value.buf;
        CopyHeld();
        ValidIsInBuffer();
        OneCopied(goal, copied, bytes, Fill(space, held, queue), Fill(sendBuffer.Length - sendTotal, None, chSendingQueue));
        assert before + copied + bytes == before + (copied + bytes);
        copied := copied + bytes;
      }
    }

    ghost predicate InBuffer()
      reads this
    {
      0 <= sendPos <= sendTotal <= sendBuffer.Length
    }

    lemma ValidIsInBuffer()
      requires Valid()
      ensures InBuffer()
    {
    }

    lemma NothingHeld()
      requires sendMsg.None?
      ensures Held(sendMsg) == []
    {
    }

    /** The socket takes some of the pending bytes. */
    method Write(took: nat)
      requires Valid() && 0 < took <= sendTotal - sendPos
      modifies this`sendTotal, this`sendPos, this`written
      ensures Valid()
      ensures written == old(written) + old(Pending())[..took] && Pending() == old(Pending())[took..]
    {
      hide WireAll, MarshalMessage, Held;
      ghost var sent, left := Pending()[..took], Pending()[took..];
      assert Pending() == sent + left;
      MoveOver(written, sent, left, Held(sendMsg), WireAll(chSendingQueue));
      written := written + sent;
      sendPos := sendPos + took;
      if sendPos >= sendTotal {
        sendPos, sendTotal := 0, 0;
      }
      assert Pending() == left;
    }

    /**
     * One turn of the writing half; the socket takes at most `n` bytes of what is pending, possibly
     * none. The buffer is emptied to its front once everything in it is taken.
     */
    method Turn(n: nat)
      requires Valid()
      modifies this`sendMsg, this`chSendingQueue, this`sendTotal, this`sendPos, this`written, sendBuffer
      ensures Valid() && WireAll(posted) == written + Outstanding()
      ensures var f := Fill(sendBuffer.Length - old(sendTotal), old(sendMsg), old(chSendingQueue));
        var pending := old(Pending()) + f.bytes;
        var took := if n <= |pending| then n else |pending|;
        && written == old(written) + pending[..took] && Pending() == pending[took..]
        && sendMsg == f.held && chSendingQueue == f.queue
      ensures n >= SEND_BUFFER ==> Pending() == []
    {
      hide WireAll, MarshalMessage, Held, Fill;
      FillBuffer();
      if sendPos < sendTotal {
        var took := if n <= sendTotal - sendPos then n else sendTotal - sendPos;
        if took > 0 {
          Write(took);
        }
      }
    }

    /** Messages not yet in the buffer. */
    ghost function Waiting(): nat
      reads this
    {
      Left(sendMsg, chSendingQueue)
    }

    /**
     * A socket that takes whatever it is given: every turn but the first brings at least one more
     * message out, so with messages no longer than the buffer all are soon written.
     */
    method RunTurns(takes: seq<nat>)
      requires Valid() && AllFit(sendMsg, chSendingQueue)
      requires forall i :: 0 <= i < |takes| ==> takes[i] >= SEND_BUFFER
      modifies this`sendMsg, this`chSendingQueue, this`sendTotal, this`sendPos, this`written, sendBuffer
      ensures Valid()
      ensures |takes| > old(Waiting()) ==> Outstanding() == [] && written == WireAll(posted)
    {
      hide WireAll, Held, Wire, MarshalMessage, Fill, AllFit, Left;
      for i := 0 to |takes|
        invariant Valid() && AllFit(sendMsg, chSendingQueue)
        invariant i == 0 ==> Waiting() == old(Waiting())
        invariant i > 0 ==> Pending() == [] && (Waiting() == 0 || Waiting() + i <= old(Waiting()) + 1)
      {
        EmptyIsReset();
        ghost var space, held, queue := sendBuffer.Length - sendTotal, sendMsg, chSendingQueue;
        FillLeaves(space, held, queue);
        Turn(takes[i]);
        assert Waiting() == Left(Fill(space, held, queue).held, Fill(space, held, queue).queue);
      }
      if |takes| > old(Waiting()) {
        NothingLeft(sendMsg, chSendingQueue);
      }
    }

    lemma EmptyIsReset()
      requires Valid()
      ensures sendBuffer.Length == SEND_BUFFER && (Pending() == [] ==> sendTotal == 0)
    {
    }

    /**
     * End to end: if every message posted so far can be received, a reader of what the socket has
     * taken, wherever it was cut, has been handed a beginning of exactly those messages; and once
     * nothing is outstanding all of them, or those up to the first that ends its session.
     */
    lemma ReaderSeesPosted(ms: seq<Message>, unmarshal: Unmarshal, verdict: Verdict)
      requires Valid() && posted == Posts(ms)
      requires Decodes(unmarshal) && forall m :: m in ms ==> Receivable(m)
      ensures var r := Deframe(written, [], unmarshal, verdict);
        && r.delivered <= ms
        && ((forall k :: 0 < k <= |ms| ==> verdict(ms[..k])) ==> r.alive)
        && (Outstanding() == [] || !r.alive ==> r.delivered == HandedOut(ms, [], [], verdict).delivered)
    {
      WireOfPosts(ms);
      assert Frames(ms) + [] == Frames(ms);
      hide Deframe, Frames, WireAll, HandedOut;
      assert written == (Frames(ms) + [])[..|written|];
      StreamPrefix(ms, [], |written|, unmarshal, verdict);
      AllHandedOut(ms, [], verdict);
    }
  }

  ghost predicate Copied(space: int, held: Option<MsgInfo>, queue: seq<Option<Message>>, f: Filled, k: nat) {
    && k <= |queue|
    && (forall i :: 0 <= i < k ==> queue[i].Some? && queue[i].value.id != 0)
    && f.bytes == Held(held) + WireAll(queue[..k]) && |f.bytes| <= space
  }

  /** Why filling ends behind `k` messages, and what it leaves then. */
  ghost predicate Ends(space: int, queue: seq<Option<Message>>, f: Filled, k: nat)
    requires k <= |queue|
  {
    if k == |queue| then f.held == None && f.queue == []
    else if queue[k].None? || queue[k].value.id == 0 then f.held == None && f.queue == queue[k + 1..]
    else |f.bytes| + |Wire(queue[k])| > space && f.held == MarshalMessage(queue[k].value) && f.queue == queue[k + 1..]
  }

  lemma FillHeld(space: int, m: MsgInfo, queue: seq<Option<Message>>)
    ensures |Held(Some(m))| > space ==> Fill(space, Some(m), queue) == Filled([], Some(m), queue)
    ensures |Held(Some(m))| <= space ==>
      var more := Fill(space - |Held(Some(m))|, None, queue);
      Fill(space, Some(m), queue) == Filled(Held(Some(m)) + more.bytes, more.held, more.queue)
  {
  }

  lemma FillFirst(space: int, first: Option<Message>, rest: seq<Option<Message>>)
    ensures var next := if first.Some? then MarshalMessage(first.value) else None;
      Fill(space, None, [first] + rest) ==
        if next.None? || |Held(next)| > space then Filled([], next, rest) else Fill(space, next, rest)
  {
    hide MarshalMessage;
    var next := if first.Some? then MarshalMessage(first.value) else None;
    assert ([first] + rest)[1..] == rest;
    if next.Some? { FillHeld(space, next.value, rest); }
  }

  lemma FillNothing(space: int)
    ensures Fill(space, None, []) == Filled([], None, []) && Held(None) == [] && WireAll([]) == []
  {
  }

  lemma CopiedFirst(space: int, first: Option<Message>, rest: seq<Option<Message>>, f: Filled, k: nat)
    requires first.Some? && first.value.id != 0
    requires Copied(space, MarshalMessage(first.value), rest, f, k) && Ends(space, rest, f, k)
    ensures Copied(space, None, [first] + rest, f, k + 1) && Ends(space, [first] + rest, f, k + 1)
  {
    hide MarshalMessage, Wire;
    var queue := [first] + rest;
    WireOfHeld(first);
    FillNothing(space);
    assert queue[..k + 1] == [first] + rest[..k];
    WireFirst(queue[..k + 1]);
    assert queue[..k + 1][1..] == rest[..k];
    assert [] + WireAll(queue[..k + 1]) == WireAll(queue[..k + 1]);
  }

  lemma CopiedHeld(space: int, m: MsgInfo, queue: seq<Option<Message>>, more: Filled, k: nat)
    requires |Held(Some(m))| <= space
    requires Copied(space - |Held(Some(m))|, None, queue, more, k) && Ends(space - |Held(Some(m))|, queue, more, k)
    ensures var f := Filled(Held(Some(m)) + more.bytes, more.held, more.queue);
      Copied(space, Some(m), queue, f, k) && Ends(space, queue, f, k)
  {
    hide Wire, WireAll, MarshalMessage;
    FillNothing(space);
    assert [] + WireAll(queue[..k]) == WireAll(queue[..k]);
  }

  lemma MarshalsExactly(m: Option<Message>)
    ensures m.Some? ==> (MarshalMessage(m.value).None? <==> m.value.id == 0)
    ensures Held(if m.Some? then MarshalMessage(m.value) else None) == Wire(m)
  {
  }

  lemma StopsAtFirst(space: int, first: Option<Message>, rest: seq<Option<Message>>)
    requires 0 <= space
    requires var next := if first.Some? then MarshalMessage(first.value) else None;
      next.None? || |Held(next)| > space
    ensures var f := Filled([], if first.Some? then MarshalMessage(first.value) else None, rest);
      Copied(space, None, [first] + rest, f, 0) && Ends(space, [first] + rest, f, 0)
  {
    hide Wire;
    MarshalsExactly(first);
    FillNothing(space);
    assert ([first] + rest)[..0] == [] && ([first] + rest)[1..] == rest;
  }

  /**
   * Filling copies the held message and then those queued up to the first that is nil, has no id
   * or does not fit any more; only the one that does not fit is held. A held message that does not
   * fit blocks everything.
   */
  lemma {:induction false} FillsExactly(space: int, held: Option<MsgInfo>, queue: seq<Option<Message>>) returns (k: nat)
    requires 0 <= space
    ensures |Held(held)| > space ==> Fill(space, held, queue) == Filled([], held, queue)
    ensures |Held(held)| <= space ==>
      var f := Fill(space, held, queue);
      Copied(space, held, queue, f, k) && Ends(space, queue, f, k)
    decreases 2 * |queue| + (if held.Some? then 1 else 0)
  {
    k := 0;
    FillNothing(space);
    if held.Some? {
      FillHeld(space, held.value, queue);
      hide MarshalMessage, Wire, WireAll, Fill, Held, Copied, Ends;
      if |Held(held)| <= space {
        k := FillsExactly(space - |Held(held)|, None, queue);
        CopiedHeld(space, held.value, queue, Fill(space - |Held(held)|, None, queue), k);
      }
    } else if queue != [] {
      var first, rest := queue[0], queue[1..];
      assert queue == [first] + rest;
      FillFirst(space, first, rest);
      MarshalsExactly(first);
      hide MarshalMessage, Wire, WireAll, Fill, Copied, Ends, Held;
      var next := if first.Some? then MarshalMessage(first.value) else None;
      if next.Some? && |Held(next)| <= space {
        k := FillsExactly(space, next, rest);
        CopiedFirst(space, first, rest, Fill(space, next, rest), k);
        k := k + 1;
      } else {
        StopsAtFirst(space, first, rest);
      }
    }
  }

  function Left(held: Option<MsgInfo>, queue: seq<Option<Message>>): nat {
    |queue| + (if held.Some? then 1 else 0)
  }

  /** No message is longer than the buffer. */
  ghost predicate AllFit(held: Option<MsgInfo>, queue: seq<Option<Message>>) {
    && |Held(held)| <= SEND_BUFFER
    && forall i :: 0 <= i < |queue| ==> |Wire(queue[i])| <= SEND_BUFFER
  }

  /** Filling an empty buffer takes at least one message; filling never adds any. */
  lemma {:induction false} FillLeaves(space: int, held: Option<MsgInfo>, queue: seq<Option<Message>>)
    requires AllFit(held, queue)
    ensures var f := Fill(space, held, queue);
      && AllFit(f.held, f.queue) && Left(f.held, f.queue) <= Left(held, queue)
      && (space >= SEND_BUFFER && Left(held, queue) > 0 ==> Left(f.held, f.queue) < Left(held, queue))
    decreases 2 * |queue| + (if held.Some? then 1 else 0)
  {
    hide Wire, MarshalMessage;
    if held.None? && queue != [] {
      WireOfHeld(queue[0]);
    }
    if held.Some? || queue != [] {
      var next := if held.None? && queue[0].Some? then MarshalMessage(queue[0].value) else held;
      var rest := if held.None? then queue[1..] else queue;
      if next.Some? && |next.value.buf| + |next.value.head| <= space {
        FillLeaves(space - |next.value.head| - |next.value.buf|, None, rest);
      }
    }
  }

  lemma NothingLeft(held: Option<MsgInfo>, queue: seq<Option<Message>>)
    ensures Left(held, queue) == 0 ==> Held(held) == [] && WireAll(queue) == []
  {
  }

  /** Filling so far, then the rest. */
  ghost predicate Continues(goal: Filled, copied: seq<byte>, rest: Filled) {
    goal == Filled(copied + rest.bytes, rest.held, rest.queue)
  }

  lemma FillStarts(space: int, held: Option<MsgInfo>, queue: seq<Option<Message>>, next: Option<MsgInfo>, rest: seq<Option<Message>>)
    requires held.Some? ==> next == held && rest == queue
    requires held.None? ==> rest == (if queue == [] then [] else queue[1..])
    requires held.None? ==> next == if queue != [] && queue[0].Some? then MarshalMessage(queue[0].value) else None
    ensures Fill(space, held, queue) ==
      if next.None? || |next.value.buf| + |next.value.head| > space then Filled([], next, rest)
      else
        var more := Fill(space - |next.value.head| - |next.value.buf|, None, rest);
        Filled(next.value.head + next.value.buf + more.bytes, more.held, more.queue)
  {
    hide MarshalMessage;
  }

  lemma OneCopied(goal: Filled, copied: seq<byte>, bytes: seq<byte>, now: Filled, more: Filled)
    requires Continues(goal, copied, now) && now == Filled(bytes + more.bytes, more.held, more.queue)
    ensures Continues(goal, copied + bytes, more)
  {
    assert copied + (bytes + more.bytes) == copied + bytes + more.bytes;
  }

  function Posts(ms: seq<Message>): seq<Option<Message>> {
    if ms == [] then [] else [Some(ms[0])] + Posts(ms[1..])
  }

  lemma {:induction false} WireOfPosts(ms: seq<Message>)
    requires forall m :: m in ms ==> m.id != 0
    ensures WireAll(Posts(ms)) == Frames(ms)
  {
    hide Frame;
    if ms != [] {
      WireOfPosts(ms[1..]);
      assert Posts(ms)[1..] == Posts(ms[1..]);
    }
  }

  lemma MoveOver(w: seq<byte>, sent: seq<byte>, left: seq<byte>, h: seq<byte>, q: seq<byte>)
    ensures w + ((sent + left) + h + q) == (w + sent) + (left + h + q)
  {
    Regroup(w, sent, left, h + q);
  }
}
