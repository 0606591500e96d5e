/** The setup dialogue with the nRF8001: messages go out in order, each after an
    encouraging reply to the one before, with bounded patience. */
module AciSetup {
  import opened Bytes

  const NB_SETUP_MESSAGES := 34
  const MAX_WAIT := 0xFF_FFFE
  const ACI_EVT_CMD_RSP: byte := 0x84
  const ACI_STATUS_SUCCESS: byte := 0x00
  const ACI_STATUS_TRANSACTION_CONTINUE: byte := 0x01
  const ACI_STATUS_TRANSACTION_COMPLETE: byte := 0x02

  datatype Result = Success | Timeout | NotSetupEvent | NotCommandResponse

  /** What the device answers, after how many polls that find it not ready. A device that has
      no replies left stays silent. */
  datatype Reply = Reply(wait: nat, opcode: byte, status: byte)

  predicate InTime(r: Reply) { r.wait <= MAX_WAIT }

  /** A reply that makes the host go on to the next message. */
  predicate Encouraging(r: Reply) {
    InTime(r) && r.opcode == ACI_EVT_CMD_RSP
    && (r.status == ACI_STATUS_SUCCESS || r.status == ACI_STATUS_TRANSACTION_CONTINUE)
  }

  /** How many messages were acknowledged in a row. */
  function Acknowledged(replies: seq<Reply>, from: nat): (n: nat)
    ensures from <= NB_SETUP_MESSAGES ==> from + n <= NB_SETUP_MESSAGES
    decreases NB_SETUP_MESSAGES - from
  {
    if from >= NB_SETUP_MESSAGES || from >= |replies| || !Encouraging(replies[from]) then 0
    else 1 + Acknowledged(replies, from + 1)
  }

  /** The reply that breaks the row decides the outcome. */
  function Judge(replies: seq<Reply>): Result {
    var k := Acknowledged(replies, 0);
    if k == NB_SETUP_MESSAGES then Success
    else if k >= |replies| || !InTime(replies[k]) then Timeout
    else if replies[k].opcode != ACI_EVT_CMD_RSP then NotCommandResponse
    else if replies[k].status == ACI_STATUS_TRANSACTION_COMPLETE then Success
    else NotSetupEvent
  }

  function MessagesSent(replies: seq<Reply>): (n: nat)
    ensures 1 <= n <= NB_SETUP_MESSAGES
  {
    var k := Acknowledged(replies, 0);
    if k == NB_SETUP_MESSAGES then k else k + 1
  }

  /** The first `offset` replies were all encouraging. */
  predicate Row(replies: seq<Reply>, offset: nat) {
    offset <= NB_SETUP_MESSAGES && offset + Acknowledged(replies, offset) == Acknowledged(replies, 0)
  }

  lemma RowStarts(replies: seq<Reply>)
    ensures Row(replies, 0)
  {
  }

  lemma RowGrows(replies: seq<Reply>, offset: nat)
    requires Row(replies, offset) && offset < NB_SETUP_MESSAGES && offset < |replies| && Encouraging(replies[offset])
    ensures Row(replies, offset + 1)
  {
    hide Encouraging;
  }

  lemma RowComplete(replies: seq<Reply>)
    requires Row(replies, NB_SETUP_MESSAGES)
    ensures Judge(replies) == Success && MessagesSent(replies) == NB_SETUP_MESSAGES
  {
    hide Encouraging;
  }

  /** The outcome is settled once the row is known to end here. */
  lemma RowEnds(replies: seq<Reply>, offset: nat)
    requires Row(replies, offset) && offset < NB_SETUP_MESSAGES
    requires offset >= |replies| || !Encouraging(replies[offset])
    ensures MessagesSent(replies) == offset + 1
    ensures Judge(replies) == if offset >= |replies| || !InTime(replies[offset]) then Timeout
                              else if replies[offset].opcode != ACI_EVT_CMD_RSP then NotCommandResponse
                              else if replies[offset].status == ACI_STATUS_TRANSACTION_COMPLETE then Success
                              else NotSetupEvent
  {
    hide Encouraging;
  }

  /** Host and device state: what is on its way and what has been sent so far. */
  class Setup {
    const setupMsgs: seq<seq<byte>>
    const replies: seq<Reply>
    var answered: nat
    var polled: nat
    var sent: seq<seq<byte>>

    constructor (setupMsgs: seq<seq<byte>>, replies: seq<Reply>)
      requires |setupMsgs| == NB_SETUP_MESSAGES
      ensures this.setupMsgs == setupMsgs && this.replies == replies
      ensures sent == [] && answered == 0 && polled == 0
    {
      this.setupMsgs := setupMsgs;
      this.replies := replies;
      sent, answered, polled := [], 0, 0;
    }

    method Transfer(message: seq<byte>)
      modifies this`sent
      ensures sent == old(sent) + [message]
    {
      sent := sent + [message];
    }

    /** One look at the ready pin. */
    method GetRdyPin() returns (ready: bool)
      modifies this`polled
      ensures ready <==> answered < |replies| && old(polled) >= replies[answered].wait
      ensures polled == if ready then old(polled) else old(polled) + 1
    {
      ready := answered < |replies| && polled >= replies[answered].wait;
      if !ready { polled := polled + 1; }
    }

    method ReadEvent() returns (r: Reply)
      requires answered < |replies|
      modifies this`answered, this`polled
      ensures r == replies[old(answered)] && answered == old(answered) + 1 && polled == 0
    {
      r := replies[answered];
      answered, polled := answered + 1, 0;
    }

    /** The reaction to a status: next message, end of the row, or refusal. */
    method AciSetupLoop(status: byte, offset: nat) returns (failed: bool, newStatus: byte, newOffset: nat)
      requires offset < NB_SETUP_MESSAGES == |setupMsgs|
      modifies this`sent
      ensures var goesOn := status == ACI_STATUS_SUCCESS || status == ACI_STATUS_TRANSACTION_CONTINUE;
              && newOffset == (if goesOn then offset + 1 else offset)
              && failed == (!goesOn && status != ACI_STATUS_TRANSACTION_COMPLETE)
              && newStatus == (if goesOn && newOffset == NB_SETUP_MESSAGES then ACI_STATUS_TRANSACTION_COMPLETE else status)
              && sent == if goesOn && newOffset < NB_SETUP_MESSAGES then old(sent) + [setupMsgs[newOffset]] else old(sent)
    {
      failed, newStatus, newOffset := false, status, offset;
      if status == ACI_STATUS_SUCCESS || status == ACI_STATUS_TRANSACTION_CONTINUE {
        newOffset := newOffset + 1;
        if newOffset < NB_SETUP_MESSAGES {
          Transfer(setupMsgs[newOffset]);
        } else {
          newStatus := ACI_STATUS_TRANSACTION_COMPLETE;
        }
      } else if status != ACI_STATUS_TRANSACTION_COMPLETE {
        failed := true;
      }
    }

    /** Takes the event that is ready and reacts to it; `done` when the dialogue is over. */
    method HandleEvent(offset: nat) returns (done: bool, result: Result, newOffset: nat)
      requires offset < NB_SETUP_MESSAGES == |setupMsgs|
      requires answered == offset < |replies| && InTime(replies[offset]) && Row(replies, offset)
      requires sent == setupMsgs[..offset + 1]
      modifies this
      ensures done ==> result == Judge(replies) && sent == setupMsgs[..MessagesSent(replies)]
      ensures !done ==> newOffset == offset + 1 < NB_SETUP_MESSAGES && Row(replies, newOffset)
      ensures !done ==> answered == newOffset && polled == 0 && sent == setupMsgs[..newOffset + 1]
    {
      hide Judge, MessagesSent, Row;
      var event := ReadEvent();
      result, newOffset := Success, offset;
      if !Encouraging(event) { RowEnds(replies, offset); } else { RowGrows(replies, offset); }
      if event.opcode != ACI_EVT_CMD_RSP {
        return true, NotCommandResponse, offset;
      }
      var failed, status;
      failed, status, newOffset := AciSetupLoop(event.status, offset);
      if failed {
        return true, NotSetupEvent, offset;
      }
      done := status == ACI_STATUS_TRANSACTION_COMPLETE;
      if done && Encouraging(event) { RowComplete(replies); }
    }

    /** Ends for every device, after sending a first stretch of the messages in order. */
    method DoAciSetup() returns (result: Result)
      requires |setupMsgs| == NB_SETUP_MESSAGES && sent == [] && answered == 0 && polled == 0
      modifies this
      ensures result == Judge(replies)
      ensures sent == setupMsgs[..MessagesSent(replies)]
    {
      hide Judge, MessagesSent, Row;
      var offset, i, done := 0, 0, false;
      result := Success;
      Transfer(setupMsgs[0]);
      RowStarts(replies);
      while !done
        invariant done ==> result == Judge(replies) && sent == setupMsgs[..MessagesSent(replies)]
        invariant !done ==> offset < NB_SETUP_MESSAGES && answered == offset && polled == i <= MAX_WAIT + 1
        invariant !done ==> Row(replies, offset) && sent == setupMsgs[..offset + 1]
        invariant !done && answered < |replies| ==> i <= replies[answered].wait
        decreases !done, NB_SETUP_MESSAGES - offset, MAX_WAIT + 1 - i
      {
        if i > MAX_WAIT {
          RowEnds(replies, offset);
          return Timeout;
        }
        i := i + 1;
        var ready := GetRdyPin();
        if ready {
          done, result, offset := HandleEvent(offset);
          i := 0;
        }
      }
    }
  }

  lemma {:induction false} AcknowledgedRow(replies: seq<Reply>, from: nat)
    requires from <= NB_SETUP_MESSAGES
    ensures var n := Acknowledged(replies, from);
            && (n > 0 ==> from + n <= |replies|)
            && (forall i :: from <= i < from + n ==> Encouraging(replies[i]))
            && (from + n < NB_SETUP_MESSAGES && from + n < |replies| ==> !Encouraging(replies[from + n]))
    decreases NB_SETUP_MESSAGES - from
  {
    if from < NB_SETUP_MESSAGES && from < |replies| && Encouraging(replies[from]) {
      AcknowledgedRow(replies, from + 1);
    }
  }

  /** A reply to go on after: within 0xFFFFFE polls, a command response, success or continue. */
  predicate GoesOn(r: Reply) { r.wait <= 0xFF_FFFE && r.opcode == 0x84 && r.status <= 1 }

  /** The outcome of every dialogue, by the first reply that is not to go on after. */
  lemma OutcomeExact(replies: seq<Reply>, k: nat)
    requires k <= 34 && k <= |replies| && forall i :: 0 <= i < k ==> GoesOn(replies[i])
    requires k == 34 || k == |replies| || !GoesOn(replies[k])
    ensures MessagesSent(replies) == if k == 34 then 34 else k + 1
    ensures Judge(replies) ==
              if k == 34 then Success
              else if k == |replies| || replies[k].wait > 0xFF_FFFE then Timeout
              else if replies[k].opcode != 0x84 then NotCommandResponse
              else if replies[k].status == 2 then Success
              else NotSetupEvent
  {
    AcknowledgedRow(replies, 0);
    assert forall i :: 0 <= i < k ==> Encouraging(replies[i]);
  }

  /** Every message but the first goes out only after an encouraging reply to the one before,
      and no message is sent twice or past the end of the list. */
  lemma SentOnlyAfterReply(replies: seq<Reply>)
    ensures 1 <= MessagesSent(replies) <= NB_SETUP_MESSAGES
    ensures MessagesSent(replies) - 1 <= |replies|
    ensures forall i :: 0 <= i < MessagesSent(replies) - 1 ==> Encouraging(replies[i])
  {
    AcknowledgedRow(replies, 0);
  }

  /** Success does not mean that everything was sent: that is so exactly when all messages but
      the last were acknowledged, and otherwise the device has declared the setup complete
      early. */
  lemma SuccessExact(replies: seq<Reply>)
    requires Judge(replies) == Success
    ensures MessagesSent(replies) == NB_SETUP_MESSAGES <==>
              |replies| >= NB_SETUP_MESSAGES && forall i :: 0 <= i < NB_SETUP_MESSAGES - 1 ==> Encouraging(replies[i])
    ensures MessagesSent(replies) < NB_SETUP_MESSAGES ==>
              var k := MessagesSent(replies) - 1;
              k < |replies| && replies[k].opcode == ACI_EVT_CMD_RSP && replies[k].status == ACI_STATUS_TRANSACTION_COMPLETE
  {
    AcknowledgedRow(replies, 0);
  }

  /** A device that declares the setup complete at once: success after one of the messages. */
  lemma CompleteAtOnce()
    ensures var replies := [Reply(0, ACI_EVT_CMD_RSP, ACI_STATUS_TRANSACTION_COMPLETE)];
            Judge(replies) == Success && MessagesSent(replies) == 1
  {
    var replies := [Reply(0, ACI_EVT_CMD_RSP, ACI_STATUS_TRANSACTION_COMPLETE)];
    RowStarts(replies);
    RowEnds(replies, 0);
  }
}
