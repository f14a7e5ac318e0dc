/** Channel and create_channel of srp/session.py: one sender and one receiver over
    one key, in place, proved to take the steps of the system in Session. */
module Channel {
  import opened Basics
  import opened Header
  import opened Suites
  import opened Nonce
  import opened ReceiverSpec
  import opened Session
  import opened Delivery
  import S = Sender
  import R = Receiver

  datatype SessionPolicy = SessionPolicy(recordLimit: int, replayWindow: nat, maxStreams: int, pinSession: bool)

  class Channel {
    const sender: S.Sender
    const receiver: R.Receiver

    /** The two ends share a key, and together satisfy the system's invariant. */
    ghost predicate Valid()
      reads this, sender, sender.nonces, sender.stats, sender.suite
      reads receiver, receiver.stats, receiver.guard, receiver.guard.windows
    {
      && sender.Valid() && receiver.Valid()
      && sender.suite == receiver.suite
      && (receiver.expectedSessionId.None? || receiver.expectedSessionId == Some(sender.sessionId))
      && Inv(Config(), View()) && TrackingOk(Config(), View().receiver.guard)
    }

    ghost function Config(): ReceiverConfig {
      receiver.Config()
    }

    ghost function View(): System
      reads this, sender, sender.nonces, sender.stats, sender.suite, receiver, receiver.stats, receiver.guard
    {
      System([sender.State()], receiver.State(), sender.suite.table)
    }

    /** create_channel, with the key's cipher, the session id and the nonce prefix
        given.  The requirements are those whose violation raises. */
    constructor (suiteId: int, cipher: Cipher, sessionId: Bytes, streamId: int, policy: SessionPolicy,
                 noncePrefix: Bytes, startSeq: int)
      requires suiteId in {0x01, 0x02} && |sessionId| == 16 && |noncePrefix| == 4
      requires 0 <= startSeq && policy.recordLimit > 0 && startSeq + policy.recordLimit <= 0x1_0000_0000_0000_0000
      ensures Valid() && Initial(Config(), View())
      ensures Config() == ReceiverConfig(suiteId, if policy.pinSession then Some(sessionId) else None,
                                         policy.replayWindow, policy.maxStreams)
      ensures sender.State() == S.SenderState(suiteId, sessionId, streamId,
                                              NonceState(noncePrefix, startSeq, policy.recordLimit, 0),
                                              S.SenderTally(0, 0, 0))
    {
      var aead := new IdealAead(suiteId, cipher);
      sender := new S.Sender(aead, sessionId, streamId, noncePrefix, policy.recordLimit, startSeq);
      receiver := new R.Receiver(aead, if policy.pinSession then Some(sessionId) else None,
                                 policy.replayWindow, policy.maxStreams);
      new;
      InitialInv(Config(), View());
    }

    method Send(c: S.Call) returns (r: Result<Bytes, SrpError>)
      requires Valid()
      modifies sender.nonces, sender.stats, sender.suite
      ensures Valid()
      ensures var spec := Step(Config(), sender.suite.cipher, old(View()), Event.Send(0, c));
              && View() == spec.after
              && spec.output == match r { case Success(wire) => Sent(wire) case Failure(error) => SendFailed(error) }
    {
      ghost var before := View();
      StepKeepsInv(Config(), sender.suite.cipher, before, Event.Send(0, c));
      r := sender.Protect(c);
      assert View().senders == before.senders[0 := sender.State()];
    }

    method Deliver(wire: Bytes) returns (v: Verdict)
      requires Valid()
      modifies receiver.stats, receiver.guard, receiver.guard.windows
      ensures Valid()
      ensures var spec := Step(Config(), sender.suite.cipher, old(View()), Event.Deliver(wire));
              View() == spec.after && spec.output == Delivered(v)
      ensures forall w :: w in receiver.guard.windows ==> w in old(receiver.guard.windows) || fresh(w)
    {
      ghost var before := View();
      StepKeepsInv(Config(), sender.suite.cipher, before, Event.Deliver(wire));
      StepKeepsTracking(Config(), sender.suite.cipher, before, Event.Deliver(wire));
      v := receiver.Receive(wire);
    }

    /** Protect, then verify at once.  A payload that cannot be sent raises at the
        sender.  Any other comes back, whatever has been sent and delivered on the
        channel before, exactly if the policy lets the receiver track a stream;
        otherwise its record is refused as stale. */
    method Roundtrip(c: S.Call) returns (r: Result<Verdict, SrpError>)
      requires Valid()
      modifies sender.nonces, sender.stats, sender.suite, receiver.stats, receiver.guard, receiver.guard.windows
      ensures Valid()
      ensures r.Success? <==>
              && |c.payload| <= 0x100_0000 && old(sender.nonces.issued) < sender.nonces.limit
              && 0 <= sender.streamId <= 0xFFFF_FFFF && 0 <= c.recordType.Code() <= 0xFF && 0 <= c.flags <= 0xFF
      ensures r.Success? ==>
                var header := S.HeaderFor(old(sender.State()), c).Canonical();
                r.value == if receiver.guard.maxStreams >= 1 then Acceptance(c.payload, header)
                           else Rejection(STALE_RECORD, Some(header))
      ensures r.Success? ==> (r.value.Accepted() <==> receiver.guard.maxStreams >= 1)
      ensures var sent := Step(Config(), sender.suite.cipher, old(View()), Event.Send(0, c));
              View() == if sent.output.Sent? then
                          Step(Config(), sender.suite.cipher, sent.after, Event.Deliver(sent.output.wire)).after
                        else sent.after
      ensures r.Failure? ==> S.SealCall(old(sender.State()), sender.suite.cipher, c).result == Failure(r.error)
    {
      ghost var before := View();
      var wire :- Send(c);
      LoneRoundTrip(Config(), sender.suite.cipher, before, c);
      var v := Deliver(wire);
      return Success(v);
    }
  }
}
