/** Delivery holds in every run exactly for deployments: for each clause of
    `Deployed` that a configuration breaks, a run that loses a record. */
module Necessity {
  import opened Basics
  import opened Header
  import opened Suites
  import opened Nonce
  import opened Sender
  import opened ReplaySpec
  import opened ReceiverSpec
  import opened Session
  import opened EndToEnd
  import opened Delivery

  /** In every run, every wire that is due is accepted with its payload. */
  ghost predicate Delivers(cfg: ReceiverConfig, cipher: Cipher, sys: System)
    requires SendersValid(sys)
  {
    forall evs: seq<Event>, j: nat, wire: Bytes ::
      Due(cfg, cipher, sys, evs, j, wire) ==> Returns(cfg, cipher, sys, evs, j, wire)
  }

  // ---- A record sent now is due ----

  /** Nothing sealed on the stream of sender i is `window` or more ahead of it. */
  ghost predicate NotOvertaken(cfg: ReceiverConfig, sys: System, i: nat)
    requires i < |sys.senders|
  {
    forall e :: e in sys.table && |e.aad| == HEADER_LEN && KeyOf(HeaderOf(e)) == StreamOfSender(sys.senders[i])
                ==> HeaderOf(e).seqNo - sys.senders[i].nonces.Next() < cfg.window
  }

  /** What sending the empty payload does. */
  ghost predicate SendsPlain(sys: System, i: nat, r: Reaction, e: SealEntry)
    requires i < |sys.senders|
  {
    var s := sys.senders[i];
    && r.output == Sent(WireOf(e))
    && r.after.table == sys.table + [e] && r.after.receiver == sys.receiver
    && |r.after.senders| == |sys.senders|
    && r.after.senders == sys.senders[i := r.after.senders[i]]
    && r.after.senders[i].(nonces := s.nonces, stats := s.stats) == s
    && r.after.senders[i].nonces == s.nonces.(issued := s.nonces.issued + 1)
    && |e.aad| == HEADER_LEN && e.plaintext == []
    && KeyOf(HeaderOf(e)) == StreamOfSender(s) && HeaderOf(e).seqNo == s.nonces.Next()
  }

  lemma PlainIsSent(cfg: ReceiverConfig, cipher: Cipher, sys: System, i: nat) returns (e: SealEntry)
    requires SendersValid(sys) && i < |sys.senders| && CanSend(sys.senders[i])
    ensures SendsPlain(sys, i, Step(cfg, cipher, sys, Send(i, PLAIN)), e)
    ensures Honest(e, sys.senders[i].suiteId)
  {
    var r := SealedBy(sys, cipher, i, PLAIN);
    CanSendIffSendable(sys.senders[i]);
    SendFacts(sys.senders[i], cipher, PLAIN);
    e := r.entries[0];
    assert r.entries == [e];
  }

  /** The wire just sent was not accepted earlier in the run. */
  lemma NotYetAccepted(cfg: ReceiverConfig, cipher: Cipher, sys: System, evs: seq<Event>, i: nat, wire: Bytes)
    requires Initial(cfg, sys) && 0 < |evs| && Run(cfg, cipher, sys, evs)[|evs| - 1].output == Sent(wire)
    requires i < |evs|
    ensures !AcceptedWire(evs, Run(cfg, cipher, sys, evs), i, wire)
  {
    if AcceptedWire(evs, Run(cfg, cipher, sys, evs), i, wire) {
      Agreement(cfg, cipher, sys, evs, i);
    }
  }

  /** Nothing sent so far on its stream is too far ahead. */
  lemma SentNotAhead(
    cfg: ReceiverConfig, cipher: Cipher, sys: System, evs: seq<Event>, i: nat, j: nat, key: StreamKey, x: int)
    requires Initial(cfg, sys) && i < |SystemAt(cfg, cipher, sys, evs, |evs|).senders|
    requires NotOvertaken(cfg, SystemAt(cfg, cipher, sys, evs, |evs|), i)
    requires key == StreamOfSender(SystemAt(cfg, cipher, sys, evs, |evs|).senders[i])
    requires j < |evs| && Run(cfg, cipher, sys, evs)[j].output.Sent?
    requires CarriesNumber(Run(cfg, cipher, sys, evs)[j].output.wire, key, x)
    ensures x - SystemAt(cfg, cipher, sys, evs, |evs|).senders[i].nonces.Next() < cfg.window
  {
    InitialInv(cfg, sys);
    var f := SentEntry(cfg, cipher, sys, evs, j, |evs|);
  }

  lemma WithinSoFar(cfg: ReceiverConfig, cipher: Cipher, sys: System, evs: seq<Event>, i: nat, wire: Bytes)
    requires Initial(cfg, sys) && i < |SystemAt(cfg, cipher, sys, evs, |evs|).senders|
    requires NotOvertaken(cfg, SystemAt(cfg, cipher, sys, evs, |evs|), i)
    requires var s := SystemAt(cfg, cipher, sys, evs, |evs|).senders[i];
             ParseRecord(wire).Success? && CarriesNumber(wire, StreamOfSender(s), s.nonces.Next())
    ensures WithinWindow(cfg, evs, Run(cfg, cipher, sys, evs), |evs|, wire)
  {
    var h, rs := ParseRecord(wire).value.header, Run(cfg, cipher, sys, evs);
    forall j: nat, x: int | j < |evs| && rs[j].output.Sent? && CarriesNumber(rs[j].output.wire, KeyOf(h), x)
      ensures x - h.seqNo < cfg.window
    {
      SentNotAhead(cfg, cipher, sys, evs, i, j, KeyOf(h), x);
    }
  }

  /** Sending the wire itself puts nothing ahead of it. */
  lemma WithinSnoc(
    cfg: ReceiverConfig, evs: seq<Event>, rs: seq<Reaction>, ev: Event, r: Reaction, wire: Bytes)
    requires |evs| == |rs| && ParseRecord(wire).Success? && r.output == Sent(wire) && 0 < cfg.window
    requires WithinWindow(cfg, evs, rs, |evs|, wire)
    ensures WithinWindow(cfg, evs + [ev], rs + [r], |evs| + 1, wire)
  {
    var h := ParseRecord(wire).value.header;
    forall j: nat, x: int | j < |evs| + 1 && (rs + [r])[j].output.Sent?
                            && CarriesNumber((rs + [r])[j].output.wire, KeyOf(h), x)
      ensures x - h.seqNo < cfg.window
    {
      if j < |evs| {
        assert (rs + [r])[j] == rs[j];
      }
    }
  }

  /** So the wire is due. */
  lemma SendIsDue(cfg: ReceiverConfig, cipher: Cipher, sys: System, evs: seq<Event>, i: nat) returns (e: SealEntry)
    requires Initial(cfg, sys) && 0 < cfg.window
    requires var here := SystemAt(cfg, cipher, sys, evs, |evs|);
             i < |here.senders| && CanSend(here.senders[i]) && NotOvertaken(cfg, here, i)
    ensures var here := SystemAt(cfg, cipher, sys, evs, |evs|);
            SendsPlain(here, i, Step(cfg, cipher, here, Send(i, PLAIN)), e)
    ensures Due(cfg, cipher, sys, evs + [Send(i, PLAIN)], |evs|, WireOf(e))
  {
    var evs' := evs + [Send(i, PLAIN)];
    InitialInv(cfg, sys);
    Reachable(cfg, cipher, sys, evs, |evs|);
    e := PlainIsSent(cfg, cipher, SystemAt(cfg, cipher, sys, evs, |evs|), i);
    HonestWireParses(e, cfg.suiteId);
    WithinSoFar(cfg, cipher, sys, evs, i, WireOf(e));
    RunSnoc(cfg, cipher, sys, evs, Send(i, PLAIN));
    WithinSnoc(cfg, evs, Run(cfg, cipher, sys, evs), Send(i, PLAIN),
               Step(cfg, cipher, SystemAt(cfg, cipher, sys, evs, |evs|), Send(i, PLAIN)), WireOf(e));
    forall k: nat | k < |evs'| ensures !AcceptedWire(evs', Run(cfg, cipher, sys, evs'), k, WireOf(e)) {
      NotYetAccepted(cfg, cipher, sys, evs', k, WireOf(e));
    }
  }

  // ---- What delivery says about that record ----

  /** The system after sender i's record was sent and accepted: its session is
      admitted, its number was new and is recorded, and nothing else moved. */
  ghost predicate SentAndAccepted(cfg: ReceiverConfig, sys: System, i: nat, after: System)
    requires i < |sys.senders|
  {
    var s, g, h := sys.senders[i], sys.receiver.guard, after.receiver.guard;
    var key := StreamOfSender(s);
    && (cfg.expected.None? || s.sessionId == cfg.expected.value)
    && s.nonces.Next() >= 0 && s.nonces.Next() !in RecordedOn(g, key)
    && h == g[key := RecordedOn(g, key) + {s.nonces.Next()}]
    && |after.senders| == |sys.senders|
    && (forall k :: 0 <= k < |sys.senders| && k != i ==> after.senders[k] == sys.senders[k])
    && |after.table| == |sys.table| + 1 && after.table[..|sys.table|] == sys.table
    && var e := after.table[|sys.table|];
       |e.aad| == HEADER_LEN && KeyOf(HeaderOf(e)) == key && HeaderOf(e).seqNo == s.nonces.Next()
  }

  lemma AcceptedPlain(cfg: ReceiverConfig, cipher: Cipher, sys: System, i: nat, r: Reaction, e: SealEntry)
    requires SendersValid(r.after) && i < |sys.senders| && SendsPlain(sys, i, r, e)
    requires VerdictOn(cfg, r.after, WireOf(e)) == Acceptance([], HeaderOf(e))
    ensures SentAndAccepted(cfg, sys, i, Step(cfg, cipher, r.after, Deliver(WireOf(e))).after)
  {
    var x := Presented(cfg, r.after, WireOf(e));
    AcceptedStep(cfg, r.after.receiver, x);
    assert SessionMatches(cfg, x.header);
    assert x.header == HeaderOf(e);
  }

  /** If delivery holds, a sender that can send and is not overtaken gets its next
      record accepted. */
  lemma SendThenAccept(cfg: ReceiverConfig, cipher: Cipher, sys: System, evs: seq<Event>, i: nat)
    returns (evs': seq<Event>)
    requires Initial(cfg, sys) && 0 < cfg.window && Delivers(cfg, cipher, sys)
    requires var here := SystemAt(cfg, cipher, sys, evs, |evs|);
             i < |here.senders| && CanSend(here.senders[i]) && NotOvertaken(cfg, here, i)
    ensures SentAndAccepted(cfg, SystemAt(cfg, cipher, sys, evs, |evs|), i, SystemAt(cfg, cipher, sys, evs', |evs'|))
  {
    var here, sent := SystemAt(cfg, cipher, sys, evs, |evs|), evs + [Send(i, PLAIN)];
    var e := SendIsDue(cfg, cipher, sys, evs, i);
    assert Returns(cfg, cipher, sys, sent, |evs|, WireOf(e));
    var e' := DueEntry(cfg, cipher, sys, sent, |evs|, WireOf(e));
    RunSnocAt(cfg, cipher, sys, evs, Send(i, PLAIN));
    evs' := sent + [Deliver(WireOf(e))];
    RunSnocAt(cfg, cipher, sys, sent, Deliver(WireOf(e)));
    assert e.aad == WireOf(e)[..HEADER_LEN] && e'.aad == WireOf(e')[..HEADER_LEN];
    AcceptedPlain(cfg, cipher, here, i, Step(cfg, cipher, here, Send(i, PLAIN)), e);
  }

  // ---- Clause 1: admitted sessions ----

  lemma SessionsMustBeAdmitted(cfg: ReceiverConfig, cipher: Cipher, sys: System, i: nat)
    requires Initial(cfg, sys) && 0 < cfg.window && Delivers(cfg, cipher, sys)
    requires i < |sys.senders| && CanSend(sys.senders[i])
    ensures cfg.expected.None? || sys.senders[i].sessionId == cfg.expected.value
  {
    var evs := SendThenAccept(cfg, cipher, sys, [], i);
  }

  // ---- Clause 2: numbers apart on a shared stream ----

  /** A call that spends a number and yields no record: the flags do not fit. */
  const WASTE := Call([], DATA, 256)

  function Wasted(s: SenderState, n: nat): SenderState {
    s.(nonces := s.nonces.(issued := s.nonces.issued + n))
  }

  lemma WasteStep(cfg: ReceiverConfig, cipher: Cipher, sys: System, i: nat)
    requires SendersValid(sys) && i < |sys.senders| && CanSend(sys.senders[i])
    ensures Step(cfg, cipher, sys, Send(i, WASTE)).after
            == sys.(senders := sys.senders[i := Wasted(sys.senders[i], 1)])
  {
    assert sys.table + [] == sys.table;
  }

  /** A sender can skip any of the numbers it has left. */
  lemma {:induction false} Skip(cfg: ReceiverConfig, cipher: Cipher, sys: System, i: nat, n: nat)
    returns (evs: seq<Event>)
    requires SendersValid(sys) && i < |sys.senders| && 0 <= sys.senders[i].streamId <= MAX_U32
    requires sys.senders[i].nonces.issued + n <= sys.senders[i].nonces.limit
    ensures SystemAt(cfg, cipher, sys, evs, |evs|) == sys.(senders := sys.senders[i := Wasted(sys.senders[i], n)])
  {
    if n == 0 {
      evs := [];
      assert sys.senders[i := sys.senders[i]] == sys.senders;
    } else {
      var before := Skip(cfg, cipher, sys, i, n - 1);
      var here := SystemAt(cfg, cipher, sys, before, |before|);
      WasteStep(cfg, cipher, here, i);
      RunSnocAt(cfg, cipher, sys, before, Send(i, WASTE));
      evs := before + [Send(i, WASTE)];
      SkipOneMore(sys.senders, i, n);
    }
  }

  lemma SkipOneMore(senders: seq<SenderState>, i: nat, n: nat)
    requires i < |senders| && n > 0
    ensures var sofar := senders[i := Wasted(senders[i], n - 1)];
            sofar[i := Wasted(sofar[i], 1)] == senders[i := Wasted(senders[i], n)]
  {}

  /** Two senders on one stream that are at the same number. */
  ghost predicate AtSameNumber(sys: System, i: nat, j: nat) {
    && i < |sys.senders| && j < |sys.senders| && i != j
    && CanSend(sys.senders[i]) && CanSend(sys.senders[j])
    && StreamOfSender(sys.senders[i]) == StreamOfSender(sys.senders[j])
    && sys.senders[i].nonces.Next() == sys.senders[j].nonces.Next()
  }

  /** Once the first's record was accepted, the second's number is taken. */
  lemma NumberIsTaken(cfg: ReceiverConfig, sys: System, i: nat, j: nat, after: System)
    requires AtSameNumber(sys, i, j) && sys.table == [] && 0 < cfg.window && SentAndAccepted(cfg, sys, i, after)
    ensures j < |after.senders| && CanSend(after.senders[j]) && NotOvertaken(cfg, after, j)
    ensures forall last :: !SentAndAccepted(cfg, after, j, last)
  {
    assert forall e :: e in after.table ==> e == after.table[0];
  }

  /** So the second's record cannot be accepted, although it is due. */
  lemma SameNumberClashes(cfg: ReceiverConfig, cipher: Cipher, sys: System, evs: seq<Event>, i: nat, j: nat)
    requires Initial(cfg, sys) && 0 < cfg.window
    requires AtSameNumber(SystemAt(cfg, cipher, sys, evs, |evs|), i, j)
    requires SystemAt(cfg, cipher, sys, evs, |evs|).table == []
    ensures !Delivers(cfg, cipher, sys)
  {
    if Delivers(cfg, cipher, sys) {
      var evs' := SendThenAccept(cfg, cipher, sys, evs, i);
      NumberIsTaken(cfg, SystemAt(cfg, cipher, sys, evs, |evs|), i, j, SystemAt(cfg, cipher, sys, evs', |evs'|));
      var last := SendThenAccept(cfg, cipher, sys, evs', j);
    }
  }

  lemma RangesMustBeApart(cfg: ReceiverConfig, cipher: Cipher, sys: System, i: nat, j: nat)
    requires Initial(cfg, sys) && 0 < cfg.window && Delivers(cfg, cipher, sys)
    requires i < |sys.senders| && j < |sys.senders| && i != j
    requires CanSend(sys.senders[i]) && CanSend(sys.senders[j])
    requires StreamOfSender(sys.senders[i]) == StreamOfSender(sys.senders[j])
    ensures RangesApart(sys.senders[i].nonces, sys.senders[j].nonces)
  {
    var s, t := sys.senders[i].nonces, sys.senders[j].nonces;
    if !RangesApart(s, t) {
      if s.Next() <= t.Next() {
        var evs := Skip(cfg, cipher, sys, i, t.Next() - s.Next());
        SameNumberClashes(cfg, cipher, sys, evs, i, j);
      } else {
        var evs := Skip(cfg, cipher, sys, j, s.Next() - t.Next());
        SameNumberClashes(cfg, cipher, sys, evs, i, j);
      }
    }
  }

  // ---- Clause 3: room for every stream ----

  /** One record was accepted on each stream of the first m senders, and the others
      have done nothing. */
  ghost predicate Covered(sys: System, m: nat, here: System)
    requires m <= |sys.senders|
  {
    && |here.senders| == |sys.senders|
    && here.receiver.guard.Keys == LiveStreams(sys.senders[..m])
    && (forall k :: m <= k < |sys.senders| ==> here.senders[k] == sys.senders[k])
    && forall e :: e in here.table ==> |e.aad| == HEADER_LEN && KeyOf(HeaderOf(e)) in LiveStreams(sys.senders[..m])
  }

  lemma LiveStreamsSnoc(senders: seq<SenderState>, m: nat)
    requires m < |senders|
    ensures LiveStreams(senders[..m + 1])
            == LiveStreams(senders[..m]) + if CanSend(senders[m]) then {StreamOfSender(senders[m])} else {}
  {
    assert senders[..m + 1][..m] == senders[..m];
  }

  lemma CoverOneMore(cfg: ReceiverConfig, sys: System, m: nat, here: System, after: System)
    requires m < |sys.senders| && Covered(sys, m, here) && CanSend(sys.senders[m])
    requires SentAndAccepted(cfg, here, m, after)
    ensures Covered(sys, m + 1, after)
  {
    LiveStreamsSnoc(sys.senders, m);
    var n := |here.table|;
    assert after.table == after.table[..n] + [after.table[n]];
  }

  lemma {:induction false} Cover(cfg: ReceiverConfig, cipher: Cipher, sys: System, m: nat) returns (evs: seq<Event>)
    requires Initial(cfg, sys) && 0 < cfg.window && Delivers(cfg, cipher, sys) && m <= |sys.senders|
    ensures Covered(sys, m, SystemAt(cfg, cipher, sys, evs, |evs|))
  {
    if m == 0 {
      evs := [];
      NothingCovered(cfg, sys);
    } else {
      var before := Cover(cfg, cipher, sys, m - 1);
      var here := SystemAt(cfg, cipher, sys, before, |before|);
      LiveStreamsSnoc(sys.senders, m - 1);
      if CanSend(sys.senders[m - 1]) && StreamOfSender(sys.senders[m - 1]) !in LiveStreams(sys.senders[..m - 1]) {
        evs := SendThenAccept(cfg, cipher, sys, before, m - 1);
        CoverOneMore(cfg, sys, m - 1, here, SystemAt(cfg, cipher, sys, evs, |evs|));
      } else {
        evs := before;
        assert LiveStreams(sys.senders[..m]) == LiveStreams(sys.senders[..m - 1]);
      }
    }
  }

  lemma NothingCovered(cfg: ReceiverConfig, sys: System)
    requires Initial(cfg, sys)
    ensures Covered(sys, 0, sys)
  {
    assert sys.senders[..0] == [];
  }

  lemma StreamsMustFit(cfg: ReceiverConfig, cipher: Cipher, sys: System)
    requires Initial(cfg, sys) && 0 < cfg.window && Delivers(cfg, cipher, sys)
    ensures |LiveStreams(sys.senders)| <= Max(0, cfg.maxStreams)
  {
    var evs := Cover(cfg, cipher, sys, |sys.senders|);
    assert sys.senders[..|sys.senders|] == sys.senders;
    InitialInv(cfg, sys);
    ReachableWithinCap(cfg, cipher, sys, evs, |evs|);
    var g := SystemAt(cfg, cipher, sys, evs, |evs|).receiver.guard;
    assert |g| == |g.Keys|;
  }

  // ---- The exact condition ----

  lemma DeliversOnlyIfDeployed(cfg: ReceiverConfig, cipher: Cipher, sys: System)
    requires Initial(cfg, sys) && 0 < cfg.window && Delivers(cfg, cipher, sys)
    ensures Deployed(cfg, sys)
  {
    StreamsMustFit(cfg, cipher, sys);
    forall i | 0 <= i < |sys.senders| && CanSend(sys.senders[i])
      ensures cfg.expected.None? || sys.senders[i].sessionId == cfg.expected.value
    {
      SessionsMustBeAdmitted(cfg, cipher, sys, i);
    }
    forall i, j | 0 <= i < j < |sys.senders| && CanSend(sys.senders[i]) && CanSend(sys.senders[j])
                  && StreamOfSender(sys.senders[i]) == StreamOfSender(sys.senders[j])
      ensures RangesApart(sys.senders[i].nonces, sys.senders[j].nonces)
    {
      RangesMustBeApart(cfg, cipher, sys, i, j);
    }
  }

  lemma DeliversIfDeployed(cfg: ReceiverConfig, cipher: Cipher, sys: System)
    requires Initial(cfg, sys) && Deployed(cfg, sys)
    ensures Delivers(cfg, cipher, sys)
  {
    forall evs: seq<Event>, j: nat, wire: Bytes | Due(cfg, cipher, sys, evs, j, wire)
      ensures Returns(cfg, cipher, sys, evs, j, wire)
    {
      DeliveryUnderAttack(cfg, cipher, sys, evs, j, wire);
    }
  }

  lemma NothingDueWithoutWindow(
    cfg: ReceiverConfig, cipher: Cipher, sys: System, evs: seq<Event>, j: nat, wire: Bytes)
    requires Initial(cfg, sys) && cfg.window == 0
    ensures !Due(cfg, cipher, sys, evs, j, wire)
  {
    if Due(cfg, cipher, sys, evs, j, wire) {
      var e := DueEntry(cfg, cipher, sys, evs, j, wire);
    }
  }

  /** Delivery, exactly: from a fresh start, whatever the network does, every wire
      that is due is accepted with its payload, if and only if the configuration is
      a deployment.  (With a window of 0 no wire is ever due.) */
  lemma DeliversIffDeployed(cfg: ReceiverConfig, cipher: Cipher, sys: System)
    requires Initial(cfg, sys)
    ensures Delivers(cfg, cipher, sys) <==> cfg.window == 0 || Deployed(cfg, sys)
  {
    if cfg.window == 0 {
      forall evs: seq<Event>, j: nat, wire: Bytes ensures !Due(cfg, cipher, sys, evs, j, wire) {
        NothingDueWithoutWindow(cfg, cipher, sys, evs, j, wire);
      }
    } else if Deployed(cfg, sys) {
      DeliversIfDeployed(cfg, cipher, sys);
    } else if Delivers(cfg, cipher, sys) {
      DeliversOnlyIfDeployed(cfg, cipher, sys);
    }
  }

  // ---- Senders sharing a stream, played out ----

  /** The replay key leaves out the nonce prefix.  So once a record under a stream
      and number was accepted, a different record sealed under them is refused as a
      repeat, though it was never seen: here f, whose prefix differs from e's. */
  lemma SharedStreamLosesRecords(cfg: ReceiverConfig, sys: System, e: SealEntry, f: SealEntry)
    requires NonceUnique(sys.table) && e in sys.table && f in sys.table && WireOf(e) != WireOf(f)
    requires Honest(e, cfg.suiteId) && Honest(f, cfg.suiteId)
    requires KeyOf(HeaderOf(e)) == KeyOf(HeaderOf(f)) && HeaderOf(e).seqNo == HeaderOf(f).seqNo
    requires SessionMatches(cfg, HeaderOf(f))
    requires HeaderOf(e).seqNo in RecordedOn(sys.receiver.guard, KeyOf(HeaderOf(e)))
    ensures HeaderOf(e).noncePrefix != HeaderOf(f).noncePrefix
    ensures var a := RecordedOn(sys.receiver.guard, KeyOf(HeaderOf(f)));
            VerdictOn(cfg, sys, WireOf(f))
            == Rejection(Overdue(cfg.window, a, HeaderOf(f).seqNo), Some(HeaderOf(f)))
  {
    SealedIsPresented(cfg, sys, f);
    UnpackValid(f.aad);
    JudgeCandidate(cfg, sys.receiver.guard, HeaderOf(f), Some(f.plaintext));
    if HeaderOf(e).noncePrefix == HeaderOf(f).noncePrefix {
      EntryByNonce(sys.table, e, f);
    }
  }

  function EntryOf(s: SenderState, cipher: Cipher, c: Call): SealEntry
    requires s.Valid() && Sendable(s, c)
  {
    SealCall(s, cipher, c).entries[0]
  }

  /** What a sendable call does. */
  lemma SendableStep(cfg: ReceiverConfig, cipher: Cipher, sys: System, i: nat, c: Call)
    requires Inv(cfg, sys) && i < |sys.senders| && Sendable(sys.senders[i], c)
    ensures var s, r := sys.senders[i], Step(cfg, cipher, sys, Send(i, c));
            var e := EntryOf(s, cipher, c);
            && Inv(cfg, r.after) && r.output == Sent(WireOf(e))
            && r.after.table == sys.table + [e] && r.after.receiver == sys.receiver
            && (forall k :: 0 <= k < |sys.senders| && k != i ==> r.after.senders[k] == sys.senders[k])
            && |e.aad| == HEADER_LEN && HeaderOf(e) == HeaderFor(s, c).Canonical() && e.plaintext == c.payload
  {
    StepKeepsInv(cfg, cipher, sys, Send(i, c));
    SendFacts(sys.senders[i], cipher, c);
    assert SealedBy(sys, cipher, i, c).entries == [EntryOf(sys.senders[i], cipher, c)];
  }

  /** A receiver that has accepted nothing accepts any sent record of its session. */
  lemma FirstIsAccepted(cfg: ReceiverConfig, cipher: Cipher, sys: System, e: SealEntry)
    requires SendersValid(sys) && NonceUnique(sys.table) && e in sys.table && Honest(e, cfg.suiteId)
    requires sys.receiver.guard == map[] && 1 <= cfg.maxStreams && SessionMatches(cfg, HeaderOf(e))
    ensures var r := Step(cfg, cipher, sys, Deliver(WireOf(e)));
            && r.output == Delivered(Acceptance(e.plaintext, HeaderOf(e)))
            && r.after.table == sys.table
            && HeaderOf(e).seqNo >= 0
            && RecordedOn(r.after.receiver.guard, KeyOf(HeaderOf(e))) == {HeaderOf(e).seqNo}
  {
    SealedIsPresented(cfg, sys, e);
    UnpackValid(e.aad);
    JudgeCandidate(cfg, sys.receiver.guard, HeaderOf(e), Some(e.plaintext));
    AcceptedStep(cfg, sys.receiver, Presented(cfg, sys, WireOf(e)));
  }

  /** Two senders at the same number of one stream, each able to send. */
  ghost predicate Sharing(cfg: ReceiverConfig, sys: System, i: nat, c: Call, j: nat, d: Call) {
    && i < |sys.senders| && j < |sys.senders| && i != j
    && Sendable(sys.senders[i], c) && Sendable(sys.senders[j], d)
    && StreamOfSender(sys.senders[i]) == StreamOfSender(sys.senders[j])
    && sys.senders[i].nonces.Next() == sys.senders[j].nonces.Next()
    && (cfg.expected.None? || sys.senders[i].sessionId == cfg.expected.value)
    && 1 <= cfg.maxStreams
  }

  lemma TwoWiresDiffer(cfg: ReceiverConfig, sys: System, e: SealEntry, f: SealEntry)
    requires TableOk(cfg, sys) && NonceUnique(sys.table) && sys.table == [e, f]
    ensures Honest(e, cfg.suiteId) && Honest(f, cfg.suiteId)
    ensures e in sys.table && f in sys.table && WireOf(e) != WireOf(f)
  {
    assert e == sys.table[0] && f == sys.table[1];
    assert e.nonce != f.nonce;
    if WireOf(e) == WireOf(f) {
      SameWireSameNonce(e, f, cfg.suiteId);
    }
  }

  /** Two records under one stream and number, delivered one after the other. */
  lemma SharedDeliveries(cfg: ReceiverConfig, cipher: Cipher, sys: System, e: SealEntry, f: SealEntry)
    requires SendersValid(sys) && NonceUnique(sys.table) && Honest(e, cfg.suiteId) && Honest(f, cfg.suiteId)
    requires e in sys.table && f in sys.table && WireOf(e) != WireOf(f)
    requires sys.receiver.guard == map[] && 1 <= cfg.maxStreams
    requires KeyOf(HeaderOf(e)) == KeyOf(HeaderOf(f)) && HeaderOf(e).seqNo == HeaderOf(f).seqNo
    requires SessionMatches(cfg, HeaderOf(e))
    ensures var r := Step(cfg, cipher, sys, Deliver(WireOf(e)));
            && r.output == Delivered(Acceptance(e.plaintext, HeaderOf(e)))
            && VerdictOn(cfg, r.after, WireOf(f))
               == Rejection(if cfg.window > 0 then REPLAY_DETECTED else STALE_RECORD, Some(HeaderOf(f)))
  {
    FirstIsAccepted(cfg, cipher, sys, e);
    SharedStreamLosesRecords(cfg, Step(cfg, cipher, sys, Deliver(WireOf(e))).after, e, f);
  }

  lemma TwoSends(cfg: ReceiverConfig, cipher: Cipher, sys: System, i: nat, c: Call, j: nat, d: Call)
    requires Initial(cfg, sys) && Sharing(cfg, sys, i, c, j, d)
    ensures var e, f := EntryOf(sys.senders[i], cipher, c), EntryOf(sys.senders[j], cipher, d);
            var one := Step(cfg, cipher, sys, Send(i, c));
            var two := Step(cfg, cipher, one.after, Send(j, d));
            && one.output == Sent(WireOf(e)) && two.output == Sent(WireOf(f))
            && Inv(cfg, two.after) && two.after.table == [e, f] && two.after.receiver.guard == map[]
            && |e.aad| == HEADER_LEN && HeaderOf(e) == HeaderFor(sys.senders[i], c).Canonical()
            && |f.aad| == HEADER_LEN && HeaderOf(f) == HeaderFor(sys.senders[j], d).Canonical()
            && e.plaintext == c.payload
  {
    InitialInv(cfg, sys);
    SendableStep(cfg, cipher, sys, i, c);
    SendableStep(cfg, cipher, Step(cfg, cipher, sys, Send(i, c)).after, j, d);
  }

  lemma RunOfCons(cfg: ReceiverConfig, cipher: Cipher, sys: System, ev: Event, evs: seq<Event>)
    requires SendersValid(sys)
    ensures Run(cfg, cipher, sys, [ev] + evs)
            == [Step(cfg, cipher, sys, ev)] + Run(cfg, cipher, Step(cfg, cipher, sys, ev).after, evs)
  {
    assert ([ev] + evs)[1..] == evs;
  }

  function Outputs(rs: seq<Reaction>): seq<Output> {
    seq(|rs|, k requires 0 <= k < |rs| => rs[k].output)
  }

  lemma OutputsCons(cfg: ReceiverConfig, cipher: Cipher, sys: System, ev: Event, evs: seq<Event>, all: seq<Event>)
    requires SendersValid(sys) && all == [ev] + evs
    ensures Outputs(Run(cfg, cipher, sys, all))
            == [Step(cfg, cipher, sys, ev).output] + Outputs(Run(cfg, cipher, Step(cfg, cipher, sys, ev).after, evs))
  {
    RunOfCons(cfg, cipher, sys, ev, evs);
  }

  lemma FourSteps(cfg: ReceiverConfig, cipher: Cipher, sys: System, a: Event, b: Event, c: Event, d: Event)
    requires SendersValid(sys)
    ensures var one := Step(cfg, cipher, sys, a);
            var two := Step(cfg, cipher, one.after, b);
            var three := Step(cfg, cipher, two.after, c);
            Outputs(Run(cfg, cipher, sys, [a, b, c, d]))
            == [one.output, two.output, three.output, Step(cfg, cipher, three.after, d).output]
  {
    var one := Step(cfg, cipher, sys, a);
    var two := Step(cfg, cipher, one.after, b);
    var three := Step(cfg, cipher, two.after, c);
    OutputsCons(cfg, cipher, sys, a, [b, c, d], [a, b, c, d]);
    OutputsCons(cfg, cipher, one.after, b, [c, d], [b, c, d]);
    OutputsCons(cfg, cipher, two.after, c, [d], [c, d]);
    OutputsCons(cfg, cipher, three.after, d, [], [d]);
  }

  /** The run that loses a record: both senders send, the first's record is
      accepted, and the second's, never delivered before, is refused. */
  lemma SharedStreamRun(cfg: ReceiverConfig, cipher: Cipher, sys: System, i: nat, c: Call, j: nat, d: Call)
    requires Initial(cfg, sys) && Sharing(cfg, sys, i, c, j, d)
    ensures var s, t := sys.senders[i], sys.senders[j];
            var w, w' := WireOf(EntryOf(s, cipher, c)), WireOf(EntryOf(t, cipher, d));
            var rs := Run(cfg, cipher, sys, [Send(i, c), Send(j, d), Deliver(w), Deliver(w')]);
            && w != w'
            && Outputs(rs) == [
                 Sent(w), Sent(w'),
                 Delivered(Acceptance(c.payload, HeaderFor(s, c).Canonical())),
                 Delivered(Rejection(if cfg.window > 0 then REPLAY_DETECTED else STALE_RECORD,
                                     Some(HeaderFor(t, d).Canonical())))]
  {
    var e, f := EntryOf(sys.senders[i], cipher, c), EntryOf(sys.senders[j], cipher, d);
    TwoSends(cfg, cipher, sys, i, c, j, d);
    var two := Step(cfg, cipher, Step(cfg, cipher, sys, Send(i, c)).after, Send(j, d)).after;
    TwoWiresDiffer(cfg, two, e, f);
    SharedDeliveries(cfg, cipher, two, e, f);
    FourSteps(cfg, cipher, sys, Send(i, c), Send(j, d), Deliver(WireOf(e)), Deliver(WireOf(f)));
  }

  // ---- One such configuration ----

  const ZERO_SESSION: Bytes := [0, 0, 0, 0, 0, 0, 0, 0, 0, 0, 0, 0, 0, 0, 0, 0]

  function FreshSender(noncePrefix: Bytes): SenderState {
    SenderState(AES_GCM_ID, ZERO_SESSION, 1, NonceState(noncePrefix, 0, 0x100_0000, 0), SenderTally(0, 0, 0))
  }

  /** Default senders under two prefixes, both on stream 1. */
  function TwoOnOneStream(): System {
    System([FreshSender([0, 0, 0, 0]), FreshSender([0, 0, 0, 1])], EMPTY_RECEIVER, [])
  }

  lemma ExampleIsInitial(cfg: ReceiverConfig)
    requires cfg.suiteId == AES_GCM_ID
    ensures Initial(cfg, TwoOnOneStream())
  {
    var sys := TwoOnOneStream();
    assert sys.senders[0].nonces.prefix[3] != sys.senders[1].nonces.prefix[3];
  }

  lemma ExampleIsNotDeployed(cfg: ReceiverConfig)
    ensures !Deployed(cfg, TwoOnOneStream())
  {
    var sys := TwoOnOneStream();
    assert CanSend(sys.senders[0]) && CanSend(sys.senders[1]);
    assert !RangesApart(sys.senders[0].nonces, sys.senders[1].nonces);
  }

  /** With the default window and cap they are an initial system, so no two of
      their nonces can meet, and yet delivery fails, by `SharedStreamRun`. */
  lemma SharedStreamExample(cipher: Cipher)
    ensures var cfg := ReceiverConfig(AES_GCM_ID, Some(ZERO_SESSION), 64, 1024);
            && Initial(cfg, TwoOnOneStream()) && Sharing(cfg, TwoOnOneStream(), 0, PLAIN, 1, PLAIN)
            && !Delivers(cfg, cipher, TwoOnOneStream())
  {
    var cfg := ReceiverConfig(AES_GCM_ID, Some(ZERO_SESSION), 64, 1024);
    ExampleIsInitial(cfg);
    ExampleIsNotDeployed(cfg);
    DeliversIffDeployed(cfg, cipher, TwoOnOneStream());
  }
}
