/** Delivery of what was sent: when it holds, what breaks it, and the exact
    condition on a configuration before its first call. */
module Delivery {
  import opened Basics
  import opened Header
  import opened Suites
  import opened Nonce
  import opened Sender
  import opened ReplaySpec
  import opened ReceiverSpec
  import opened ReceiverRuns
  import opened Session
  import opened EndToEnd

  // ---- Deployments ----

  /** The sender has budget left, on a stream that fits its field. */
  predicate CanSend(s: SenderState) {
    !s.nonces.Exhausted() && 0 <= s.streamId <= MAX_U32
  }

  const PLAIN := Call([], DATA, 0)

  /** Such a sender can send the empty payload, and no other can send anything. */
  lemma CanSendIffSendable(s: SenderState)
    ensures CanSend(s) <==> exists c :: Sendable(s, c)
    ensures CanSend(s) ==> Sendable(s, PLAIN)
  {
    assert CanSend(s) ==> Sendable(s, PLAIN);
  }

  /** The streams of the senders that can send. */
  function LiveStreams(senders: seq<SenderState>): set<StreamKey> {
    if senders == [] then {}
    else
      var s := senders[|senders| - 1];
      LiveStreams(senders[..|senders| - 1]) + if CanSend(s) then {StreamOfSender(s)} else {}
  }

  lemma {:induction false} LiveStreamsAre(senders: seq<SenderState>, key: StreamKey)
    ensures key in LiveStreams(senders)
            <==> exists i :: 0 <= i < |senders| && CanSend(senders[i]) && StreamOfSender(senders[i]) == key
  {
    if senders != [] {
      LiveStreamsAre(senders[..|senders| - 1], key);
      assert forall i :: 0 <= i < |senders| - 1 ==> senders[..|senders| - 1][i] == senders[i];
    }
  }

  /** The numbers the two can still issue do not meet. */
  predicate RangesApart(s: NonceState, t: NonceState) {
    s.start + s.limit <= t.Next() || t.start + t.limit <= s.Next()
  }

  /** The receiver serves every sender that can send: it is not pinned to another
      session, and its stream cap covers their streams. */
  ghost predicate Served(cfg: ReceiverConfig, sys: System) {
    && |LiveStreams(sys.senders)| <= Max(0, cfg.maxStreams)
    && forall i :: 0 <= i < |sys.senders| && CanSend(sys.senders[i]) ==>
         cfg.expected.None? || sys.senders[i].sessionId == cfg.expected.value
  }

  /** Senders that can send on one stream have different numbers left. */
  ghost predicate NumbersApart(sys: System) {
    forall i, j :: 0 <= i < j < |sys.senders| && CanSend(sys.senders[i]) && CanSend(sys.senders[j])
                   && StreamOfSender(sys.senders[i]) == StreamOfSender(sys.senders[j])
                   ==> RangesApart(sys.senders[i].nonces, sys.senders[j].nonces)
  }

  ghost predicate Deployed(cfg: ReceiverConfig, sys: System) {
    Served(cfg, sys) && NumbersApart(sys)
  }

  // ---- What a run keeps of where it started ----

  /** The same sender, later. */
  predicate Continues(o: SenderState, s: SenderState) {
    && s.(nonces := o.nonces, stats := o.stats) == o
    && s.nonces.(issued := o.nonces.issued) == o.nonces
    && 0 <= o.nonces.issued <= s.nonces.issued
  }

  /** The entry takes a number this sender had left at the start. */
  predicate BornOf(o: SenderState, e: SealEntry)
    requires |e.aad| == HEADER_LEN
  {
    var h := HeaderOf(e);
    && CanSend(o)
    && h.sessionId == o.sessionId && h.streamId == o.streamId && h.noncePrefix == o.nonces.prefix
    && o.nonces.Next() <= h.seqNo < o.nonces.start + o.nonces.limit
  }

  ghost predicate Native(origin: System, e: SealEntry)
    requires |e.aad| == HEADER_LEN
  {
    exists i :: 0 <= i < |origin.senders| && BornOf(origin.senders[i], e)
  }

  ghost predicate SendersContinue(origin: System, sys: System) {
    && |origin.senders| == |sys.senders|
    && forall i :: 0 <= i < |sys.senders| ==> Continues(origin.senders[i], sys.senders[i])
  }

  /** All sealed entries come from numbers the senders had left at the start. */
  ghost predicate TableNative(origin: System, sys: System) {
    forall e :: e in sys.table ==> |e.aad| == HEADER_LEN && Native(origin, e)
  }

  ghost predicate Descends(origin: System, sys: System) {
    SendersContinue(origin, sys) && TableNative(origin, sys)
  }

  /** What `SendFacts` says, seen from where the sender started. */
  lemma SendContinues(o: SenderState, s: SenderState, cipher: Cipher, c: Call)
    requires s.Valid() && Continues(o, s)
    ensures var r := SealCall(s, cipher, c);
            Continues(o, r.after)
            && forall e :: e in r.entries ==> |e.aad| == HEADER_LEN && BornOf(o, e)
  {
    SendFacts(s, cipher, c);
  }

  lemma StepDescends(cfg: ReceiverConfig, cipher: Cipher, origin: System, sys: System, ev: Event)
    requires SendersValid(sys) && Descends(origin, sys)
    ensures Descends(origin, Step(cfg, cipher, sys, ev).after)
  {
    if ev.Send? && ev.from < |sys.senders| {
      var i := ev.from;
      SendContinues(origin.senders[i], sys.senders[i], cipher, ev.call);
      var r, after := SealedBy(sys, cipher, i, ev.call), Step(cfg, cipher, sys, ev).after;
      forall e | e in after.table ensures |e.aad| == HEADER_LEN && Native(origin, e) {
        if e !in sys.table {
          assert e in r.entries;
        }
      }
    }
  }

  lemma {:induction false} ReachableDescends(
    cfg: ReceiverConfig, cipher: Cipher, origin: System, sys: System, evs: seq<Event>, i: nat)
    requires SendersValid(sys) && Descends(origin, sys) && i <= |evs|
    ensures Descends(origin, SystemAt(cfg, cipher, sys, evs, i))
    decreases i
  {
    if i > 0 {
      StepDescends(cfg, cipher, origin, sys, evs[0]);
      ReachableDescends(cfg, cipher, origin, Step(cfg, cipher, sys, evs[0]).after, evs[1..], i - 1);
      SystemAtTail(cfg, cipher, sys, evs, i);
    }
  }

  /** Everything a reachable system satisfies whose senders are all served. */
  ghost predicate Healthy(cfg: ReceiverConfig, origin: System, sys: System) {
    Inv(cfg, sys) && TrackingOk(cfg, sys.receiver.guard) && Served(cfg, origin) && Descends(origin, sys)
  }

  lemma HealthyStep(cfg: ReceiverConfig, cipher: Cipher, origin: System, sys: System, ev: Event)
    requires Healthy(cfg, origin, sys)
    ensures Healthy(cfg, origin, Step(cfg, cipher, sys, ev).after)
  {
    StepKeepsInv(cfg, cipher, sys, ev);
    StepKeepsTracking(cfg, cipher, sys, ev);
    StepDescends(cfg, cipher, origin, sys, ev);
  }

  lemma InitialIsHealthy(cfg: ReceiverConfig, sys: System)
    requires Initial(cfg, sys) && Served(cfg, sys)
    ensures Healthy(cfg, sys, sys)
  {
    InitialInv(cfg, sys);
  }

  lemma ReachableIsHealthy(cfg: ReceiverConfig, cipher: Cipher, sys: System, evs: seq<Event>, i: nat)
    requires Initial(cfg, sys) && Served(cfg, sys) && i <= |evs|
    ensures Healthy(cfg, sys, SystemAt(cfg, cipher, sys, evs, i))
  {
    InitialIsHealthy(cfg, sys);
    Reachable(cfg, cipher, sys, evs, i);
    ReachableTracking(cfg, cipher, sys, evs, i);
    ReachableDescends(cfg, cipher, sys, sys, evs, i);
  }

  // ---- The verdict on sent records ----

  lemma NativeStreamIsLive(origin: System, e: SealEntry)
    requires |e.aad| == HEADER_LEN && Native(origin, e)
    ensures KeyOf(HeaderOf(e)) in LiveStreams(origin.senders)
  {
    var i :| 0 <= i < |origin.senders| && BornOf(origin.senders[i], e);
    assert StreamOfSender(origin.senders[i]) == KeyOf(HeaderOf(e));
    LiveStreamsAre(origin.senders, KeyOf(HeaderOf(e)));
  }

  /** Only streams of senders that could send are ever tracked: no forged record
      can use up the cap. */
  lemma TrackedAreLive(cfg: ReceiverConfig, origin: System, sys: System)
    requires GuardOk(sys) && TrackingOk(cfg, sys.receiver.guard) && TableNative(origin, sys)
    ensures sys.receiver.guard.Keys <= LiveStreams(origin.senders)
  {
    forall k | k in sys.receiver.guard ensures k in LiveStreams(origin.senders) {
      var e := HighestEntry(sys, k);
      NativeStreamIsLive(origin, e);
    }
  }

  /** So when the cap covers them, there is room for each of them. */
  lemma RoomForSenders(cfg: ReceiverConfig, origin: System, sys: System, key: StreamKey)
    requires GuardOk(sys) && TrackingOk(cfg, sys.receiver.guard) && TableNative(origin, sys)
    requires |LiveStreams(origin.senders)| <= Max(0, cfg.maxStreams) && key in LiveStreams(origin.senders)
    ensures key in sys.receiver.guard || |sys.receiver.guard| < cfg.maxStreams
  {
    TrackedAreLive(cfg, origin, sys);
    if key !in sys.receiver.guard {
      RoomForOneMore(sys.receiver.guard, LiveStreams(origin.senders), key);
    }
  }

  lemma SessionIsAdmitted(cfg: ReceiverConfig, origin: System, e: SealEntry)
    requires Served(cfg, origin) && |e.aad| == HEADER_LEN && Native(origin, e)
    ensures SessionMatches(cfg, HeaderOf(e))
  {
    var i :| 0 <= i < |origin.senders| && BornOf(origin.senders[i], e);
  }

  /** When all senders are served, the replay check sees every sent record, and has
      room for it. */
  lemma SentRoom(cfg: ReceiverConfig, origin: System, sys: System, e: SealEntry)
    requires Healthy(cfg, origin, sys) && e in sys.table
    ensures |e.aad| == HEADER_LEN && SessionMatches(cfg, HeaderOf(e))
    ensures KeyOf(HeaderOf(e)) in sys.receiver.guard || |sys.receiver.guard| < cfg.maxStreams
  {
    NativeStreamIsLive(origin, e);
    RoomForSenders(cfg, origin, sys, KeyOf(HeaderOf(e)));
    SessionIsAdmitted(cfg, origin, e);
  }

  /** When all senders are served, a sent record is accepted exactly when its number
      is not yet recorded on its stream and lies ahead of, or fewer than `window`
      behind, the highest number accepted there. */
  lemma SentAcceptedIff(cfg: ReceiverConfig, origin: System, sys: System, e: SealEntry)
    requires Healthy(cfg, origin, sys) && e in sys.table
    ensures |e.aad| == HEADER_LEN
    ensures var h := HeaderOf(e);
            var a := RecordedOn(sys.receiver.guard, KeyOf(h));
            VerdictOn(cfg, sys, WireOf(e)) ==
              if h.seqNo > Highest(a) || (h.seqNo !in a && Highest(a) - h.seqNo < cfg.window)
              then Acceptance(e.plaintext, h)
              else Rejection(if Highest(a) - h.seqNo >= cfg.window then STALE_RECORD else REPLAY_DETECTED, Some(h))
  {
    SentRoom(cfg, origin, sys, e);
    SentVerdict(cfg, sys, e);
  }

  // ---- Delivery under attack ----

  /** When numbers are apart, an entry is determined by stream and number. */
  lemma EntryByNumber(cfg: ReceiverConfig, origin: System, sys: System, e: SealEntry, f: SealEntry)
    requires TableOk(cfg, sys) && NonceUnique(sys.table) && NumbersApart(origin) && TableNative(origin, sys)
    requires e in sys.table && f in sys.table
    requires KeyOf(HeaderOf(e)) == KeyOf(HeaderOf(f)) && HeaderOf(e).seqNo == HeaderOf(f).seqNo
    ensures e == f
  {
    var i :| 0 <= i < |origin.senders| && BornOf(origin.senders[i], e);
    var j :| 0 <= j < |origin.senders| && BornOf(origin.senders[j], f);
    var s, t := origin.senders[i], origin.senders[j];
    assert StreamOfSender(s) == KeyOf(HeaderOf(e)) && StreamOfSender(t) == KeyOf(HeaderOf(f));
    assert i < j ==> RangesApart(s.nonces, t.nonces);
    assert j < i ==> RangesApart(t.nonces, s.nonces);
    assert i == j;
    EntryByNonce(sys.table, e, f);
  }

  /** In a deployment, a number recorded on its stream was recorded by accepting
      the one wire that carries it. */
  lemma RecordedMeansDelivered(cfg: ReceiverConfig, cipher: Cipher, sys: System, evs: seq<Event>, n: nat, e: SealEntry)
    requires Initial(cfg, sys) && Deployed(cfg, sys) && n <= |evs|
    requires e in SystemAt(cfg, cipher, sys, evs, n).table && |e.aad| == HEADER_LEN
    requires HeaderOf(e).seqNo in RecordedOn(SystemAt(cfg, cipher, sys, evs, n).receiver.guard, KeyOf(HeaderOf(e)))
    ensures exists i: nat :: i < n && AcceptedWire(evs, Run(cfg, cipher, sys, evs), i, WireOf(e))
  {
    var key, x := KeyOf(HeaderOf(e)), HeaderOf(e).seqNo;
    RecordedWasAccepted(cfg, cipher, sys, evs, n, key, x);
    var i: nat :| i < n && evs[i].Deliver? && AcceptedWire(evs, Run(cfg, cipher, sys, evs), i, evs[i].wire)
                  && CarriesNumber(evs[i].wire, key, x);
    var f := AcceptedEntry(cfg, cipher, sys, evs, i, n);
    ReachableIsHealthy(cfg, cipher, sys, evs, n);
    EntryByNumber(cfg, sys, SystemAt(cfg, cipher, sys, evs, n), e, f);
  }

  /** Event j of the run sent this wire, the receiver has not accepted it yet, and
      it is fewer than `window` numbers behind everything sent on its stream. */
  ghost predicate Due(cfg: ReceiverConfig, cipher: Cipher, sys: System, evs: seq<Event>, j: nat, wire: Bytes)
    requires SendersValid(sys)
  {
    var rs := Run(cfg, cipher, sys, evs);
    && j < |evs| && rs[j].output == Sent(wire)
    && (forall i: nat :: i < |evs| ==> !AcceptedWire(evs, rs, i, wire))
    && (ParseRecord(wire).Success? ==> WithinWindow(cfg, evs, rs, |evs|, wire))
  }

  /** Delivered after the run, the wire is accepted with the payload event j gave. */
  ghost predicate Returns(cfg: ReceiverConfig, cipher: Cipher, sys: System, evs: seq<Event>, j: nat, wire: Bytes)
    requires SendersValid(sys)
  {
    && j < |evs| && evs[j].Send? && ParseRecord(wire).Success?
    && VerdictOn(cfg, SystemAt(cfg, cipher, sys, evs, |evs|), wire)
       == Acceptance(evs[j].call.payload, ParseRecord(wire).value.header)
  }

  /** The entry behind a wire that is due. */
  lemma DueEntry(cfg: ReceiverConfig, cipher: Cipher, sys: System, evs: seq<Event>, j: nat, wire: Bytes)
    returns (e: SealEntry)
    requires Initial(cfg, sys) && Due(cfg, cipher, sys, evs, j, wire)
    ensures e in SystemAt(cfg, cipher, sys, evs, |evs|).table && Honest(e, cfg.suiteId) && WireOf(e) == wire
    ensures evs[j].Send? && evs[j].call.payload == e.plaintext
    ensures ParseRecord(wire).Success? && ParseRecord(wire).value.header == HeaderOf(e)
    ensures 0 < cfg.window
  {
    InitialInv(cfg, sys);
    e := SentEntry(cfg, cipher, sys, evs, j, |evs|);
    assert CarriesNumber(wire, KeyOf(HeaderOf(e)), HeaderOf(e).seqNo);
  }

  /** The number of a wire that is due is not recorded, and fewer than `window`
      behind the highest that is. */
  lemma DueIsInWindow(
    cfg: ReceiverConfig, cipher: Cipher, sys: System, evs: seq<Event>, j: nat, wire: Bytes, e: SealEntry)
    requires Initial(cfg, sys) && Deployed(cfg, sys) && Due(cfg, cipher, sys, evs, j, wire) && 0 < cfg.window
    requires e in SystemAt(cfg, cipher, sys, evs, |evs|).table && |e.aad| == HEADER_LEN && WireOf(e) == wire
    requires ParseRecord(wire).Success? && ParseRecord(wire).value.header == HeaderOf(e)
    ensures var a := RecordedOn(SystemAt(cfg, cipher, sys, evs, |evs|).receiver.guard, KeyOf(HeaderOf(e)));
            HeaderOf(e).seqNo !in a && Highest(a) - HeaderOf(e).seqNo < cfg.window
  {
    var here, key := SystemAt(cfg, cipher, sys, evs, |evs|), KeyOf(HeaderOf(e));
    UnpackValid(e.aad);
    if HeaderOf(e).seqNo in RecordedOn(here.receiver.guard, key) {
      RecordedMeansDelivered(cfg, cipher, sys, evs, |evs|, e);
    }
    if RecordedOn(here.receiver.guard, key) != {} {
      HighestWasSent(cfg, cipher, sys, evs, |evs|, key);
    }
  }

  /** Delivery under attack: in a deployment, after any run of sends and arbitrary
      deliveries, every wire that is due is accepted when delivered, with exactly
      the payload it was sent with. */
  lemma DeliveryUnderAttack(cfg: ReceiverConfig, cipher: Cipher, sys: System, evs: seq<Event>, j: nat, wire: Bytes)
    requires Initial(cfg, sys) && Deployed(cfg, sys)
    requires Due(cfg, cipher, sys, evs, j, wire)
    ensures Returns(cfg, cipher, sys, evs, j, wire)
  {
    var here := SystemAt(cfg, cipher, sys, evs, |evs|);
    var e := DueEntry(cfg, cipher, sys, evs, j, wire);
    ReachableIsHealthy(cfg, cipher, sys, evs, |evs|);
    SentAcceptedIff(cfg, sys, here, e);
    DueIsInWindow(cfg, cipher, sys, evs, j, wire, e);
  }

  // ---- Round trip ----

  /** A number just issued is not recorded on its stream. */
  lemma NextIsUnrecorded(
    cfg: ReceiverConfig, origin: System, sys: System, after: System, e: SealEntry, payload: Bytes, output: Output)
    requires GuardOk(sys) && after.receiver == sys.receiver
    requires Healthy(cfg, origin, after) && NumbersApart(origin) && AddsEntry(sys, Reaction(after, output), e, payload)
    ensures e in after.table && |e.aad| == HEADER_LEN
    ensures HeaderOf(e).seqNo !in RecordedOn(sys.receiver.guard, KeyOf(HeaderOf(e)))
  {
    assert e == after.table[|sys.table|];
    var key, x := KeyOf(HeaderOf(e)), HeaderOf(e).seqNo;
    if x in RecordedOn(sys.receiver.guard, key) {
      assert SealedOn(sys, key, x);
      var f :| f in sys.table && |f.aad| == HEADER_LEN && KeyOf(HeaderOf(f)) == key && HeaderOf(f).seqNo == x;
      NewWire(cfg, sys, Reaction(after, output), e, payload, f);
      EntryByNumber(cfg, origin, after, e, f);
    }
  }

  /** The verdict on a record delivered as soon as it is sent. */
  lemma AtOnce(cfg: ReceiverConfig, cipher: Cipher, origin: System, sys: System, i: nat, c: Call) returns (e: SealEntry)
    requires Healthy(cfg, origin, sys) && i < |sys.senders| && Sendable(sys.senders[i], c)
    ensures var s, r := sys.senders[i], Step(cfg, cipher, sys, Send(i, c));
            var h, a := HeaderFor(s, c).Canonical(), RecordedOn(sys.receiver.guard, StreamOfSender(s));
            && AddsEntry(sys, r, e, c.payload) && |e.aad| == HEADER_LEN && HeaderOf(e) == h
            && VerdictOn(cfg, r.after, WireOf(e))
               == if Admits(cfg.window, a, s.nonces.Next()) then Acceptance(c.payload, h)
                  else Rejection(Overdue(cfg.window, a, s.nonces.Next()), Some(h))
  {
    e := SealedBy(sys, cipher, i, c).entries[0];
    SendFacts(sys.senders[i], cipher, c);
    HealthyStep(cfg, cipher, origin, sys, Send(i, c));
    assert SealedBy(sys, cipher, i, c).entries == [e];
    SentAcceptedIff(cfg, origin, Step(cfg, cipher, sys, Send(i, c)).after, e);
  }

  /** Round trip, exactly: in every reachable system of a deployment, a call that
      can be sent yields a wire that, delivered at once, returns the payload if its
      number is fewer than `window` behind the highest recorded on the stream, and
      is stale otherwise.  Only a sender sharing its stream can be behind. */
  lemma RoundTrip(cfg: ReceiverConfig, cipher: Cipher, origin: System, sys: System, i: nat, c: Call)
    requires Healthy(cfg, origin, sys) && NumbersApart(origin) && i < |sys.senders|
    requires Sendable(sys.senders[i], c)
    ensures var s, r := sys.senders[i], Step(cfg, cipher, sys, Send(i, c));
            var h := HeaderFor(s, c).Canonical();
            && r.output.Sent?
            && VerdictOn(cfg, r.after, r.output.wire) ==
                 if Highest(RecordedOn(sys.receiver.guard, StreamOfSender(s))) - s.nonces.Next() < cfg.window
                 then Acceptance(c.payload, h) else Rejection(STALE_RECORD, Some(h))
  {
    var r := Step(cfg, cipher, sys, Send(i, c));
    var e := AtOnce(cfg, cipher, origin, sys, i, c);
    HealthyStep(cfg, cipher, origin, sys, Send(i, c));
    NextIsUnrecorded(cfg, origin, sys, r.after, e, c.payload, r.output);
    assert KeyOf(HeaderOf(e)) == StreamOfSender(sys.senders[i]);
  }

  /** The sender whose budget an entry comes from is the one that made it. */
  lemma MakerOf(cfg: ReceiverConfig, origin: System, sys: System, e: SealEntry) returns (i: nat)
    requires SendersOk(cfg, sys) && TableOk(cfg, sys) && Descends(origin, sys) && e in sys.table
    ensures |e.aad| == HEADER_LEN && i < |sys.senders|
    ensures BornOf(origin.senders[i], e) && MadeBy(sys.senders[i], e)
  {
    assert Native(origin, e);
    i :| 0 <= i < |origin.senders| && BornOf(origin.senders[i], e);
    var j :| 0 <= j < |sys.senders| && MadeBy(sys.senders[j], e);
    var s, t := sys.senders[i].nonces, sys.senders[j].nonces;
    assert i < j ==> DisjointSpaces(s, t);
    assert j < i ==> DisjointSpaces(t, s);
    assert Continues(origin.senders[i], sys.senders[i]);
    assert i == j;
  }

  /** No other sender with budget left serves this one's stream. */
  ghost predicate Alone(origin: System, i: nat)
    requires i < |origin.senders|
  {
    forall j :: 0 <= j < |origin.senders| && j != i && CanSend(origin.senders[j])
                ==> StreamOfSender(origin.senders[j]) != StreamOfSender(origin.senders[i])
  }

  /** A sender alone on its stream is never overtaken by the receiver, so what it
      sends comes back, whatever was sent and delivered before. */
  lemma RoundTripAlone(cfg: ReceiverConfig, cipher: Cipher, origin: System, sys: System, i: nat, c: Call)
    requires Healthy(cfg, origin, sys) && i < |sys.senders|
    requires Sendable(sys.senders[i], c) && Alone(origin, i)
    ensures var r := Step(cfg, cipher, sys, Send(i, c));
            && r.output.Sent?
            && VerdictOn(cfg, r.after, r.output.wire)
               == Acceptance(c.payload, HeaderFor(sys.senders[i], c).Canonical())
  {
    var e := AtOnce(cfg, cipher, origin, sys, i, c);
    AloneLeads(cfg, origin, sys, i);
  }

  lemma AloneLeads(cfg: ReceiverConfig, origin: System, sys: System, i: nat)
    requires Inv(cfg, sys) && Descends(origin, sys) && i < |sys.senders| && Alone(origin, i)
    ensures Highest(RecordedOn(sys.receiver.guard, StreamOfSender(sys.senders[i]))) < sys.senders[i].nonces.Next()
  {
    var key := StreamOfSender(sys.senders[i]);
    if RecordedOn(sys.receiver.guard, key) != {} {
      var e := HighestEntry(sys, key);
      var j := MakerOf(cfg, origin, sys, e);
      assert StreamOfSender(origin.senders[j]) == key;
      assert Continues(origin.senders[i], sys.senders[i]);
    }
  }

  /** A receiver that may track no stream refuses every record as stale. */
  lemma RoundTripWithoutRoom(cfg: ReceiverConfig, cipher: Cipher, sys: System, i: nat, c: Call)
    requires Inv(cfg, sys) && TrackingOk(cfg, sys.receiver.guard) && cfg.maxStreams < 1
    requires i < |sys.senders| && Sendable(sys.senders[i], c)
    requires cfg.expected.None? || sys.senders[i].sessionId == cfg.expected.value
    ensures var r := Step(cfg, cipher, sys, Send(i, c));
            && r.output.Sent?
            && VerdictOn(cfg, r.after, r.output.wire)
               == Rejection(STALE_RECORD, Some(HeaderFor(sys.senders[i], c).Canonical()))
  {
    var r := Step(cfg, cipher, sys, Send(i, c));
    var e := SealedBy(sys, cipher, i, c).entries[0];
    SendFacts(sys.senders[i], cipher, c);
    StepKeepsInv(cfg, cipher, sys, Send(i, c));
    assert SealedBy(sys, cipher, i, c).entries == [e];
    assert r.after.table[|sys.table|] == e;
    SentVerdict(cfg, r.after, e);
  }

  // ---- One sender ----

  /** The system with every sender's budget as its constructor left it. */
  function Rewound(sys: System): System {
    sys.(senders := seq(|sys.senders|, i requires 0 <= i < |sys.senders| =>
                        sys.senders[i].(nonces := sys.senders[i].nonces.(issued := 0))))
  }

  lemma DescendsFromRewound(cfg: ReceiverConfig, sys: System)
    requires SendersValid(sys) && TableOk(cfg, sys)
    ensures Descends(Rewound(sys), sys)
  {
    forall e | e in sys.table ensures Native(Rewound(sys), e) {
      var i :| 0 <= i < |sys.senders| && MadeBy(sys.senders[i], e);
      UnpackValid(e.aad);
      assert BornOf(Rewound(sys).senders[i], e);
    }
  }

  lemma LoneSenderIsDeployed(cfg: ReceiverConfig, sys: System)
    requires |sys.senders| == 1 && cfg.maxStreams >= 1
    requires cfg.expected.None? || cfg.expected == Some(sys.senders[0].sessionId)
    ensures Deployed(cfg, sys) && Alone(sys, 0)
  {
    assert LiveStreams(sys.senders[..0]) == {};
  }

  /** With one sender, which the receiver admits, every payload that can be sent
      comes back exactly if the receiver may track a stream. */
  lemma LoneRoundTrip(cfg: ReceiverConfig, cipher: Cipher, sys: System, c: Call)
    requires Inv(cfg, sys) && TrackingOk(cfg, sys.receiver.guard)
    requires |sys.senders| == 1 && Sendable(sys.senders[0], c)
    requires cfg.expected.None? || cfg.expected == Some(sys.senders[0].sessionId)
    ensures var r, h := Step(cfg, cipher, sys, Send(0, c)), HeaderFor(sys.senders[0], c).Canonical();
            && r.output.Sent?
            && VerdictOn(cfg, r.after, r.output.wire)
               == if cfg.maxStreams >= 1 then Acceptance(c.payload, h) else Rejection(STALE_RECORD, Some(h))
  {
    if cfg.maxStreams >= 1 {
      DescendsFromRewound(cfg, sys);
      LoneSenderIsDeployed(cfg, Rewound(sys));
      RoundTripAlone(cfg, cipher, Rewound(sys), sys, 0, c);
    } else {
      RoundTripWithoutRoom(cfg, cipher, sys, 0, c);
    }
  }
}
