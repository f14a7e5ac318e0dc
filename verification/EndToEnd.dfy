/** Safety of the whole system over every run, under arbitrary network behaviour:
    injective agreement, the exact verdict on any bytes, and where the receiver's
    recorded numbers come from. */
module EndToEnd {
  import opened Basics
  import opened Header
  import opened Suites
  import opened Sender
  import opened ReplaySpec
  import opened ReceiverSpec
  import opened ReceiverRuns
  import opened Session

  /** Event j sent this wire, protecting this payload. */
  predicate SentAt(evs: seq<Event>, rs: seq<Reaction>, j: nat, wire: Bytes, payload: Bytes)
    requires |evs| == |rs| && j < |evs|
  {
    evs[j].Send? && rs[j].output == Sent(wire) && evs[j].call.payload == payload
  }

  /** Event i delivered this wire, and the receiver accepted it. */
  predicate AcceptedWire(evs: seq<Event>, rs: seq<Reaction>, i: nat, wire: Bytes)
    requires |evs| == |rs| && i < |evs|
  {
    evs[i] == Deliver(wire) && rs[i].output.Delivered? && rs[i].output.verdict.Accepted()
  }

  /** The table holds exactly what has been sent. */
  ghost predicate WasSent(evs: seq<Event>, rs: seq<Reaction>, n: nat, e: SealEntry)
    requires |evs| == |rs| && n <= |evs|
  {
    exists j: nat :: j < n && SentAt(evs, rs, j, WireOf(e), e.plaintext)
  }

  predicate AddsEntry(sys: System, r: Reaction, e: SealEntry, payload: Bytes) {
    r.after.table == sys.table + [e] && r.output == Sent(WireOf(e)) && e.plaintext == payload
  }

  /** What one step adds to the table: the entry behind a sent wire, or nothing. */
  lemma StepTable(cfg: ReceiverConfig, cipher: Cipher, sys: System, ev: Event)
    requires SendersValid(sys)
    ensures var r := Step(cfg, cipher, sys, ev);
            if r.output.Sent? then
              ev.Send? && exists e :: AddsEntry(sys, r, e, ev.call.payload)
            else r.after.table == sys.table
  {
    if ev.Send? && ev.from < |sys.senders| {
      SendFacts(sys.senders[ev.from], cipher, ev.call);
      var entries := SealedBy(sys, cipher, ev.from, ev.call).entries;
      if entries != [] {
        assert entries == [entries[0]];
        assert AddsEntry(sys, Step(cfg, cipher, sys, ev), entries[0], ev.call.payload);
      } else {
        assert sys.table + entries == sys.table;
      }
    }
  }

  lemma {:induction false} TableWasSent(
    cfg: ReceiverConfig, cipher: Cipher, sys: System, evs: seq<Event>, n: nat, e: SealEntry)
    requires SendersValid(sys) && sys.table == [] && n <= |evs|
    requires e in SystemAt(cfg, cipher, sys, evs, n).table
    ensures WasSent(evs, Run(cfg, cipher, sys, evs), n, e)
    decreases n
  {
    if n > 0 {
      var rs, before := Run(cfg, cipher, sys, evs), SystemAt(cfg, cipher, sys, evs, n - 1);
      RunStep(cfg, cipher, sys, evs, n - 1);
      StepTable(cfg, cipher, before, evs[n - 1]);
      if e in before.table {
        TableWasSent(cfg, cipher, sys, evs, n - 1, e);
        var j: nat :| j < n - 1 && SentAt(evs, rs, j, WireOf(e), e.plaintext);
      } else {
        assert SentAt(evs, rs, n - 1, WireOf(e), e.plaintext);
      }
    }
  }

  /** Once sealed, always sealed. */
  lemma {:induction false} TableGrows(
    cfg: ReceiverConfig, cipher: Cipher, sys: System, evs: seq<Event>, i: nat, n: nat)
    requires SendersValid(sys) && i <= n <= |evs|
    ensures SystemAt(cfg, cipher, sys, evs, i).table <= SystemAt(cfg, cipher, sys, evs, n).table
    decreases n
  {
    if i < n {
      TableGrows(cfg, cipher, sys, evs, i, n - 1);
      RunStep(cfg, cipher, sys, evs, n - 1);
      StepTable(cfg, cipher, SystemAt(cfg, cipher, sys, evs, n - 1), evs[n - 1]);
    }
  }

  /** A sent wire is the wire of an entry that stays in the table. */
  lemma SentIsSealed(cfg: ReceiverConfig, cipher: Cipher, sys: System, evs: seq<Event>, j: nat, n: nat)
    returns (e: SealEntry)
    requires SendersValid(sys) && j < n <= |evs| && Run(cfg, cipher, sys, evs)[j].output.Sent?
    ensures evs[j].Send? && e in SystemAt(cfg, cipher, sys, evs, n).table
    ensures SentAt(evs, Run(cfg, cipher, sys, evs), j, WireOf(e), e.plaintext)
  {
    var before := SystemAt(cfg, cipher, sys, evs, j);
    RunStep(cfg, cipher, sys, evs, j);
    StepTable(cfg, cipher, before, evs[j]);
    var r := Step(cfg, cipher, before, evs[j]);
    e :| AddsEntry(before, r, e, evs[j].call.payload);
    TableGrows(cfg, cipher, sys, evs, j + 1, n);
    assert e in r.after.table;
  }

  /** In a reachable system that entry is honest, and the wire reads back as it. */
  lemma SentEntry(cfg: ReceiverConfig, cipher: Cipher, sys: System, evs: seq<Event>, j: nat, n: nat)
    returns (e: SealEntry)
    requires Inv(cfg, sys) && j < n <= |evs| && Run(cfg, cipher, sys, evs)[j].output.Sent?
    ensures evs[j].Send? && e in SystemAt(cfg, cipher, sys, evs, n).table && Honest(e, cfg.suiteId)
    ensures SentAt(evs, Run(cfg, cipher, sys, evs), j, WireOf(e), e.plaintext)
    ensures ParseRecord(WireOf(e)) == Success(ProtectedRecord(HeaderOf(e), e.output))
  {
    e := SentIsSealed(cfg, cipher, sys, evs, j, n);
    Reachable(cfg, cipher, sys, evs, n);
    HonestWireParses(e, cfg.suiteId);
  }

  // ---- Injective agreement ----

  lemma SameWireSameNonce(e: SealEntry, f: SealEntry, suiteId: int)
    requires Honest(e, suiteId) && Honest(f, suiteId) && WireOf(e) == WireOf(f)
    ensures e.nonce == f.nonce
  {
    assert e.aad == WireOf(e)[..HEADER_LEN] && f.aad == WireOf(f)[..HEADER_LEN];
  }

  /** What was just sealed has a wire that no earlier entry has. */
  lemma NewWire(cfg: ReceiverConfig, sys: System, r: Reaction, e: SealEntry, payload: Bytes, f: SealEntry)
    requires TableOk(cfg, r.after) && NonceUnique(r.after.table)
    requires AddsEntry(sys, r, e, payload) && f in sys.table
    ensures WireOf(e) != WireOf(f)
  {
    var table := r.after.table;
    assert e in table && f in table by {
      assert e == table[|sys.table|];
    }
    var k :| 0 <= k < |sys.table| && sys.table[k] == f;
    assert table[k].nonce != table[|sys.table|].nonce;
    if WireOf(e) == WireOf(f) {
      SameWireSameNonce(e, f, cfg.suiteId);
    }
  }

  /** No wire is sent twice: two sends differ in their nonces. */
  lemma NoWireSentTwice(cfg: ReceiverConfig, cipher: Cipher, sys: System, evs: seq<Event>, j: nat, k: nat)
    requires Inv(cfg, sys) && j < k < |evs|
    requires Run(cfg, cipher, sys, evs)[j].output.Sent? && Run(cfg, cipher, sys, evs)[k].output.Sent?
    ensures Run(cfg, cipher, sys, evs)[j].output.wire != Run(cfg, cipher, sys, evs)[k].output.wire
  {
    var before := SystemAt(cfg, cipher, sys, evs, k);
    var r := Step(cfg, cipher, before, evs[k]);
    var f := SentIsSealed(cfg, cipher, sys, evs, j, k);
    Reachable(cfg, cipher, sys, evs, k);
    StepKeepsInv(cfg, cipher, before, evs[k]);
    RunStep(cfg, cipher, sys, evs, k);
    StepTable(cfg, cipher, before, evs[k]);
    var e :| AddsEntry(before, r, e, evs[k].call.payload);
    NewWire(cfg, before, r, e, evs[k].call.payload, f);
  }

  /** Event j is the only one that sent this wire. */
  predicate OnlySend(rs: seq<Reaction>, j: nat, wire: Bytes) {
    forall k :: 0 <= k < |rs| && rs[k].output == Sent(wire) ==> k == j
  }

  /** Agreement: whatever bytes the network delivers, an accepted wire is byte for
      byte one that exactly one event sent, earlier, and its plaintext is the
      payload given to that send. */
  lemma Agreement(cfg: ReceiverConfig, cipher: Cipher, sys: System, evs: seq<Event>, i: nat)
    requires Initial(cfg, sys) && i < |evs|
    requires evs[i].Deliver? && AcceptedWire(evs, Run(cfg, cipher, sys, evs), i, evs[i].wire)
    ensures var rs := Run(cfg, cipher, sys, evs);
            && rs[i].output.verdict.plaintext.Some?
            && exists j: nat :: j < i && SentAt(evs, rs, j, evs[i].wire, rs[i].output.verdict.plaintext.value)
                                && OnlySend(rs, j, evs[i].wire)
  {
    var rs, wire := Run(cfg, cipher, sys, evs), evs[i].wire;
    var j := AcceptedWasSent(cfg, cipher, sys, evs, i);
    InitialInv(cfg, sys);
    forall k | 0 <= k < |rs| && rs[k].output == Sent(wire) ensures k == j {
      if k < j {
        NoWireSentTwice(cfg, cipher, sys, evs, k, j);
      } else if j < k {
        NoWireSentTwice(cfg, cipher, sys, evs, j, k);
      }
    }
  }

  lemma AcceptedWasSent(cfg: ReceiverConfig, cipher: Cipher, sys: System, evs: seq<Event>, i: nat) returns (j: nat)
    requires SendersValid(sys) && sys.table == [] && i < |evs|
    requires evs[i].Deliver? && AcceptedWire(evs, Run(cfg, cipher, sys, evs), i, evs[i].wire)
    ensures var rs := Run(cfg, cipher, sys, evs);
            && rs[i].output.verdict.plaintext.Some?
            && j < i && SentAt(evs, rs, j, evs[i].wire, rs[i].output.verdict.plaintext.value)
  {
    var rs := Run(cfg, cipher, sys, evs);
    RunStep(cfg, cipher, sys, evs, i);
    var e := AcceptedWasSealed(cfg, SystemAt(cfg, cipher, sys, evs, i), evs[i].wire);
    TableWasSent(cfg, cipher, sys, evs, i, e);
    j :| j < i && SentAt(evs, rs, j, WireOf(e), e.plaintext);
  }

  lemma StepGuardGrows(cfg: ReceiverConfig, cipher: Cipher, sys: System, ev: Event)
    requires SendersValid(sys)
    ensures GuardGrows(sys.receiver.guard, Step(cfg, cipher, sys, ev).after.receiver.guard)
  {
    if ev.Deliver? {
      StepGrows(cfg, sys.receiver, Presented(cfg, sys, ev.wire));
    }
  }

  lemma {:induction false} SystemGuardGrows(
    cfg: ReceiverConfig, cipher: Cipher, sys: System, evs: seq<Event>, i: nat, j: nat)
    requires SendersValid(sys) && i <= j <= |evs|
    ensures GuardGrows(SystemAt(cfg, cipher, sys, evs, i).receiver.guard,
                       SystemAt(cfg, cipher, sys, evs, j).receiver.guard)
    decreases j
  {
    if i < j {
      var before := SystemAt(cfg, cipher, sys, evs, j - 1);
      SystemGuardGrows(cfg, cipher, sys, evs, i, j - 1);
      RunStep(cfg, cipher, sys, evs, j - 1);
      StepGuardGrows(cfg, cipher, before, evs[j - 1]);
      GrowthChains(SystemAt(cfg, cipher, sys, evs, i).receiver.guard, before.receiver.guard,
                   SystemAt(cfg, cipher, sys, evs, j).receiver.guard);
    }
  }

  /** An accepted wire is readable, its number was new on its stream, and has been
      recorded there afterwards. */
  lemma AcceptedFacts(cfg: ReceiverConfig, cipher: Cipher, sys: System, evs: seq<Event>, i: nat)
    requires SendersValid(sys) && i < |evs|
    requires evs[i].Deliver? && AcceptedWire(evs, Run(cfg, cipher, sys, evs), i, evs[i].wire)
    ensures ParseRecord(evs[i].wire).Success?
    ensures var h := ParseRecord(evs[i].wire).value.header;
            && h.seqNo !in RecordedOn(SystemAt(cfg, cipher, sys, evs, i).receiver.guard, KeyOf(h))
            && h.seqNo in RecordedOn(SystemAt(cfg, cipher, sys, evs, i + 1).receiver.guard, KeyOf(h))
  {
    var before := SystemAt(cfg, cipher, sys, evs, i);
    RunStep(cfg, cipher, sys, evs, i);
    AcceptedStep(cfg, before.receiver, Presented(cfg, before, evs[i].wire));
  }

  /** Injectivity: no wire is accepted twice, however often it is delivered. */
  lemma NoWireAcceptedTwice(cfg: ReceiverConfig, cipher: Cipher, sys: System, evs: seq<Event>, i: nat, j: nat)
    requires SendersValid(sys) && i < j < |evs|
    requires evs[i].Deliver? && AcceptedWire(evs, Run(cfg, cipher, sys, evs), i, evs[i].wire)
    requires evs[j].Deliver? && AcceptedWire(evs, Run(cfg, cipher, sys, evs), j, evs[j].wire)
    ensures evs[i].wire != evs[j].wire
  {
    AcceptedFacts(cfg, cipher, sys, evs, i);
    AcceptedFacts(cfg, cipher, sys, evs, j);
    SystemGuardGrows(cfg, cipher, sys, evs, i + 1, j);
  }

  // ---- The verdict on any bytes, exactly ----

  /** The entry names an admissible session, and its number is fresh on its stream. */
  ghost predicate Admissible(cfg: ReceiverConfig, sys: System, e: SealEntry) {
    && |e.aad| == HEADER_LEN
    && SessionMatches(cfg, HeaderOf(e))
    && GuardClassify(cfg.window, cfg.maxStreams, sys.receiver.guard, KeyOf(HeaderOf(e)), HeaderOf(e).seqNo) == FRESH
  }

  /** In a reachable system, with no assumption on the streams, arbitrary bytes are
      accepted exactly when they are a sent wire of an admissible session whose
      number is still fresh; and then with that wire's own plaintext. */
  lemma AcceptedIff(cfg: ReceiverConfig, sys: System, wire: Bytes, plaintext: Bytes)
    requires Inv(cfg, sys)
    ensures VerdictOn(cfg, sys, wire).plaintext == Some(plaintext) <==>
            exists e :: e in sys.table && WireOf(e) == wire && e.plaintext == plaintext && Admissible(cfg, sys, e)
  {
    if VerdictOn(cfg, sys, wire).Accepted() {
      var e := AcceptedWasSealed(cfg, sys, wire);
      SealedIsPresented(cfg, sys, e);
      AcceptedStep(cfg, sys.receiver, Presented(cfg, sys, wire));
    }
    forall e | e in sys.table && WireOf(e) == wire ensures
      Presented(cfg, sys, wire) == (if SessionMatches(cfg, HeaderOf(e)) then Candidate(HeaderOf(e), Some(e.plaintext))
                                    else Refused(SESSION_MISMATCH, Some(HeaderOf(e))))
    {
      SealedIsPresented(cfg, sys, e);
    }
  }

  /** Whether number x is accepted when the set a has been: ahead of its highest
      number, or not in it and fewer than `window` behind. */
  ghost predicate Admits(window: nat, a: set<nat>, x: int) {
    x > Highest(a) || (x !in a && Highest(a) - x < window)
  }

  /** Why number x is not accepted: too far behind, or a repeat. */
  ghost function Overdue(window: nat, a: set<nat>, x: int): RejectReason {
    if Highest(a) - x >= window then STALE_RECORD else REPLAY_DETECTED
  }

  /** The verdict on screened bytes when the guard has room for their stream: the
      number alone decides whether opening matters. */
  lemma JudgeCandidate(cfg: ReceiverConfig, g: GuardView, h: RecordHeader, recovered: Option<Bytes>)
    requires h.Valid() && (KeyOf(h) in g || |g| < cfg.maxStreams)
    ensures var a := RecordedOn(g, KeyOf(h));
            Judge(cfg, g, Candidate(h, recovered)) ==
              if !Admits(cfg.window, a, h.seqNo) then Rejection(Overdue(cfg.window, a, h.seqNo), Some(h))
              else if recovered.None? then Rejection(AUTH_FAILED, Some(h))
              else Acceptance(recovered.value, h)
  {}

  /** Without room, a record of a new stream is stale, fresh or not, and whether or
      not it opens. */
  lemma NewStreamAtCap(cfg: ReceiverConfig, g: GuardView, h: RecordHeader, recovered: Option<Bytes>)
    requires h.seqNo >= 0 && KeyOf(h) !in g && |g| >= cfg.maxStreams
    ensures Judge(cfg, g, Candidate(h, recovered)) == Rejection(STALE_RECORD, Some(h))
  {
    JudgeExactly(cfg, g, h, recovered);
  }

  /** The verdict on any sent wire in any reachable system, with no assumption on
      the configuration: another session's, a new stream's at the cap, or decided
      by its number. */
  lemma SentVerdict(cfg: ReceiverConfig, sys: System, e: SealEntry)
    requires Inv(cfg, sys) && e in sys.table
    ensures var g, h := sys.receiver.guard, HeaderOf(e);
            var a := RecordedOn(g, KeyOf(h));
            VerdictOn(cfg, sys, WireOf(e)) ==
              if cfg.expected.Some? && h.sessionId != cfg.expected.value then Rejection(SESSION_MISMATCH, Some(h))
              else if KeyOf(h) !in g && |g| >= cfg.maxStreams then Rejection(STALE_RECORD, Some(h))
              else if Admits(cfg.window, a, h.seqNo) then Acceptance(e.plaintext, h)
              else Rejection(Overdue(cfg.window, a, h.seqNo), Some(h))
  {
    var g, h := sys.receiver.guard, HeaderOf(e);
    SealedIsPresented(cfg, sys, e);
    UnpackValid(e.aad);
    if KeyOf(h) !in g && |g| >= cfg.maxStreams {
      NewStreamAtCap(cfg, g, h, Some(e.plaintext));
    } else {
      JudgeCandidate(cfg, g, h, Some(e.plaintext));
    }
  }

  // ---- Where recorded numbers come from ----

  function StreamOfSender(s: SenderState): StreamKey {
    StreamKey(s.sessionId, s.streamId)
  }

  /** Number x of a stream is recorded only after a wire carrying it was accepted. */
  ghost predicate WasAccepted(evs: seq<Event>, rs: seq<Reaction>, n: nat, key: StreamKey, x: int)
    requires |evs| == |rs| && n <= |evs|
  {
    exists i: nat :: i < n && evs[i].Deliver? && AcceptedWire(evs, rs, i, evs[i].wire)
                     && CarriesNumber(evs[i].wire, key, x)
  }

  predicate CarriesNumber(wire: Bytes, key: StreamKey, x: int) {
    var r := ParseRecord(wire);
    r.Success? && KeyOf(r.value.header) == key && r.value.header.seqNo == x
  }

  /** What one step can add to the recorded numbers. */
  lemma StepRecords(cfg: ReceiverConfig, cipher: Cipher, sys: System, ev: Event, key: StreamKey, x: nat)
    requires SendersValid(sys)
    requires x in RecordedOn(Step(cfg, cipher, sys, ev).after.receiver.guard, key)
    requires x !in RecordedOn(sys.receiver.guard, key)
    ensures ev.Deliver? && VerdictOn(cfg, sys, ev.wire).Accepted() && CarriesNumber(ev.wire, key, x)
  {
    if ev.Deliver? {
      var y := Presented(cfg, sys, ev.wire);
      if VerdictOn(cfg, sys, ev.wire).Accepted() {
        AcceptedStep(cfg, sys.receiver, y);
      } else {
        RejectedStep(cfg, sys.receiver, y);
      }
    }
  }

  lemma {:induction false} RecordedWasAccepted(
    cfg: ReceiverConfig, cipher: Cipher, sys: System, evs: seq<Event>, n: nat, key: StreamKey, x: nat)
    requires SendersValid(sys) && sys.receiver.guard == map[] && n <= |evs|
    requires x in RecordedOn(SystemAt(cfg, cipher, sys, evs, n).receiver.guard, key)
    ensures WasAccepted(evs, Run(cfg, cipher, sys, evs), n, key, x)
    decreases n
  {
    if n > 0 {
      var rs, before := Run(cfg, cipher, sys, evs), SystemAt(cfg, cipher, sys, evs, n - 1);
      RunStep(cfg, cipher, sys, evs, n - 1);
      if x in RecordedOn(before.receiver.guard, key) {
        RecordedWasAccepted(cfg, cipher, sys, evs, n - 1, key, x);
      } else {
        StepRecords(cfg, cipher, before, evs[n - 1], key, x);
        assert AcceptedWire(evs, rs, n - 1, evs[n - 1].wire);
      }
    }
  }

  /** The entry behind a wire accepted earlier in the run. */
  lemma AcceptedEntry(cfg: ReceiverConfig, cipher: Cipher, sys: System, evs: seq<Event>, i: nat, n: nat)
    returns (f: SealEntry)
    requires SendersValid(sys) && i < n <= |evs|
    requires evs[i].Deliver? && AcceptedWire(evs, Run(cfg, cipher, sys, evs), i, evs[i].wire)
    ensures f in SystemAt(cfg, cipher, sys, evs, n).table && WireOf(f) == evs[i].wire
    ensures |f.aad| == HEADER_LEN && ParseRecord(evs[i].wire).Success?
    ensures HeaderOf(f) == ParseRecord(evs[i].wire).value.header
  {
    RunStep(cfg, cipher, sys, evs, i);
    f := AcceptedWasSealed(cfg, SystemAt(cfg, cipher, sys, evs, i), evs[i].wire);
    TableGrows(cfg, cipher, sys, evs, i, n);
  }

  /** No wire of the same stream sent so far is `window` or more numbers ahead. */
  ghost predicate WithinWindow(cfg: ReceiverConfig, evs: seq<Event>, rs: seq<Reaction>, n: nat, wire: Bytes)
    requires |evs| == |rs| && n <= |evs| && ParseRecord(wire).Success?
  {
    var h := ParseRecord(wire).value.header;
    forall j: nat, x: int :: j < n && rs[j].output.Sent? && CarriesNumber(rs[j].output.wire, KeyOf(h), x)
                             ==> x - h.seqNo < cfg.window
  }

  /** The entry that carried the highest number recorded on a stream. */
  lemma HighestEntry(sys: System, key: StreamKey) returns (e: SealEntry)
    requires GuardOk(sys) && RecordedOn(sys.receiver.guard, key) != {}
    ensures e in sys.table && |e.aad| == HEADER_LEN && KeyOf(HeaderOf(e)) == key
    ensures HeaderOf(e).seqNo == Highest(RecordedOn(sys.receiver.guard, key))
  {
    var x := Highest(RecordedOn(sys.receiver.guard, key));
    assert SealedOn(sys, key, x);
    e :| e in sys.table && |e.aad| == HEADER_LEN && KeyOf(HeaderOf(e)) == key && HeaderOf(e).seqNo == x;
  }

  /** The highest number recorded on a stream was sent on it. */
  lemma HighestWasSent(cfg: ReceiverConfig, cipher: Cipher, sys: System, evs: seq<Event>, n: nat, key: StreamKey)
    requires Initial(cfg, sys) && n <= |evs|
    requires RecordedOn(SystemAt(cfg, cipher, sys, evs, n).receiver.guard, key) != {}
    ensures exists j: nat :: j < n && Run(cfg, cipher, sys, evs)[j].output.Sent?
              && CarriesNumber(Run(cfg, cipher, sys, evs)[j].output.wire, key,
                               Highest(RecordedOn(SystemAt(cfg, cipher, sys, evs, n).receiver.guard, key)))
  {
    var here := SystemAt(cfg, cipher, sys, evs, n);
    InitialInv(cfg, sys);
    Reachable(cfg, cipher, sys, evs, n);
    var e := HighestEntry(here, key);
    HonestWireParses(e, cfg.suiteId);
    TableWasSent(cfg, cipher, sys, evs, n, e);
  }

  /** The receiver never runs ahead of the senders: the highest number recorded on
      a stream is one that a sender of that stream has already issued. */
  lemma HighestWasIssued(cfg: ReceiverConfig, sys: System, key: StreamKey)
    requires Inv(cfg, sys) && RecordedOn(sys.receiver.guard, key) != {}
    ensures exists i :: 0 <= i < |sys.senders| && StreamOfSender(sys.senders[i]) == key
              && var s, x := sys.senders[i].nonces, Highest(RecordedOn(sys.receiver.guard, key));
                 s.start <= x < s.Next()
  {
    var e := HighestEntry(sys, key);
    var i :| 0 <= i < |sys.senders| && MadeBy(sys.senders[i], e);
    assert StreamOfSender(sys.senders[i]) == key;
  }
}
