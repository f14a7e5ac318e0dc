/** The end-to-end system of srp/session.py: senders and one receiver sharing a key
    over a network that may deliver any bytes at any time.  A `Channel` is the
    system with one sender. */
module Session {
  import opened Basics
  import opened Header
  import opened Suites
  import opened Nonce
  import opened Sender
  import opened ReplaySpec
  import opened ReceiverSpec

  datatype System = System(senders: seq<SenderState>, receiver: ReceiverState, table: seq<SealEntry>)

  datatype Event =
    | Send(from: nat, call: Call)
    | Deliver(wire: Bytes)

  datatype Output =
    | Sent(wire: Bytes)
    | SendFailed(error: SrpError)
    | Delivered(verdict: Verdict)
    | NoSuchSender

  datatype Reaction = Reaction(after: System, output: Output)

  function SealedBy(sys: System, cipher: Cipher, i: nat, c: Call): Sealing
    requires i < |sys.senders| && sys.senders[i].Valid()
  {
    SealCall(sys.senders[i], cipher, c)
  }

  /** The adversary's view of a delivery: any bytes, screened against what has been
      sealed so far. */
  function Presented(cfg: ReceiverConfig, sys: System, wire: Bytes): (x: Screened)
    ensures x.Candidate? ==> x.header.Valid()
  {
    Screen(cfg, TableOpener(sys.table), wire)
  }

  ghost function VerdictOn(cfg: ReceiverConfig, sys: System, wire: Bytes): Verdict {
    Judge(cfg, sys.receiver.guard, Presented(cfg, sys, wire))
  }

  ghost predicate SendersValid(sys: System) {
    forall i :: 0 <= i < |sys.senders| ==> sys.senders[i].Valid()
  }

  ghost function Step(cfg: ReceiverConfig, cipher: Cipher, sys: System, ev: Event): (r: Reaction)
    requires SendersValid(sys)
    ensures SendersValid(r.after) && |r.after.senders| == |sys.senders|
  {
    match ev
    case Send(i, c) =>
      if i >= |sys.senders| then Reaction(sys, NoSuchSender)
      else
        var s := SealedBy(sys, cipher, i, c);
        Reaction(
          System(sys.senders[i := s.after], sys.receiver, sys.table + s.entries),
          if s.result.Success? then Sent(WireOf(s.entries[0])) else SendFailed(s.result.error))
    case Deliver(wire) =>
      Reaction(sys.(receiver := After(cfg, sys.receiver, Presented(cfg, sys, wire))),
               Delivered(VerdictOn(cfg, sys, wire)))
  }

  // ---- Sealed entries and wires ----

  /** Acceptance implies origin: whatever the receiver accepts is, byte for byte,
      the wire of an entry some sender sealed, with its plaintext.  This needs no
      assumption about the table: the header it authenticates reprints exactly. */
  lemma AcceptedWasSealed(cfg: ReceiverConfig, sys: System, wire: Bytes) returns (e: SealEntry)
    requires VerdictOn(cfg, sys, wire).Accepted()
    ensures e in sys.table && WireOf(e) == wire && |e.aad| == HEADER_LEN
    ensures VerdictOn(cfg, sys, wire) == Acceptance(e.plaintext, HeaderOf(e))
    ensures Presented(cfg, sys, wire) == Candidate(HeaderOf(e), Some(e.plaintext))
  {
    var record := ParseRecord(wire).value;
    var nonce := NonceOf(record.header.noncePrefix, record.header.seqNo);
    PrintOfParse(wire);
    LookupIsSealed(sys.table, nonce, record.ciphertextAndTag, wire[..HEADER_LEN]);
    var plaintext := Lookup(sys.table, nonce, record.ciphertextAndTag, wire[..HEADER_LEN]).value;
    e := SealEntry(nonce, wire[..HEADER_LEN], plaintext, record.ciphertextAndTag);
  }

  /** A sealed entry's wire opens to its plaintext, provided no nonce was reused. */
  lemma SealedIsPresented(cfg: ReceiverConfig, sys: System, e: SealEntry)
    requires NonceUnique(sys.table) && e in sys.table && Honest(e, cfg.suiteId)
    ensures Presented(cfg, sys, WireOf(e)) ==
            if SessionMatches(cfg, HeaderOf(e)) then Candidate(HeaderOf(e), Some(e.plaintext))
            else Refused(SESSION_MISMATCH, Some(HeaderOf(e)))
  {
    HonestWireParses(e, cfg.suiteId);
    EncodingOfUnpack(e.aad);
    OpenIsExact(sys.table, e.nonce, e.output, e.aad, e.plaintext);
  }

  // ---- The invariant ----

  /** The entry was sealed by this sender, under a number it has already issued. */
  predicate MadeBy(s: SenderState, e: SealEntry)
    requires |e.aad| == HEADER_LEN
  {
    var h := HeaderOf(e);
    && h.sessionId == s.sessionId
    && h.streamId == s.streamId
    && h.noncePrefix == s.nonces.prefix
    && s.nonces.start <= h.seqNo < s.nonces.Next()
  }

  ghost predicate Authored(sys: System, e: SealEntry)
    requires |e.aad| == HEADER_LEN
  {
    exists i :: 0 <= i < |sys.senders| && MadeBy(sys.senders[i], e)
  }

  /** All senders serve the receiver's suite, and no two can issue one nonce. */
  ghost predicate SendersOk(cfg: ReceiverConfig, sys: System) {
    && SendersValid(sys)
    && (forall i :: 0 <= i < |sys.senders| ==> sys.senders[i].suiteId == cfg.suiteId)
    && forall i, j :: 0 <= i < j < |sys.senders| ==> DisjointSpaces(sys.senders[i].nonces, sys.senders[j].nonces)
  }

  ghost predicate TableOk(cfg: ReceiverConfig, sys: System) {
    forall e :: e in sys.table ==> Honest(e, cfg.suiteId) && Authored(sys, e)
  }

  /** Some entry carries number x of stream `key`. */
  ghost predicate SealedOn(sys: System, key: StreamKey, x: int) {
    exists e :: e in sys.table && |e.aad| == HEADER_LEN && KeyOf(HeaderOf(e)) == key && HeaderOf(e).seqNo == x
  }

  ghost predicate GuardOk(sys: System) {
    forall k, x :: k in sys.receiver.guard && x in sys.receiver.guard[k] ==> SealedOn(sys, k, x)
  }

  ghost predicate Inv(cfg: ReceiverConfig, sys: System) {
    SendersOk(cfg, sys) && TableOk(cfg, sys) && NonceUnique(sys.table) && GuardOk(sys)
  }

  /** A stream is only tracked if the cap allows any, and it has accepted something. */
  ghost predicate TrackingOk(cfg: ReceiverConfig, g: GuardView) {
    forall k :: k in g ==> g[k] != {} && cfg.maxStreams >= 1
  }

  ghost predicate WithinCap(cfg: ReceiverConfig, g: GuardView) {
    |g| <= Max(0, cfg.maxStreams)
  }

  /** Nothing sealed, nothing received. */
  ghost predicate Initial(cfg: ReceiverConfig, sys: System) {
    SendersOk(cfg, sys) && sys.table == [] && sys.receiver == EMPTY_RECEIVER
  }

  lemma InitialInv(cfg: ReceiverConfig, sys: System)
    requires Initial(cfg, sys)
    ensures Inv(cfg, sys) && TrackingOk(cfg, sys.receiver.guard) && WithinCap(cfg, sys.receiver.guard)
  {
    assert |sys.receiver.guard| == 0;
  }

  // ---- Sending keeps the invariant ----

  /** What a send does to its sender: the identity and budget stay, the counter
      does not go back, and a new entry takes the number it had reached. */
  lemma SendFacts(s: SenderState, cipher: Cipher, c: Call)
    requires s.Valid()
    ensures var r := SealCall(s, cipher, c);
            && r.after.Valid()
            && r.after.(nonces := s.nonces, stats := s.stats) == s
            && r.after.nonces.(issued := s.nonces.issued) == s.nonces
            && r.after.nonces.Next() >= s.nonces.Next()
            && (r.result.Failure? ==> r.entries == [])
            && (r.result.Success? ==>
                 && |r.entries| == 1
                 && Honest(r.entries[0], s.suiteId)
                 && MadeBy(r.after, r.entries[0])
                 && r.entries[0].plaintext == c.payload
                 && HeaderOf(r.entries[0]) == HeaderFor(s, c).Canonical()
                 && HeaderOf(r.entries[0]).seqNo == s.nonces.Next() < r.after.nonces.Next())
  {
    if SealCall(s, cipher, c).result.Success? {
      SealIsHonest(s, cipher, c);
    }
  }

  lemma SendKeepsSenders(cfg: ReceiverConfig, cipher: Cipher, sys: System, i: nat, c: Call)
    requires SendersOk(cfg, sys) && i < |sys.senders|
    ensures SendersOk(cfg, Step(cfg, cipher, sys, Send(i, c)).after)
  {
    SendFacts(sys.senders[i], cipher, c);
  }

  lemma StillAuthored(sys: System, i: nat, s: SenderState, receiver: ReceiverState, table: seq<SealEntry>, e: SealEntry)
    requires i < |sys.senders| && |e.aad| == HEADER_LEN && Authored(sys, e)
    requires s.sessionId == sys.senders[i].sessionId && s.streamId == sys.senders[i].streamId
    requires s.nonces.(issued := sys.senders[i].nonces.issued) == sys.senders[i].nonces
    requires s.nonces.Next() >= sys.senders[i].nonces.Next()
    ensures Authored(System(sys.senders[i := s], receiver, table), e)
  {
    var after := System(sys.senders[i := s], receiver, table);
    var j :| 0 <= j < |sys.senders| && MadeBy(sys.senders[j], e);
    assert MadeBy(after.senders[j], e);
  }

  /** A number not yet issued yields a nonce no sealed entry has. */
  lemma NextNonceIsNew(cfg: ReceiverConfig, sys: System, i: nat, e: SealEntry)
    requires SendersOk(cfg, sys) && TableOk(cfg, sys) && i < |sys.senders| && e in sys.table
    requires !sys.senders[i].nonces.Exhausted()
    ensures e.nonce != NonceOf(sys.senders[i].nonces.prefix, sys.senders[i].nonces.Next())
  {
    var s := sys.senders[i].nonces;
    var j :| 0 <= j < |sys.senders| && MadeBy(sys.senders[j], e);
    var t := sys.senders[j].nonces;
    assert i < j ==> DisjointSpaces(s, t);
    assert j < i ==> DisjointSpaces(t, s);
    if e.nonce == NonceOf(s.prefix, s.Next()) {
      NonceInjective(HeaderOf(e).noncePrefix, HeaderOf(e).seqNo, s.prefix, s.Next());
    }
  }

  lemma SendKeepsTable(cfg: ReceiverConfig, cipher: Cipher, sys: System, i: nat, c: Call)
    requires SendersOk(cfg, sys) && TableOk(cfg, sys) && NonceUnique(sys.table) && i < |sys.senders|
    ensures TableOk(cfg, Step(cfg, cipher, sys, Send(i, c)).after)
    ensures NonceUnique(Step(cfg, cipher, sys, Send(i, c)).after.table)
  {
    var r, after := SealedBy(sys, cipher, i, c), Step(cfg, cipher, sys, Send(i, c)).after;
    SendFacts(sys.senders[i], cipher, c);
    forall e | e in after.table ensures Honest(e, cfg.suiteId) && Authored(after, e) {
      if e in sys.table {
        StillAuthored(sys, i, r.after, after.receiver, after.table, e);
      } else {
        assert e == r.entries[0] && MadeBy(after.senders[i], e);
      }
    }
    if r.result.Success? {
      forall k | 0 <= k < |sys.table| ensures sys.table[k].nonce != r.entries[0].nonce {
        NextNonceIsNew(cfg, sys, i, sys.table[k]);
      }
    }
  }

  lemma MoreSealed(sys: System, after: System, key: StreamKey, x: int)
    requires SealedOn(sys, key, x) && forall e :: e in sys.table ==> e in after.table
    ensures SealedOn(after, key, x)
  {
    var e :| e in sys.table && |e.aad| == HEADER_LEN && KeyOf(HeaderOf(e)) == key && HeaderOf(e).seqNo == x;
    assert e in after.table;
  }

  lemma SendKeepsGuard(cfg: ReceiverConfig, cipher: Cipher, sys: System, i: nat, c: Call)
    requires SendersValid(sys) && GuardOk(sys) && i < |sys.senders|
    ensures GuardOk(Step(cfg, cipher, sys, Send(i, c)).after)
  {
    var after := Step(cfg, cipher, sys, Send(i, c)).after;
    forall k, x | k in after.receiver.guard && x in after.receiver.guard[k] ensures SealedOn(after, k, x) {
      MoreSealed(sys, after, k, x);
    }
  }

  // ---- Delivering keeps the invariant ----

  lemma DeliverKeepsGuard(cfg: ReceiverConfig, cipher: Cipher, sys: System, wire: Bytes)
    requires SendersValid(sys) && GuardOk(sys)
    ensures GuardOk(Step(cfg, cipher, sys, Deliver(wire)).after)
  {
    var after := Step(cfg, cipher, sys, Deliver(wire)).after;
    var x := Presented(cfg, sys, wire);
    if VerdictOn(cfg, sys, wire).Accepted() {
      var e := AcceptedWasSealed(cfg, sys, wire);
      AcceptedStep(cfg, sys.receiver, x);
      forall k, n | k in after.receiver.guard && n in after.receiver.guard[k] ensures SealedOn(after, k, n) {
        if k in sys.receiver.guard && n in sys.receiver.guard[k] {
          MoreSealed(sys, after, k, n);
        } else {
          assert k == KeyOf(HeaderOf(e)) && n == HeaderOf(e).seqNo;
        }
      }
    } else {
      RejectedStep(cfg, sys.receiver, x);
      forall k, n | k in after.receiver.guard && n in after.receiver.guard[k] ensures SealedOn(after, k, n) {
        MoreSealed(sys, after, k, n);
      }
    }
  }

  lemma SameAuthors(sys: System, after: System, e: SealEntry)
    requires |e.aad| == HEADER_LEN && Authored(sys, e) && after.senders == sys.senders
    ensures Authored(after, e)
  {}

  /** Every step, by the senders or by the network, keeps the invariant. */
  lemma StepKeepsInv(cfg: ReceiverConfig, cipher: Cipher, sys: System, ev: Event)
    requires Inv(cfg, sys)
    ensures Inv(cfg, Step(cfg, cipher, sys, ev).after)
  {
    match ev
    case Send(i, c) =>
      if i < |sys.senders| {
        SendKeepsSenders(cfg, cipher, sys, i, c);
        SendKeepsTable(cfg, cipher, sys, i, c);
        SendKeepsGuard(cfg, cipher, sys, i, c);
      }
    case Deliver(wire) =>
      DeliverKeepsGuard(cfg, cipher, sys, wire);
      var after := Step(cfg, cipher, sys, ev).after;
      forall e | e in after.table ensures Honest(e, cfg.suiteId) && Authored(after, e) {
        SameAuthors(sys, after, e);
      }
  }

  lemma DeliverKeepsTracking(cfg: ReceiverConfig, st: ReceiverState, x: Screened)
    requires x.Candidate? ==> x.header.Valid()
    requires TrackingOk(cfg, st.guard)
    ensures TrackingOk(cfg, After(cfg, st, x).guard)
  {
    if Judge(cfg, st.guard, x).Accepted() {
      AcceptedStep(cfg, st, x);
    } else {
      RejectedStep(cfg, st, x);
    }
  }

  lemma DeliverStaysWithinCap(cfg: ReceiverConfig, st: ReceiverState, x: Screened)
    requires x.Candidate? ==> x.header.Valid()
    requires WithinCap(cfg, st.guard)
    ensures WithinCap(cfg, After(cfg, st, x).guard)
  {
    if Judge(cfg, st.guard, x).Accepted() {
      AcceptedStep(cfg, st, x);
      var key := KeyOf(x.header);
      TrackedAfterRecord(st.guard, key, RecordedOn(st.guard, key) + {x.header.seqNo});
    } else {
      RejectedStep(cfg, st, x);
    }
  }

  /** Whatever is delivered, a tracked stream has accepted something. */
  lemma StepKeepsTracking(cfg: ReceiverConfig, cipher: Cipher, sys: System, ev: Event)
    requires SendersValid(sys) && TrackingOk(cfg, sys.receiver.guard)
    ensures TrackingOk(cfg, Step(cfg, cipher, sys, ev).after.receiver.guard)
  {
    if ev.Deliver? {
      DeliverKeepsTracking(cfg, sys.receiver, Presented(cfg, sys, ev.wire));
    }
  }

  lemma StepStaysWithinCap(cfg: ReceiverConfig, cipher: Cipher, sys: System, ev: Event)
    requires SendersValid(sys) && WithinCap(cfg, sys.receiver.guard)
    ensures WithinCap(cfg, Step(cfg, cipher, sys, ev).after.receiver.guard)
  {
    if ev.Deliver? {
      DeliverStaysWithinCap(cfg, sys.receiver, Presented(cfg, sys, ev.wire));
    }
  }

  // ---- Runs ----

  ghost function Run(cfg: ReceiverConfig, cipher: Cipher, sys: System, evs: seq<Event>): (rs: seq<Reaction>)
    requires SendersValid(sys)
    ensures |rs| == |evs|
    ensures forall i :: 0 <= i < |rs| ==> SendersValid(rs[i].after)
    decreases |evs|
  {
    if evs == [] then []
    else
      var r := Step(cfg, cipher, sys, evs[0]);
      [r] + Run(cfg, cipher, r.after, evs[1..])
  }

  /** The system in which event i happens; for i == |evs|, the final system. */
  ghost function SystemAt(cfg: ReceiverConfig, cipher: Cipher, sys: System, evs: seq<Event>, i: nat): (s: System)
    requires SendersValid(sys) && i <= |evs|
    ensures SendersValid(s)
  {
    if i == 0 then sys else Run(cfg, cipher, sys, evs)[i - 1].after
  }

  lemma SystemAtTail(cfg: ReceiverConfig, cipher: Cipher, sys: System, evs: seq<Event>, i: nat)
    requires SendersValid(sys) && 0 < i <= |evs|
    ensures SystemAt(cfg, cipher, sys, evs, i)
            == SystemAt(cfg, cipher, Step(cfg, cipher, sys, evs[0]).after, evs[1..], i - 1)
  {
    var r := Step(cfg, cipher, sys, evs[0]);
    var rest := Run(cfg, cipher, r.after, evs[1..]);
    assert Run(cfg, cipher, sys, evs) == [r] + rest;
    if i > 1 {
      assert ([r] + rest)[i - 1] == rest[i - 2];
    }
  }

  lemma {:induction false} RunStep(cfg: ReceiverConfig, cipher: Cipher, sys: System, evs: seq<Event>, i: nat)
    requires SendersValid(sys) && i < |evs|
    ensures Run(cfg, cipher, sys, evs)[i] == Step(cfg, cipher, SystemAt(cfg, cipher, sys, evs, i), evs[i])
    ensures SystemAt(cfg, cipher, sys, evs, i + 1) == Run(cfg, cipher, sys, evs)[i].after
    decreases |evs|
  {
    if i > 0 {
      var r := Step(cfg, cipher, sys, evs[0]);
      RunStep(cfg, cipher, r.after, evs[1..], i - 1);
      SystemAtTail(cfg, cipher, sys, evs, i);
      assert Run(cfg, cipher, sys, evs)[i] == Run(cfg, cipher, r.after, evs[1..])[i - 1];
      assert evs[i] == evs[1..][i - 1];
    }
  }

  /** One more event: the run so far, and a step from where it ended. */
  lemma {:induction false} RunSnoc(cfg: ReceiverConfig, cipher: Cipher, sys: System, evs: seq<Event>, ev: Event)
    requires SendersValid(sys)
    ensures Run(cfg, cipher, sys, evs + [ev])
            == Run(cfg, cipher, sys, evs) + [Step(cfg, cipher, SystemAt(cfg, cipher, sys, evs, |evs|), ev)]
    decreases |evs|
  {
    if evs == [] {
      assert evs + [ev] == [ev];
    } else {
      var r := Step(cfg, cipher, sys, evs[0]);
      assert (evs + [ev])[0] == evs[0] && (evs + [ev])[1..] == evs[1..] + [ev];
      RunSnoc(cfg, cipher, r.after, evs[1..], ev);
      SystemAtTail(cfg, cipher, sys, evs, |evs|);
    }
  }

  /** What a longer run shares with a shorter one, and where it ends. */
  lemma RunSnocAt(cfg: ReceiverConfig, cipher: Cipher, sys: System, evs: seq<Event>, ev: Event)
    requires SendersValid(sys)
    ensures var rs, here := Run(cfg, cipher, sys, evs), SystemAt(cfg, cipher, sys, evs, |evs|);
            var rs' := Run(cfg, cipher, sys, evs + [ev]);
            && (forall j :: 0 <= j < |evs| ==> rs'[j] == rs[j])
            && rs'[|evs|] == Step(cfg, cipher, here, ev)
            && SystemAt(cfg, cipher, sys, evs + [ev], |evs + [ev]|) == Step(cfg, cipher, here, ev).after
  {
    RunSnoc(cfg, cipher, sys, evs, ev);
  }

  /** The invariant holds in every reachable system. */
  lemma {:induction false} Reachable(cfg: ReceiverConfig, cipher: Cipher, sys: System, evs: seq<Event>, i: nat)
    requires Inv(cfg, sys) && i <= |evs|
    ensures Inv(cfg, SystemAt(cfg, cipher, sys, evs, i))
    decreases i
  {
    if i > 0 {
      StepKeepsInv(cfg, cipher, sys, evs[0]);
      Reachable(cfg, cipher, Step(cfg, cipher, sys, evs[0]).after, evs[1..], i - 1);
      SystemAtTail(cfg, cipher, sys, evs, i);
    }
  }

  lemma {:induction false} ReachableTracking(
    cfg: ReceiverConfig, cipher: Cipher, sys: System, evs: seq<Event>, i: nat)
    requires SendersValid(sys) && TrackingOk(cfg, sys.receiver.guard) && i <= |evs|
    ensures TrackingOk(cfg, SystemAt(cfg, cipher, sys, evs, i).receiver.guard)
    decreases i
  {
    if i > 0 {
      StepKeepsTracking(cfg, cipher, sys, evs[0]);
      ReachableTracking(cfg, cipher, Step(cfg, cipher, sys, evs[0]).after, evs[1..], i - 1);
      SystemAtTail(cfg, cipher, sys, evs, i);
    }
  }

  /** Never are more streams tracked than the cap allows. */
  lemma {:induction false} ReachableWithinCap(
    cfg: ReceiverConfig, cipher: Cipher, sys: System, evs: seq<Event>, i: nat)
    requires SendersValid(sys) && WithinCap(cfg, sys.receiver.guard) && i <= |evs|
    ensures WithinCap(cfg, SystemAt(cfg, cipher, sys, evs, i).receiver.guard)
    decreases i
  {
    if i > 0 {
      StepStaysWithinCap(cfg, cipher, sys, evs[0]);
      ReachableWithinCap(cfg, cipher, Step(cfg, cipher, sys, evs[0]).after, evs[1..], i - 1);
      SystemAtTail(cfg, cipher, sys, evs, i);
    }
  }
}
