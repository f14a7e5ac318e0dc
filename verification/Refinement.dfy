/** A system whose senders are all served refines a machine without bytes, keys or
    bitmaps: numbered notes, and per stream the set of numbers accepted so far. */
module Refinement {
  import opened Basics
  import opened Header
  import opened Suites
  import opened Sender
  import opened ReplaySpec
  import opened ReceiverSpec
  import opened Session
  import opened EndToEnd
  import opened Delivery
  import opened Adversary

  /** What the actor does to a sent wire before it is delivered. */
  datatype Tampering =
    | FlipBody(offset: nat, bit: int)
    | CutTag(count: int)
    | CutCiphertext(count: int)
    | Retype(recordType: RecordType, flags: int)

  /** A schedule: send a record; let the network deliver the k-th sent wire, as it
      is or tampered with, in any order and any number of times; or deliver bytes
      that cannot be read. */
  datatype Act =
    | Issue(from: nat, call: Call)
    | Redeliver(k: nat)
    | Tamper(k: nat, how: Tampering)
    | Noise(bytes: Bytes)

  /** What is observable of an act, the same for both machines. */
  datatype Outcome =
    | Issued
    | Unsent(error: SrpError)
    | Accepted(payload: Bytes)
    | Replayed
    | Stale
    | Rejected(reason: RejectReason)
    | Nothing

  // ---- The abstract machine ----

  /** A sender's budget, and which stream it serves, by number. */
  datatype Party = Party(start: nat, limit: int, issued: nat, fits: bool, lane: nat)

  datatype Note = Note(lane: nat, number: nat, payload: Bytes, code: int, flags: int)

  datatype Ideal = Ideal(parties: seq<Party>, notes: seq<Note>, accepted: seq<set<nat>>)

  ghost predicate IdealOk(m: Ideal) {
    && (forall i :: 0 <= i < |m.parties| ==> m.parties[i].lane < |m.accepted|)
    && (forall k :: 0 <= k < |m.notes| ==> m.notes[k].lane < |m.accepted|)
  }

  datatype IdealReaction = IdealReaction(after: Ideal, outcome: Outcome)

  ghost function IdealIssue(m: Ideal, i: nat, c: Call): (r: IdealReaction)
    requires IdealOk(m) && i < |m.parties|
    ensures IdealOk(r.after)
  {
    var p := m.parties[i];
    var spent := m.(parties := m.parties[i := p.(issued := p.issued + 1)]);
    if !c.WithinPolicy() then IdealReaction(m, Unsent(ConfigurationError))
    else if p.issued >= p.limit then IdealReaction(m, Unsent(NonceExhaustedError))
    else if !p.fits then IdealReaction(spent, Unsent(ConfigurationError))
    else if !(0 <= c.recordType.Code() < 256 && 0 <= c.flags < 256) then IdealReaction(spent, Unsent(StructError))
    else
      var note := Note(p.lane, p.start + p.issued, c.payload, c.recordType.Code(), c.flags);
      IdealReaction(spent.(notes := m.notes + [note]), Issued)
  }

  function RefusalOutcome(reason: RejectReason): Outcome {
    match reason
    case REPLAY_DETECTED => Replayed
    case STALE_RECORD => Stale
    case _ => Rejected(reason)
  }

  /** What becomes of number x when the set a has been accepted, if the record it
      comes with is worth `genuine`. */
  ghost function Arrival(window: nat, a: set<nat>, x: int, genuine: Outcome): Outcome {
    if Admits(window, a, x) then genuine else RefusalOutcome(Overdue(window, a, x))
  }

  ghost function Enlarged(window: nat, a: set<nat>, x: nat): set<nat> {
    if Admits(window, a, x) then a + {x} else a
  }

  ghost function IdealDeliver(window: nat, m: Ideal, k: nat): (r: IdealReaction)
    requires IdealOk(m) && k < |m.notes|
    ensures IdealOk(r.after)
  {
    var n := m.notes[k];
    var a := m.accepted[n.lane];
    IdealReaction(m.(accepted := m.accepted[n.lane := Enlarged(window, a, n.number)]),
                  Arrival(window, a, n.number, Accepted(n.payload)))
  }

  /** A forgery under a note's number is refused as the note would be, or else does
      not authenticate; either way nothing changes. */
  ghost function IdealForge(window: nat, m: Ideal, k: nat): (r: IdealReaction)
    requires IdealOk(m) && k < |m.notes|
    ensures IdealOk(r.after)
  {
    var n := m.notes[k];
    IdealReaction(m, Arrival(window, m.accepted[n.lane], n.number, Rejected(AUTH_FAILED)))
  }

  datatype Effect = Intact | Forged | Broken | Impossible

  /** What a tampering amounts to, told from the note alone. */
  function EffectOn(n: Note, how: Tampering): Effect {
    match how
    case FlipBody(offset, bit) =>
      if offset < |n.payload| + TAG_LEN && 0 <= bit < 8 then Forged else Impossible
    case CutTag(count) => if -count >= |n.payload| + MIN_RECORD_LEN then Intact else Broken
    case CutCiphertext(count) => if count == 0 || (count > 0 && n.payload == []) then Intact else Broken
    case Retype(recordType, flags) =>
      if !(0 <= recordType.Code() < 256 && 0 <= flags < 256) then Impossible
      else if recordType.Code() == n.code && flags == n.flags then Intact
      else Forged
  }

  ghost function IdealTamper(window: nat, m: Ideal, k: nat, how: Tampering): (r: IdealReaction)
    requires IdealOk(m) && k < |m.notes|
    ensures IdealOk(r.after)
  {
    match EffectOn(m.notes[k], how)
    case Intact => IdealDeliver(window, m, k)
    case Forged => IdealForge(window, m, k)
    case Broken => IdealReaction(m, Rejected(MALFORMED))
    case Impossible => IdealReaction(m, Nothing)
  }

  ghost function IdealStep(window: nat, m: Ideal, act: Act): (r: IdealReaction)
    requires IdealOk(m)
    ensures IdealOk(r.after)
  {
    match act
    case Issue(i, c) => if i < |m.parties| then IdealIssue(m, i, c) else IdealReaction(m, Nothing)
    case Redeliver(k) => if k < |m.notes| then IdealDeliver(window, m, k) else IdealReaction(m, Nothing)
    case Tamper(k, how) => if k < |m.notes| then IdealTamper(window, m, k, how) else IdealReaction(m, Nothing)
    case Noise(bytes) => IdealReaction(m, if ParseRecord(bytes).Failure? then Rejected(MALFORMED) else Nothing)
  }

  ghost function IdealPlay(window: nat, m: Ideal, acts: seq<Act>): seq<Outcome>
    requires IdealOk(m)
    decreases |acts|
  {
    if acts == [] then []
    else
      var r := IdealStep(window, m, acts[0]);
      [r.outcome] + IdealPlay(window, r.after, acts[1..])
  }

  // ---- The real system under the same schedule ----

  function TamperedWire(wire: Bytes, how: Tampering): Result<Bytes, SrpError> {
    match how
    case FlipBody(offset, bit) => Flipped(wire, HEADER_LEN + offset, bit)
    case CutTag(count) => Success(TruncateTag(wire, count))
    case CutCiphertext(count) => Success(TruncateCiphertext(wire, count))
    case Retype(recordType, flags) => Relabel(wire, recordType, flags)
  }

  /** The bytes an act delivers, if any; the actor's own errors deliver nothing. */
  function WireFor(sys: System, act: Act): Option<Bytes> {
    match act
    case Issue(_, _) => None
    case Redeliver(k) => if k < |sys.table| then Some(WireOf(sys.table[k])) else None
    case Tamper(k, how) =>
      if k < |sys.table| && TamperedWire(WireOf(sys.table[k]), how).Success?
      then Some(TamperedWire(WireOf(sys.table[k]), how).value) else None
    case Noise(bytes) => if ParseRecord(bytes).Failure? then Some(bytes) else None
  }

  ghost function RealStep(cfg: ReceiverConfig, cipher: Cipher, sys: System, act: Act): (r: Reaction)
    requires SendersValid(sys)
    ensures SendersValid(r.after)
  {
    if act.Issue? then Step(cfg, cipher, sys, Send(act.from, act.call))
    else
      match WireFor(sys, act)
      case Some(wire) => Step(cfg, cipher, sys, Deliver(wire))
      case None => Reaction(sys, NoSuchSender)
  }

  function OutcomeOfVerdict(v: Verdict): Outcome {
    match (v.plaintext, v.reason)
    case (Some(p), None) => Accepted(p)
    case (_, Some(reason)) => RefusalOutcome(reason)
    case (None, None) => Nothing
  }

  /** The outcome of a delivery tells verdicts apart by reason and plaintext. */
  lemma OutcomeTells(v: Verdict)
    requires v.FailClosed()
    ensures OutcomeOfVerdict(v) ==
              if v.reason == Some(REPLAY_DETECTED) then Replayed
              else if v.reason == Some(STALE_RECORD) then Stale
              else if v.reason.Some? then Rejected(v.reason.value)
              else Accepted(v.plaintext.value)
  {}

  function OutcomeOf(o: Output): Outcome {
    match o
    case Sent(_) => Issued
    case SendFailed(error) => Unsent(error)
    case Delivered(v) => OutcomeOfVerdict(v)
    case NoSuchSender => Nothing
  }

  ghost function RealPlay(cfg: ReceiverConfig, cipher: Cipher, sys: System, acts: seq<Act>): seq<Outcome>
    requires SendersValid(sys)
    decreases |acts|
  {
    if acts == [] then []
    else
      var r := RealStep(cfg, cipher, sys, acts[0]);
      [OutcomeOf(r.output)] + RealPlay(cfg, cipher, r.after, acts[1..])
  }

  // ---- The refinement relation ----

  /** The number of a stream: its first sender, or the number of senders if none. */
  function Lane(senders: seq<SenderState>, key: StreamKey): (j: nat)
    ensures j <= |senders|
    ensures j < |senders| ==> StreamOfSender(senders[j]) == key
    ensures forall k :: 0 <= k < j ==> StreamOfSender(senders[k]) != key
  {
    if senders == [] || StreamOfSender(senders[0]) == key then 0 else 1 + Lane(senders[1..], key)
  }

  function PartyOf(origin: System, s: SenderState): Party
    requires s.Valid()
  {
    Party(s.nonces.start, s.nonces.limit, s.nonces.issued, 0 <= s.streamId <= MAX_U32,
          Lane(origin.senders, StreamOfSender(s)))
  }

  /** The note stands for the entry. */
  predicate Notes(origin: System, n: Note, e: SealEntry) {
    && |e.aad| == HEADER_LEN
    && n.payload == e.plaintext
    && n.number == HeaderOf(e).seqNo
    && n.code == HeaderOf(e).recordType.Code()
    && n.flags == HeaderOf(e).flags
    && n.lane == Lane(origin.senders, KeyOf(HeaderOf(e))) < |origin.senders|
  }

  ghost predicate PartiesMatch(origin: System, sys: System, m: Ideal) {
    && SendersValid(sys)
    && |m.parties| == |sys.senders|
    && forall i :: 0 <= i < |sys.senders| ==> m.parties[i] == PartyOf(origin, sys.senders[i])
  }

  ghost predicate NotesMatch(origin: System, table: seq<SealEntry>, m: Ideal) {
    && |m.notes| == |table|
    && forall k :: 0 <= k < |table| ==> Notes(origin, m.notes[k], table[k])
  }

  ghost predicate AcceptedMatch(origin: System, g: GuardView, m: Ideal) {
    && |m.accepted| == |origin.senders|
    && forall key :: Lane(origin.senders, key) < |origin.senders| ==>
         m.accepted[Lane(origin.senders, key)] == RecordedOn(g, key)
  }

  /** The two systems are in corresponding states. */
  ghost predicate Refines(cfg: ReceiverConfig, origin: System, sys: System, m: Ideal) {
    && Healthy(cfg, origin, sys) && PartiesMatch(origin, sys, m)
    && NotesMatch(origin, sys.table, m) && AcceptedMatch(origin, sys.receiver.guard, m)
  }

  /** The reaction to one act corresponds to the abstract machine's. */
  ghost predicate Simulated(cfg: ReceiverConfig, origin: System, r: Reaction, t: IdealReaction) {
    Refines(cfg, origin, r.after, t.after) && OutcomeOf(r.output) == t.outcome
  }

  // ---- Sending ----

  lemma SentNote(origin: System, s: SenderState, cipher: Cipher, c: Call, m: Ideal, i: nat)
    requires s.Valid() && IdealOk(m) && i < |m.parties| && m.parties[i] == PartyOf(origin, s)
    requires Lane(origin.senders, StreamOfSender(s)) < |origin.senders|
    ensures var r, t := SealCall(s, cipher, c), IdealIssue(m, i, c);
            && t.after.accepted == m.accepted
            && t.after.parties == m.parties[i := PartyOf(origin, r.after)]
            && t.outcome == (if r.result.Success? then Issued else Unsent(r.result.error))
            && if r.entries == [] then t.after.notes == m.notes
               else |t.after.notes| == |m.notes| + 1 && t.after.notes[..|m.notes|] == m.notes
                    && Notes(origin, t.after.notes[|m.notes|], r.entries[0])
  {
    SendFacts(s, cipher, c);
    assert m.parties[i := m.parties[i]] == m.parties;
  }

  lemma NotesSnoc(origin: System, table: seq<SealEntry>, m: Ideal, entries: seq<SealEntry>, m': Ideal)
    requires NotesMatch(origin, table, m) && |entries| <= 1
    requires if entries == [] then m'.notes == m.notes
             else |m'.notes| == |m.notes| + 1 && m'.notes[..|m.notes|] == m.notes
                  && Notes(origin, m'.notes[|m.notes|], entries[0])
    ensures NotesMatch(origin, table + entries, m')
  {
    forall k | 0 <= k < |table + entries| ensures Notes(origin, m'.notes[k], (table + entries)[k]) {
      if k < |table| {
        assert m'.notes[k] == m'.notes[..|m.notes|][k] == m.notes[k];
      }
    }
  }

  lemma LaneOfSender(origin: System, sys: System, i: nat)
    requires SendersContinue(origin, sys) && i < |sys.senders|
    ensures Lane(origin.senders, StreamOfSender(sys.senders[i])) < |origin.senders|
  {
    assert StreamOfSender(origin.senders[i]) == StreamOfSender(sys.senders[i]);
  }

  lemma IssueParties(origin: System, sys: System, m: Ideal, i: nat, s: SenderState, after: System, m': Ideal)
    requires PartiesMatch(origin, sys, m) && i < |sys.senders| && s.Valid()
    requires after.senders == sys.senders[i := s] && m'.parties == m.parties[i := PartyOf(origin, s)]
    ensures PartiesMatch(origin, after, m')
  {}

  lemma IssueSimulated(
    cfg: ReceiverConfig, cipher: Cipher, origin: System, sys: System, m: Ideal, i: nat, c: Call,
    r: Reaction, t: IdealReaction)
    requires Refines(cfg, origin, sys, m) && IdealOk(m) && i < |sys.senders|
    requires r == Step(cfg, cipher, sys, Send(i, c)) && t == IdealIssue(m, i, c)
    ensures Simulated(cfg, origin, r, t)
  {
    HealthyStep(cfg, cipher, origin, sys, Send(i, c));
    LaneOfSender(origin, sys, i);
    SentNote(origin, sys.senders[i], cipher, c, m, i);
    IssueParties(origin, sys, m, i, SealedBy(sys, cipher, i, c).after, r.after, t.after);
    NotesSnoc(origin, sys.table, m, SealedBy(sys, cipher, i, c).entries, t.after);
  }

  // ---- Delivering ----

  /** The verdict on a sent wire, as the abstract machine sees it. */
  lemma SentArrival(cfg: ReceiverConfig, origin: System, sys: System, e: SealEntry, a: set<nat>)
    requires Healthy(cfg, origin, sys) && e in sys.table && |e.aad| == HEADER_LEN
    requires a == RecordedOn(sys.receiver.guard, KeyOf(HeaderOf(e)))
    ensures var v := VerdictOn(cfg, sys, WireOf(e));
            && OutcomeOfVerdict(v) == Arrival(cfg.window, a, HeaderOf(e).seqNo, Accepted(e.plaintext))
            && (v.Accepted() <==> Admits(cfg.window, a, HeaderOf(e).seqNo))
  {
    SentAcceptedIff(cfg, origin, sys, e);
    VerdictOutcome(cfg.window, a, HeaderOf(e), e.plaintext, VerdictOn(cfg, sys, WireOf(e)));
  }

  lemma VerdictOutcome(window: nat, a: set<nat>, h: RecordHeader, payload: Bytes, v: Verdict)
    requires v == if Admits(window, a, h.seqNo) then Acceptance(payload, h)
                  else Rejection(Overdue(window, a, h.seqNo), Some(h))
    ensures OutcomeOfVerdict(v) == Arrival(window, a, h.seqNo, Accepted(payload))
    ensures v.Accepted() <==> Admits(window, a, h.seqNo)
  {}

  /** What delivering a sent wire does to each stream's recorded numbers. */
  lemma SentRecords(cfg: ReceiverConfig, origin: System, sys: System, e: SealEntry, key: StreamKey)
    requires Healthy(cfg, origin, sys) && e in sys.table && |e.aad| == HEADER_LEN && HeaderOf(e).seqNo >= 0
    ensures RecordedOn(After(cfg, sys.receiver, Presented(cfg, sys, WireOf(e))).guard, key)
            == if key == KeyOf(HeaderOf(e))
               then Enlarged(cfg.window, RecordedOn(sys.receiver.guard, key), HeaderOf(e).seqNo)
               else RecordedOn(sys.receiver.guard, key)
  {
    SentArrival(cfg, origin, sys, e, RecordedOn(sys.receiver.guard, KeyOf(HeaderOf(e))));
    RecordsAfter(cfg, sys.receiver, Presented(cfg, sys, WireOf(e)), key);
    SealedIsPresented(cfg, sys, e);
  }

  /** Changing what one stream has recorded changes its lane and no other. */
  lemma PutLane(origin: System, g: GuardView, h: GuardView, m: Ideal, on: StreamKey, a: set<nat>)
    requires AcceptedMatch(origin, g, m) && Lane(origin.senders, on) < |origin.senders|
    requires forall key :: RecordedOn(h, key) == if key == on then a else RecordedOn(g, key)
    ensures AcceptedMatch(origin, h, m.(accepted := m.accepted[Lane(origin.senders, on) := a]))
  {}

  lemma AcceptedAfter(cfg: ReceiverConfig, origin: System, sys: System, m: Ideal, n: Note, e: SealEntry, g: GuardView)
    requires Healthy(cfg, origin, sys) && AcceptedMatch(origin, sys.receiver.guard, m)
    requires e in sys.table && Notes(origin, n, e)
    requires g == After(cfg, sys.receiver, Presented(cfg, sys, WireOf(e))).guard
    ensures var a := Enlarged(cfg.window, m.accepted[n.lane], n.number);
            AcceptedMatch(origin, g, m.(accepted := m.accepted[n.lane := a]))
  {
    var on := KeyOf(HeaderOf(e));
    forall key ensures RecordedOn(g, key)
                       == if key == on then Enlarged(cfg.window, RecordedOn(sys.receiver.guard, on), n.number)
                          else RecordedOn(sys.receiver.guard, key)
    {
      SentRecords(cfg, origin, sys, e, key);
    }
    PutLane(origin, sys.receiver.guard, g, m, on, Enlarged(cfg.window, m.accepted[n.lane], n.number));
  }

  /** The note's lane holds what the receiver recorded on the entry's stream. */
  lemma NoteLane(origin: System, g: GuardView, m: Ideal, n: Note, e: SealEntry)
    requires AcceptedMatch(origin, g, m) && Notes(origin, n, e)
    ensures n.lane < |m.accepted| && m.accepted[n.lane] == RecordedOn(g, KeyOf(HeaderOf(e)))
  {}

  lemma NoteArrival(cfg: ReceiverConfig, origin: System, sys: System, m: Ideal, n: Note, e: SealEntry)
    requires Healthy(cfg, origin, sys) && e in sys.table && Notes(origin, n, e)
    requires n.lane < |m.accepted| && m.accepted[n.lane] == RecordedOn(sys.receiver.guard, KeyOf(HeaderOf(e)))
    ensures var v := VerdictOn(cfg, sys, WireOf(e));
            && OutcomeOfVerdict(v) == Arrival(cfg.window, m.accepted[n.lane], n.number, Accepted(n.payload))
            && (v.Accepted() <==> Admits(cfg.window, m.accepted[n.lane], n.number))
  {
    SentArrival(cfg, origin, sys, e, m.accepted[n.lane]);
  }

  /** The k-th sent wire and the k-th note meet the same fate. */
  lemma RedeliverOutcome(cfg: ReceiverConfig, origin: System, sys: System, m: Ideal, k: nat)
    requires Refines(cfg, origin, sys, m) && IdealOk(m) && k < |sys.table|
    ensures var n, v := m.notes[k], VerdictOn(cfg, sys, WireOf(sys.table[k]));
            && OutcomeOfVerdict(v) == Arrival(cfg.window, m.accepted[n.lane], n.number, Accepted(n.payload))
            && (v.Accepted() <==> Admits(cfg.window, m.accepted[n.lane], n.number))
  {
    assert Notes(origin, m.notes[k], sys.table[k]);
    NoteLane(origin, sys.receiver.guard, m, m.notes[k], sys.table[k]);
    NoteArrival(cfg, origin, sys, m, m.notes[k], sys.table[k]);
  }

  lemma DeliveryOutcome(cfg: ReceiverConfig, cipher: Cipher, sys: System, wire: Bytes)
    requires SendersValid(sys)
    ensures OutcomeOf(Step(cfg, cipher, sys, Deliver(wire)).output) == OutcomeOfVerdict(VerdictOn(cfg, sys, wire))
  {}

  // ---- Tampering ----

  /** What the tampering yields, and how the receiver answers if it is not the
      genuine wire. */
  ghost predicate HasEffect(cfg: ReceiverConfig, sys: System, e: SealEntry, how: Tampering, effect: Effect) {
    var r := TamperedWire(WireOf(e), how);
    match effect
    case Intact => r == Success(WireOf(e))
    case Forged => r.Success? && exists h :: FailsToOpen(cfg, sys, e, h, VerdictOn(cfg, sys, r.value))
    case Broken => r.Success? && VerdictOn(cfg, sys, r.value) == Rejection(MALFORMED, None)
    case Impossible => r.Failure?
  }

  lemma FlipEffect(cfg: ReceiverConfig, origin: System, sys: System, e: SealEntry, n: Note, offset: nat, bit: int)
    requires Inv(cfg, sys) && e in sys.table && Notes(origin, n, e)
    ensures HasEffect(cfg, sys, e, FlipBody(offset, bit), EffectOn(n, FlipBody(offset, bit)))
  {
    var i := HEADER_LEN + offset;
    FlipSucceeds(WireOf(e), i, bit);
    if i < |WireOf(e)| && 0 <= bit < 8 {
      BodyBitFlip(cfg, sys, e, i, bit);
    }
  }

  lemma CutEffect(cfg: ReceiverConfig, origin: System, sys: System, e: SealEntry, n: Note, count: int)
    requires Inv(cfg, sys) && e in sys.table && Notes(origin, n, e)
    ensures HasEffect(cfg, sys, e, CutTag(count), EffectOn(n, CutTag(count)))
    ensures HasEffect(cfg, sys, e, CutCiphertext(count), EffectOn(n, CutCiphertext(count)))
  {
    HonestWireParses(e, cfg.suiteId);
    TagTruncation(cfg, sys, WireOf(e), count);
    CiphertextTruncation(cfg, sys, WireOf(e), count);
  }

  lemma RetypeEffect(
    cfg: ReceiverConfig, origin: System, sys: System, e: SealEntry, n: Note, recordType: RecordType, flags: int)
    requires Inv(cfg, sys) && e in sys.table && Notes(origin, n, e)
    ensures HasEffect(cfg, sys, e, Retype(recordType, flags), EffectOn(n, Retype(recordType, flags)))
  {
    Relabelled(cfg, sys, e, recordType, flags);
    if EffectOn(n, Retype(recordType, flags)) == Forged {
      var h := HeaderOf(e).(recordType := recordType, flags := flags).Canonical();
      var wire := Relabel(WireOf(e), recordType, flags).value;
      assert FailsToOpen(cfg, sys, e, h, VerdictOn(cfg, sys, wire));
    }
  }

  lemma TamperingEffect(cfg: ReceiverConfig, origin: System, sys: System, e: SealEntry, n: Note, how: Tampering)
    requires Inv(cfg, sys) && e in sys.table && Notes(origin, n, e)
    ensures HasEffect(cfg, sys, e, how, EffectOn(n, how))
  {
    match how
    case FlipBody(offset, bit) => FlipEffect(cfg, origin, sys, e, n, offset, bit);
    case CutTag(count) => CutEffect(cfg, origin, sys, e, n, count);
    case CutCiphertext(count) => CutEffect(cfg, origin, sys, e, n, count);
    case Retype(recordType, flags) => RetypeEffect(cfg, origin, sys, e, n, recordType, flags);
  }

  /** Delivering bytes that are not accepted changes nothing the machine knows. */
  lemma RejectedRefines(
    cfg: ReceiverConfig, cipher: Cipher, origin: System, sys: System, m: Ideal, wire: Bytes, after: System)
    requires Refines(cfg, origin, sys, m) && !VerdictOn(cfg, sys, wire).Accepted()
    requires after == Step(cfg, cipher, sys, Deliver(wire)).after
    ensures Refines(cfg, origin, after, m)
  {
    HealthyStep(cfg, cipher, origin, sys, Deliver(wire));
    RejectedStep(cfg, sys.receiver, Presented(cfg, sys, wire));
  }

  lemma ForgedOutcome(window: nat, a: set<nat>, x: int, payload: Bytes, genuine: Verdict, h: RecordHeader, v: Verdict)
    requires OutcomeOfVerdict(genuine) == Arrival(window, a, x, Accepted(payload))
    requires genuine.Accepted() <==> Admits(window, a, x)
    requires v == if genuine.Accepted() then Rejection(AUTH_FAILED, Some(h)) else genuine.(header := Some(h))
    ensures !v.Accepted() && OutcomeOfVerdict(v) == Arrival(window, a, x, Rejected(AUTH_FAILED))
  {}

  lemma RedeliverSimulated(
    cfg: ReceiverConfig, cipher: Cipher, origin: System, sys: System, m: Ideal, k: nat, r: Reaction, t: IdealReaction)
    requires Refines(cfg, origin, sys, m) && IdealOk(m) && k < |sys.table|
    requires r == Step(cfg, cipher, sys, Deliver(WireOf(sys.table[k]))) && t == IdealDeliver(cfg.window, m, k)
    ensures Simulated(cfg, origin, r, t)
  {
    HealthyStep(cfg, cipher, origin, sys, Deliver(WireOf(sys.table[k])));
    assert Notes(origin, m.notes[k], sys.table[k]);
    AcceptedAfter(cfg, origin, sys, m, m.notes[k], sys.table[k], r.after.receiver.guard);
    RedeliverOutcome(cfg, origin, sys, m, k);
    DeliveryOutcome(cfg, cipher, sys, WireOf(sys.table[k]));
  }

  lemma ForgerySimulated(
    cfg: ReceiverConfig, cipher: Cipher, origin: System, sys: System, m: Ideal, k: nat, h: RecordHeader, wire: Bytes,
    r: Reaction, t: IdealReaction)
    requires Refines(cfg, origin, sys, m) && IdealOk(m) && k < |sys.table|
    requires FailsToOpen(cfg, sys, sys.table[k], h, VerdictOn(cfg, sys, wire))
    requires r == Step(cfg, cipher, sys, Deliver(wire)) && t == IdealForge(cfg.window, m, k)
    ensures Simulated(cfg, origin, r, t)
  {
    var n := m.notes[k];
    RedeliverOutcome(cfg, origin, sys, m, k);
    ForgedOutcome(cfg.window, m.accepted[n.lane], n.number, n.payload,
                  VerdictOn(cfg, sys, WireOf(sys.table[k])), h, VerdictOn(cfg, sys, wire));
    RejectedRefines(cfg, cipher, origin, sys, m, wire, r.after);
    DeliveryOutcome(cfg, cipher, sys, wire);
  }

  lemma MalformedSimulated(
    cfg: ReceiverConfig, cipher: Cipher, origin: System, sys: System, m: Ideal, wire: Bytes,
    r: Reaction, t: IdealReaction)
    requires Refines(cfg, origin, sys, m) && VerdictOn(cfg, sys, wire) == Rejection(MALFORMED, None)
    requires r == Step(cfg, cipher, sys, Deliver(wire)) && t == IdealReaction(m, Rejected(MALFORMED))
    ensures Simulated(cfg, origin, r, t)
  {
    RejectedRefines(cfg, cipher, origin, sys, m, wire, r.after);
    DeliveryOutcome(cfg, cipher, sys, wire);
  }

  lemma NothingSimulated(
    cfg: ReceiverConfig, origin: System, sys: System, m: Ideal, r: Reaction, t: IdealReaction)
    requires Refines(cfg, origin, sys, m)
    requires r == Reaction(sys, NoSuchSender) && t == IdealReaction(m, Nothing)
    ensures Simulated(cfg, origin, r, t)
  {}

  lemma RealTamper(cfg: ReceiverConfig, cipher: Cipher, sys: System, k: nat, how: Tampering)
    requires SendersValid(sys) && k < |sys.table|
    ensures var wire := TamperedWire(WireOf(sys.table[k]), how);
            RealStep(cfg, cipher, sys, Tamper(k, how))
            == if wire.Success? then Step(cfg, cipher, sys, Deliver(wire.value)) else Reaction(sys, NoSuchSender)
  {}

  lemma TamperSimulated(
    cfg: ReceiverConfig, cipher: Cipher, origin: System, sys: System, m: Ideal, k: nat, how: Tampering,
    r: Reaction, t: IdealReaction)
    requires Refines(cfg, origin, sys, m) && IdealOk(m) && k < |sys.table|
    requires r == RealStep(cfg, cipher, sys, Tamper(k, how)) && t == IdealTamper(cfg.window, m, k, how)
    requires HasEffect(cfg, sys, sys.table[k], how, EffectOn(m.notes[k], how))
    ensures Simulated(cfg, origin, r, t)
  {
    var wire := TamperedWire(WireOf(sys.table[k]), how);
    RealTamper(cfg, cipher, sys, k, how);
    match EffectOn(m.notes[k], how)
    case Intact => RedeliverSimulated(cfg, cipher, origin, sys, m, k, r, t);
    case Forged =>
      var h :| FailsToOpen(cfg, sys, sys.table[k], h, VerdictOn(cfg, sys, wire.value));
      ForgerySimulated(cfg, cipher, origin, sys, m, k, h, wire.value, r, t);
    case Broken => MalformedSimulated(cfg, cipher, origin, sys, m, wire.value, r, t);
    case Impossible => NothingSimulated(cfg, origin, sys, m, r, t);
  }

  // ---- Schedules ----

  /** One act: the same outcome, and the relation again. */
  lemma ActRefines(
    cfg: ReceiverConfig, cipher: Cipher, origin: System, sys: System, m: Ideal, act: Act,
    r: Reaction, t: IdealReaction)
    requires Refines(cfg, origin, sys, m) && IdealOk(m)
    requires r == RealStep(cfg, cipher, sys, act) && t == IdealStep(cfg.window, m, act)
    ensures Simulated(cfg, origin, r, t)
  {
    match act
    case Issue(i, c) =>
      if i < |sys.senders| {
        IssueSimulated(cfg, cipher, origin, sys, m, i, c, r, t);
      } else {
        NothingSimulated(cfg, origin, sys, m, r, t);
      }
    case Redeliver(k) =>
      if k < |sys.table| {
        RedeliverSimulated(cfg, cipher, origin, sys, m, k, r, t);
      } else {
        NothingSimulated(cfg, origin, sys, m, r, t);
      }
    case Tamper(k, how) =>
      if k < |sys.table| {
        TamperingEffect(cfg, origin, sys, sys.table[k], m.notes[k], how);
        TamperSimulated(cfg, cipher, origin, sys, m, k, how, r, t);
      } else {
        NothingSimulated(cfg, origin, sys, m, r, t);
      }
    case Noise(bytes) =>
      if ParseRecord(bytes).Failure? {
        MalformedSimulated(cfg, cipher, origin, sys, m, bytes, r, t);
      } else {
        NothingSimulated(cfg, origin, sys, m, r, t);
      }
  }

  /** End-to-end refinement: for every schedule, tampering included, the real
      system's outcomes are those of the abstract machine. */
  lemma {:induction false} RealRefinesIdeal(
    cfg: ReceiverConfig, cipher: Cipher, origin: System, sys: System, m: Ideal, acts: seq<Act>)
    requires Refines(cfg, origin, sys, m) && IdealOk(m)
    ensures RealPlay(cfg, cipher, sys, acts) == IdealPlay(cfg.window, m, acts)
    decreases |acts|
  {
    if acts != [] {
      var r, t := RealStep(cfg, cipher, sys, acts[0]), IdealStep(cfg.window, m, acts[0]);
      ActRefines(cfg, cipher, origin, sys, m, acts[0], r, t);
      RealRefinesIdeal(cfg, cipher, origin, r.after, t.after, acts[1..]);
    }
  }

  /** The abstract machine of a fresh system: the senders' budgets, and which of
      them share a stream. */
  ghost function Abstract(sys: System): (m: Ideal)
    requires SendersValid(sys)
    ensures IdealOk(m)
  {
    Ideal(seq(|sys.senders|, i requires 0 <= i < |sys.senders| => PartyOf(sys, sys.senders[i])),
          [], seq(|sys.senders|, _ => {}))
  }

  lemma InitialRefines(cfg: ReceiverConfig, sys: System)
    requires Initial(cfg, sys) && Served(cfg, sys)
    ensures Refines(cfg, sys, sys, Abstract(sys))
  {
    InitialIsHealthy(cfg, sys);
  }

  /** Two configurations give the same outcomes on every schedule: suite, key,
      cipher, session ids, stream ids and prefixes do not show, only the senders'
      budgets, which of them share a stream, and the window width. */
  lemma ConfigurationsAgree(
    cfg: ReceiverConfig, cipher: Cipher, sys: System,
    cfg': ReceiverConfig, cipher': Cipher, sys': System, acts: seq<Act>)
    requires Initial(cfg, sys) && Served(cfg, sys) && Initial(cfg', sys') && Served(cfg', sys')
    requires cfg.window == cfg'.window && Abstract(sys) == Abstract(sys')
    ensures RealPlay(cfg, cipher, sys, acts) == RealPlay(cfg', cipher', sys', acts)
  {
    InitialRefines(cfg, sys);
    InitialRefines(cfg', sys');
    RealRefinesIdeal(cfg, cipher, sys, sys, Abstract(sys), acts);
    RealRefinesIdeal(cfg', cipher', sys', sys', Abstract(sys'), acts);
  }
}
