/** The verification pipeline of srp/receiver.py as a function of the bytes
    delivered and the replay state, with the decryption backend left open. */
module ReceiverSpec {
  import opened Basics
  import opened Header
  import opened Suites
  import opened Nonce
  import opened ReplaySpec
  import BigEndian

  datatype ReceiverConfig = ReceiverConfig(suiteId: int, expected: Option<Bytes>, window: nat, maxStreams: int)

  datatype Verdict = Verdict(
    status: RecordStatus, reason: Option<RejectReason>, plaintext: Option<Bytes>, header: Option<RecordHeader>)
  {
    predicate Accepted() {
      status == ACCEPTED
    }

    /** Fail-closed: a plaintext is present exactly on acceptance, a reason exactly
        on rejection. */
    predicate FailClosed() {
      (Accepted() <==> plaintext.Some?) && (Accepted() <==> reason.None?)
    }
  }

  /** Verdict.__post_init__ */
  function MakeVerdict(v: Verdict): (r: Result<Verdict, SrpError>)
    ensures r == if v.FailClosed() then Success(v) else Failure(ConfigurationError)
  {
    if v.status == ACCEPTED then
      if v.plaintext.None? then Failure(ConfigurationError)
      else if v.reason.Some? then Failure(ConfigurationError)
      else Success(v)
    else
      if v.plaintext.Some? then Failure(ConfigurationError)
      else if v.reason.None? then Failure(ConfigurationError)
      else Success(v)
  }

  function Rejection(reason: RejectReason, header: Option<RecordHeader>): Verdict {
    Verdict(REJECTED, Some(reason), None, header)
  }

  function Acceptance(plaintext: Bytes, header: RecordHeader): Verdict {
    Verdict(ACCEPTED, None, Some(plaintext), Some(header))
  }

  /** The values of a receiver's counters. */
  datatype ReceiverTally = ReceiverTally(accepted: nat, plaintextBytes: nat, rejected: map<RejectReason, nat>) {

    function Rejections(reason: RejectReason): nat {
      if reason in rejected then rejected[reason] else 0
    }

    /** The sum of the counters, one per reason. */
    function RejectedTotal(): nat {
      Rejections(MALFORMED) + Rejections(SUITE_MISMATCH) + Rejections(SESSION_MISMATCH)
      + Rejections(REPLAY_DETECTED) + Rejections(STALE_RECORD) + Rejections(AUTH_FAILED)
    }

    function NoteRejection(reason: RejectReason): ReceiverTally {
      this.(rejected := rejected[reason := Rejections(reason) + 1])
    }

    function NoteAcceptance(plaintext: Bytes): ReceiverTally {
      this.(accepted := accepted + 1, plaintextBytes := plaintextBytes + |plaintext|)
    }
  }

  const ZERO_TALLY := ReceiverTally(0, 0, map[])

  datatype ReceiverState = ReceiverState(guard: GuardView, stats: ReceiverTally)

  const EMPTY_RECEIVER := ReceiverState(map[], ZERO_TALLY)

  function KeyOf(h: RecordHeader): StreamKey {
    StreamKey(h.sessionId, h.streamId)
  }

  /** What the bytes alone decide: refused before the replay check, or a candidate
      with the plaintext that opening it would give. */
  datatype Screened =
    | Refused(reason: RejectReason, declared: Option<RecordHeader>)
    | Candidate(header: RecordHeader, recovered: Option<Bytes>)

  predicate SessionMatches(cfg: ReceiverConfig, h: RecordHeader) {
    cfg.expected.None? || h.sessionId == cfg.expected.value
  }

  function Screen(cfg: ReceiverConfig, opener: Opener, wire: Bytes): (x: Screened)
    ensures x.Candidate? ==> x.header.Valid()
  {
    match ParseRecord(wire)
    case Failure(_) => Refused(MALFORMED, None)
    case Success(record) =>
      var h := record.header;
      if h.suiteId != cfg.suiteId then Refused(SUITE_MISMATCH, Some(h))
      else if !SessionMatches(cfg, h) then Refused(SESSION_MISMATCH, Some(h))
      else Candidate(h, Recover(opener, record))
  }

  /** The plaintext under the header's own nonce and associated data, if it opens. */
  function Recover(opener: Opener, record: ProtectedRecord): Option<Bytes>
    requires record.header.Valid()
  {
    if record.header.Packable() && |record.ciphertextAndTag| >= TAG_LEN then
      opener(NonceOf(record.header.noncePrefix, record.header.seqNo),
             record.ciphertextAndTag,
             record.header.Encoding())
    else None
  }

  /** The verdict on screened bytes in a replay state. */
  ghost function Judge(cfg: ReceiverConfig, g: GuardView, x: Screened): Verdict {
    match x
    case Refused(reason, declared) => Rejection(reason, declared)
    case Candidate(h, recovered) =>
      match GuardClassify(cfg.window, cfg.maxStreams, g, KeyOf(h), h.seqNo)
      case DUPLICATE => Rejection(REPLAY_DETECTED, Some(h))
      case TOO_OLD => Rejection(STALE_RECORD, Some(h))
      case INVALID => Rejection(STALE_RECORD, Some(h))
      case FRESH =>
        if recovered.None? then Rejection(AUTH_FAILED, Some(h)) else Acceptance(recovered.value, h)
  }

  ghost function After(cfg: ReceiverConfig, st: ReceiverState, x: Screened): ReceiverState {
    var v := Judge(cfg, st.guard, x);
    if v.Accepted() then
      ReceiverState(GuardRecord(cfg.window, cfg.maxStreams, st.guard, KeyOf(x.header), x.header.seqNo),
                    st.stats.NoteAcceptance(v.plaintext.value))
    else ReceiverState(st.guard, st.stats.NoteRejection(v.reason.value))
  }

  ghost function RecordedOn(g: GuardView, key: StreamKey): set<nat> {
    if key in g then g[key] else {}
  }

  // ---- The pipeline, byte by byte ----

  /** Every byte string's verdict, from its bytes: too short, of another version or
      of another length than it says; of another suite; of another session; of a
      new stream at the cap, or `window` or more behind its stream's highest
      number; a repeat; or else what the backend makes of nonce, body and header. */
  lemma ReceiveExactly(cfg: ReceiverConfig, g: GuardView, opener: Opener, wire: Bytes)
    ensures var v := Judge(cfg, g, Screen(cfg, opener, wire));
            if |wire| < 56 || wire[0] != 1 || BigEndian.Decode(wire[36..40]) > 0x100_0000
               || |wire| != 56 + BigEndian.Decode(wire[36..40])
            then v == Verdict(REJECTED, Some(MALFORMED), None, None)
            else
              var key, n := StreamKey(wire[4..20], BigEndian.Decode(wire[20..24])), BigEndian.Decode(wire[28..36]);
              var a, answer := RecordedOn(g, key), opener(wire[24..36], wire[40..], wire[..40]);
              && v.header == Some(Unpack(wire[..40]))
              && v.status == (if v.reason.None? then ACCEPTED else REJECTED)
              && v.plaintext == (if v.reason.None? then answer else None)
              && v.reason ==
                   if wire[1] != cfg.suiteId then Some(SUITE_MISMATCH)
                   else if cfg.expected.Some? && cfg.expected.value != wire[4..20] then Some(SESSION_MISMATCH)
                   else if (key !in g && |g| >= cfg.maxStreams) || Highest(a) - n >= cfg.window then Some(STALE_RECORD)
                   else if n in a then Some(REPLAY_DETECTED)
                   else if answer.None? then Some(AUTH_FAILED)
                   else None
  {
    ParseExactly(wire);
    if ParseRecord(wire).Success? {
      RecoverExactly(opener, wire);
      var h := Unpack(wire[..40]);
      HeaderOnWire(wire);
      JudgeExactly(cfg, g, h, Recover(opener, ParseRecord(wire).value));
    }
  }

  lemma HeaderOnWire(wire: Bytes)
    requires |wire| >= 40
    ensures var h := Unpack(wire[..40]);
            && h.Valid() && h.suiteId == wire[1] && h.sessionId == wire[4..20]
            && h.streamId == BigEndian.Decode(wire[20..24]) && h.seqNo == BigEndian.Decode(wire[28..36])
  {
    var raw := wire[..40];
    UnpackValid(raw);
    assert raw[4..20] == wire[4..20] && raw[20..24] == wire[20..24] && raw[28..36] == wire[28..36];
  }

  /** Opening asks the backend about the wire's own nonce, body and header. */
  lemma RecoverExactly(opener: Opener, wire: Bytes)
    requires ParseRecord(wire).Success?
    ensures |wire| >= 56 && ParseRecord(wire).value.header.Valid()
    ensures Recover(opener, ParseRecord(wire).value) == opener(wire[24..36], wire[40..], wire[..40])
  {
    var r := ParseRecord(wire).value;
    PrintOfParse(wire);
    assert wire[28..36] == wire[..40][28..36] && wire[24..28] == wire[..40][24..28];
    BigEndian.EncodeDecode(wire[28..36]);
    assert wire[24..36] == wire[24..28] + wire[28..36];
  }

  /** The last checks: no room, too far behind, a repeat, or what opening gave. */
  lemma JudgeExactly(cfg: ReceiverConfig, g: GuardView, h: RecordHeader, recovered: Option<Bytes>)
    requires h.seqNo >= 0
    ensures var a := RecordedOn(g, StreamKey(h.sessionId, h.streamId));
            Judge(cfg, g, Candidate(h, recovered)) ==
              if (StreamKey(h.sessionId, h.streamId) !in g && |g| >= cfg.maxStreams)
                 || Highest(a) - h.seqNo >= cfg.window
              then Verdict(REJECTED, Some(STALE_RECORD), None, Some(h))
              else if h.seqNo in a then Verdict(REJECTED, Some(REPLAY_DETECTED), None, Some(h))
              else if recovered.None? then Verdict(REJECTED, Some(AUTH_FAILED), None, Some(h))
              else Verdict(ACCEPTED, None, recovered, Some(h))
  {}

  // ---- One step ----

  /** Acceptance means: a candidate that opens, new on its stream; its number is
      recorded and nothing else moves. */
  lemma AcceptedStep(cfg: ReceiverConfig, st: ReceiverState, x: Screened)
    requires x.Candidate? ==> x.header.Valid()
    requires Judge(cfg, st.guard, x).Accepted()
    ensures var key, seqNo := KeyOf(x.header), x.header.seqNo;
            && x.Candidate? && x.recovered.Some? && seqNo >= 0
            && GuardClassify(cfg.window, cfg.maxStreams, st.guard, key, seqNo) == FRESH
            && Judge(cfg, st.guard, x) == Acceptance(x.recovered.value, x.header)
            && seqNo !in RecordedOn(st.guard, key)
            && (key in st.guard || |st.guard| < cfg.maxStreams)
            && After(cfg, st, x).guard == st.guard[key := RecordedOn(st.guard, key) + {seqNo}]
            && After(cfg, st, x).stats == st.stats.NoteAcceptance(x.recovered.value)
  {
    CommitFollowsCheck(cfg.window, cfg.maxStreams, st.guard, KeyOf(x.header), x.header.seqNo);
  }

  lemma TrackedAfterRecord(g: GuardView, key: StreamKey, s: set<nat>)
    ensures |g[key := s]| == if key in g then |g| else |g| + 1
  {
    assert g[key := s].Keys == g.Keys + {key};
    assert |g| == |g.Keys| && |g[key := s]| == |g[key := s].Keys|;
  }

  /** A rejection leaves the replay state and the accepted-side counters alone: in
      particular unauthenticated bytes neither create a stream nor move a window. */
  lemma RejectedStep(cfg: ReceiverConfig, st: ReceiverState, x: Screened)
    requires !Judge(cfg, st.guard, x).Accepted()
    ensures After(cfg, st, x).guard == st.guard
    ensures After(cfg, st, x).stats.accepted == st.stats.accepted
    ensures After(cfg, st, x).stats.plaintextBytes == st.stats.plaintextBytes
    ensures Judge(cfg, st.guard, x).reason.Some?
  {}

  /** What one step does to each stream's recorded numbers. */
  lemma RecordsAfter(cfg: ReceiverConfig, st: ReceiverState, x: Screened, key: StreamKey)
    requires x.Candidate? ==> x.header.Valid()
    ensures RecordedOn(After(cfg, st, x).guard, key)
            == if Judge(cfg, st.guard, x).Accepted() && x.Candidate? && key == KeyOf(x.header)
               then RecordedOn(st.guard, key) + {x.header.seqNo}
               else RecordedOn(st.guard, key)
  {
    if Judge(cfg, st.guard, x).Accepted() {
      AcceptedStep(cfg, st, x);
    } else {
      RejectedStep(cfg, st, x);
    }
  }
}
