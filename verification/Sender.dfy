/** The sending side, srp/sender.py: allocate a nonce, build the header around it,
    seal under that header, and count. */
module Sender {
  import opened Basics
  import opened Header
  import opened Suites
  import opened Nonce
  import BigEndian

  /** The values of a sender's counters. */
  datatype SenderTally = SenderTally(recordsProtected: nat, plaintextBytes: nat, wireBytes: nat) {
    function Count(payload: nat, wire: nat): SenderTally {
      SenderTally(recordsProtected + 1, plaintextBytes + payload, wireBytes + wire)
    }
  }

  datatype SenderState = SenderState(
    suiteId: int, sessionId: Bytes, streamId: int, nonces: NonceState, stats: SenderTally)
  {
    /** The constructor checks nothing about stream_id. */
    predicate Valid() {
      KnownSuite(suiteId) && |sessionId| == SESSION_ID_LEN && nonces.Valid()
    }
  }

  /** The arguments of one `seal`. */
  datatype Call = Call(payload: Bytes, recordType: RecordType, flags: int) {
    /** The payload check, made before a nonce is spent. */
    predicate WithinPolicy() {
      |payload| <= MAX_PAYLOAD_LEN
    }
  }

  function HeaderFor(s: SenderState, c: Call): RecordHeader {
    RecordHeader(s.sessionId, s.streamId, s.nonces.prefix, s.nonces.Next(), |c.payload|,
                 c.recordType, c.flags, PROTOCOL_VERSION, s.suiteId)
  }

  /** Whether a call can be turned into a header: the stream fits 32 bits, the
      type and flags one byte each.  Only found out after the allocation. */
  predicate Expressible(s: SenderState, c: Call) {
    0 <= s.streamId <= MAX_U32 && 0 <= c.recordType.Code() < 256 && 0 <= c.flags < 256
  }

  lemma ExpressibleHeader(s: SenderState, c: Call)
    requires s.Valid() && c.WithinPolicy() && !s.nonces.Exhausted()
    ensures HeaderFor(s, c).Valid() <==> 0 <= s.streamId <= MAX_U32
    ensures HeaderFor(s, c).Valid() && HeaderFor(s, c).Packable() <==> Expressible(s, c)
  {}

  /** What one `seal` leaves behind: the sender, the outcome, and the call it made
      on the AEAD, if any. */
  datatype Sealing = Sealing(after: SenderState, result: Result<ProtectedRecord, SrpError>, entries: seq<SealEntry>)

  function SealCall(s: SenderState, cipher: Cipher, c: Call): (r: Sealing)
    requires s.Valid()
    ensures r.after.Valid()
    ensures |r.entries| == if r.result.Success? then 1 else 0
  {
    if !c.WithinPolicy() then Sealing(s, Failure(ConfigurationError), [])
    else if s.nonces.Exhausted() then Sealing(s, Failure(NonceExhaustedError), [])
    else
      var spent := s.(nonces := s.nonces.(issued := s.nonces.issued + 1));
      if !(0 <= s.streamId <= MAX_U32) then Sealing(spent, Failure(ConfigurationError), [])
      else if !Expressible(s, c) then Sealing(spent, Failure(StructError), [])
      else
        ExpressibleHeader(s, c);
        var header := HeaderFor(s, c);
        var aad := header.Encoding();
        var nonce := NonceOf(s.nonces.prefix, s.nonces.Next());
        var output := cipher(nonce, c.payload, aad);
        Sealing(
          spent.(stats := s.stats.Count(|c.payload|, HEADER_LEN + |output|)),
          Success(ProtectedRecord(header, output)),
          [SealEntry(nonce, aad, c.payload, output)])
  }

  /** The calls that yield a record. */
  predicate Sendable(s: SenderState, c: Call) {
    c.WithinPolicy() && !s.nonces.Exhausted() && Expressible(s, c)
  }

  // ---- What a sealed entry looks like on the wire ----

  /** The bytes a sender emits for a sealed entry: its associated data, which is
      the header, then its output. */
  function WireOf(e: SealEntry): Bytes {
    e.aad + e.output
  }

  function HeaderOf(e: SealEntry): RecordHeader
    requires |e.aad| == HEADER_LEN
  {
    Unpack(e.aad)
  }

  /** An entry as senders make them: the header in its associated data is readable,
      describes the output, names the suite and yields the nonce. */
  ghost predicate Honest(e: SealEntry, suiteId: int) {
    && |e.aad| == HEADER_LEN
    && HeaderOf(e).version == PROTOCOL_VERSION
    && HeaderOf(e).suiteId == suiteId
    && HeaderOf(e).payloadLen == |e.plaintext| <= MAX_PAYLOAD_LEN
    && |e.output| == |e.plaintext| + TAG_LEN
    && e.nonce == NonceOf(HeaderOf(e).noncePrefix, HeaderOf(e).seqNo)
  }

  /** A successful seal makes one honest entry, under the next sequence number,
      whose wire is what the record prints as. */
  lemma SealIsHonest(s: SenderState, cipher: Cipher, c: Call)
    requires s.Valid() && SealCall(s, cipher, c).result.Success?
    ensures var r := SealCall(s, cipher, c);
            && |r.entries| == 1
            && Honest(r.entries[0], s.suiteId)
            && r.entries[0].plaintext == c.payload
            && HeaderOf(r.entries[0]) == HeaderFor(s, c).Canonical()
            && r.result.value.header == HeaderFor(s, c)
            && r.result.value.header.Valid()
            && r.result.value.ToBytes() == Success(WireOf(r.entries[0]))
  {
    ExpressibleHeader(s, c);
    UnpackOfEncoding(HeaderFor(s, c));
  }

  /** The wire of an honest entry parses to its header and output. */
  lemma HonestWireParses(e: SealEntry, suiteId: int)
    requires Honest(e, suiteId)
    ensures ParseRecord(WireOf(e)) == Success(ProtectedRecord(HeaderOf(e), e.output))
  {
    UnpackValid(e.aad);
    assert WireOf(e)[..HEADER_LEN] == e.aad && WireOf(e)[HEADER_LEN..] == e.output;
  }

  // ---- What a call does, in numbers ----

  /** A payload of up to 2^24 bytes is sealed exactly while the budget lasts and
      stream, type and flags fit their fields.  The number is spent on such a
      payload whether or not they fit; a longer one, or a spent budget, costs
      nothing.  Counters move only with a record. */
  lemma SealExactly(s: SenderState, cipher: Cipher, c: Call)
    requires s.Valid()
    ensures var r := SealCall(s, cipher, c);
            var short, left := |c.payload| <= 0x100_0000, s.nonces.issued < s.nonces.limit;
            var stream := 0 <= s.streamId <= 0xFFFF_FFFF;
            var bytes := 0 <= c.recordType.Code() <= 0xFF && 0 <= c.flags <= 0xFF;
            && (r.result.Success? <==> short && left && stream && bytes)
            && (r.result == Failure(NonceExhaustedError) <==> short && !left)
            && (r.result == Failure(StructError) <==> short && left && stream && !bytes)
            && (r.result == Failure(ConfigurationError) <==> !short || (left && !stream))
            && r.after == s.(nonces := s.nonces.(issued := s.nonces.issued + if short && left then 1 else 0),
                             stats := if r.result.Failure? then s.stats
                                      else SenderTally(s.stats.recordsProtected + 1,
                                                       s.stats.plaintextBytes + |c.payload|,
                                                       s.stats.wireBytes + |c.payload| + 56))
            && |r.entries| == if r.result.Success? then 1 else 0
  {}

  /** The wire of a sealed record, byte for byte. */
  ghost predicate WireSays(s: SenderState, cipher: Cipher, c: Call, wire: Bytes) {
    && |wire| == 56 + |c.payload|
    && wire[0] == 0x01
    && wire[1] == s.suiteId
    && (c.recordType == DATA ==> wire[2] == 0x01)
    && (c.recordType == CONTROL ==> wire[2] == 0x02)
    && (c.recordType == CLOSE ==> wire[2] == 0x03)
    && (c.recordType.Raw? ==> wire[2] == c.recordType.code)
    && wire[3] == c.flags
    && wire[4..20] == s.sessionId
    && BigEndian.Decode(wire[20..24]) == s.streamId
    && wire[24..28] == s.nonces.prefix
    && BigEndian.Decode(wire[28..36]) == s.nonces.start + s.nonces.issued
    && BigEndian.Decode(wire[36..40]) == |c.payload|
    && wire[40..] == cipher(wire[24..36], c.payload, wire[..40])
  }

  /** A successful seal hands the AEAD the nonce, payload and header that its wire
      shows, and the record prints as that wire. */
  lemma SealedWire(s: SenderState, cipher: Cipher, c: Call)
    requires s.Valid() && SealCall(s, cipher, c).result.Success?
    ensures var r := SealCall(s, cipher, c);
            |r.entries| == 1
            && var wire := WireOf(r.entries[0]);
               && WireSays(s, cipher, c, wire)
               && r.entries[0] == SealEntry(wire[24..36], wire[..40], c.payload, wire[40..])
               && r.result.value.header.Valid()
               && r.result.value.ToBytes() == Success(wire)
  {
    var e := SealCall(s, cipher, c).entries[0];
    var h := HeaderFor(s, c);
    ExpressibleHeader(s, c);
    EncodedFields(h, e.output);
    assert WireOf(e) == h.Encoding() + e.output;
  }

  lemma EncodedFields(h: RecordHeader, output: Bytes)
    requires h.Valid() && h.Packable()
    ensures var wire := h.Encoding() + output;
            && wire[0] == h.version && wire[1] == h.suiteId && wire[3] == h.flags
            && wire[2] == (match h.recordType case DATA => 1 case CONTROL => 2 case CLOSE => 3 case Raw(code) => code)
            && wire[4..20] == h.sessionId
            && BigEndian.Decode(wire[20..24]) == h.streamId
            && wire[24..28] == h.noncePrefix
            && BigEndian.Decode(wire[28..36]) == h.seqNo
            && BigEndian.Decode(wire[36..40]) == h.payloadLen
            && wire[24..36] == NonceOf(h.noncePrefix, h.seqNo)
            && wire[..40] == h.Encoding() && wire[40..] == output
  {
    var raw, wire := h.Encoding(), h.Encoding() + output;
    Layout(h);
    TypeByte(h);
    assert wire[4..20] == raw[4..20] && wire[20..24] == raw[20..24] && wire[24..28] == raw[24..28];
    assert wire[28..36] == raw[28..36] && wire[36..40] == raw[36..40];
    assert wire[24..36] == h.noncePrefix + BigEndian.Encode(h.seqNo, 8);
  }

  // ---- Runs of seal calls ----

  function SealAll(s: SenderState, cipher: Cipher, cs: seq<Call>)
    : (r: (SenderState, seq<Result<ProtectedRecord, SrpError>>))
    requires s.Valid()
    ensures |r.1| == |cs|
    decreases |cs|
  {
    if cs == [] then (s, [])
    else
      var first := SealCall(s, cipher, cs[0]);
      var (last, results) := SealAll(first.after, cipher, cs[1..]);
      (last, [first.result] + results)
  }

  /** How many of the calls get as far as asking for a nonce. */
  function Attempts(cs: seq<Call>): nat {
    if cs == [] then 0 else (if cs[0].WithinPolicy() then 1 else 0) + Attempts(cs[1..])
  }

  /** The outcome of a call, given how many earlier calls asked for a nonce. */
  ghost predicate OutcomeOf(s: SenderState, c: Call, earlier: nat, r: Result<ProtectedRecord, SrpError>) {
    if !c.WithinPolicy() then r == Failure(ConfigurationError)
    else if s.nonces.issued + earlier >= s.nonces.limit then r == Failure(NonceExhaustedError)
    else if !(0 <= s.streamId <= MAX_U32) then r == Failure(ConfigurationError)
    else if !Expressible(s, c) then r == Failure(StructError)
    else
      && r.Success?
      && r.value.header == HeaderFor(s, c).(seqNo := s.nonces.Next() + earlier)
      && |r.value.ciphertextAndTag| == |c.payload| + TAG_LEN
  }

  /** Over any calls, failed ones included: the k-th call that gets to allocate
      uses sequence number start + k, exactly `limit` of them succeed in
      allocating, and a call made afterwards is refused. */
  lemma {:induction false} SealRun(s: SenderState, cipher: Cipher, cs: seq<Call>, i: nat)
    requires s.Valid() && i < |cs|
    ensures OutcomeOf(s, cs[i], Attempts(cs[..i]), SealAll(s, cipher, cs).1[i])
    decreases |cs|
  {
    if i > 0 {
      var after := SealCall(s, cipher, cs[0]).after;
      SealRun(after, cipher, cs[1..], i - 1);
      assert cs[..i][0] == cs[0] && cs[..i][1..] == cs[1..][..i - 1];
      assert Attempts(cs[..i]) == (if cs[0].WithinPolicy() then 1 else 0) + Attempts(cs[1..][..i - 1]);
    }
  }

  lemma {:induction false} SealRunBudget(s: SenderState, cipher: Cipher, cs: seq<Call>)
    requires s.Valid()
    ensures SealAll(s, cipher, cs).0.nonces == s.nonces.(issued := Min(s.nonces.limit, s.nonces.issued + Attempts(cs)))
    decreases |cs|
  {
    if cs != [] {
      SealRunBudget(SealCall(s, cipher, cs[0]).after, cipher, cs[1..]);
    }
  }

  /** How many of the calls returned a record, and how long their payloads were. */
  function Successes(cs: seq<Call>, rs: seq<Result<ProtectedRecord, SrpError>>): (nat, nat)
    requires |cs| == |rs|
  {
    if cs == [] then (0, 0)
    else
      var (n, bytes) := Successes(cs[1..], rs[1..]);
      if rs[0].Success? then (n + 1, bytes + |cs[0].payload|) else (n, bytes)
  }

  /** The counters after n more records with so many payload bytes in all. */
  function Counted(stats: SenderTally, records: (nat, nat)): SenderTally {
    SenderTally(stats.recordsProtected + records.0,
                stats.plaintextBytes + records.1,
                stats.wireBytes + records.1 + 56 * records.0)
  }

  /** A sender's counters count exactly the records that came back, their payloads,
      and for each record header and tag on the wire beside its payload. */
  lemma {:induction false} SealRunStats(s: SenderState, cipher: Cipher, cs: seq<Call>)
    requires s.Valid()
    ensures var (last, rs) := SealAll(s, cipher, cs);
            last.stats == Counted(s.stats, Successes(cs, rs))
    decreases |cs|
  {
    if cs != [] {
      var first := SealCall(s, cipher, cs[0]);
      SealCounts(s, cipher, cs[0]);
      SealRunStats(first.after, cipher, cs[1..]);
      SealAllCons(s, cipher, cs);
      SuccessesCons(cs, first.result, SealAll(first.after, cipher, cs[1..]).1);
    }
  }

  lemma SealAllCons(s: SenderState, cipher: Cipher, cs: seq<Call>)
    requires s.Valid() && cs != []
    ensures var first := SealCall(s, cipher, cs[0]);
            var rest := SealAll(first.after, cipher, cs[1..]);
            SealAll(s, cipher, cs) == (rest.0, [first.result] + rest.1)
  {}

  lemma SuccessesCons(cs: seq<Call>, r: Result<ProtectedRecord, SrpError>, rs: seq<Result<ProtectedRecord, SrpError>>)
    requires |cs| == |rs| + 1
    ensures var (n, bytes) := Successes(cs[1..], rs);
            Successes(cs, [r] + rs) == if r.Success? then (n + 1, bytes + |cs[0].payload|) else (n, bytes)
  {
    assert ([r] + rs)[1..] == rs;
  }

  lemma SealCounts(s: SenderState, cipher: Cipher, c: Call)
    requires s.Valid()
    ensures var r := SealCall(s, cipher, c);
            r.after.stats == if r.result.Success? then s.stats.Count(|c.payload|, |c.payload| + 56)
                             else s.stats
  {}

  lemma {:induction false} AttemptsGrow(cs: seq<Call>, i: nat, j: nat)
    requires i < j <= |cs| && cs[i].WithinPolicy()
    ensures Attempts(cs[..i]) < Attempts(cs[..j])
  {
    assert cs[..j][0] == cs[0] && cs[..j][1..] == cs[1..][..j - 1];
    if i > 0 {
      assert cs[..i][0] == cs[0] && cs[..i][1..] == cs[1..][..i - 1];
      AttemptsGrow(cs[1..], i - 1, j - 1);
    }
  }

  /** Two records of one run never share a sequence number or a nonce. */
  lemma SealedNoncesDiffer(s: SenderState, cipher: Cipher, cs: seq<Call>, i: nat, j: nat)
    requires s.Valid() && i < j < |cs|
    requires SealAll(s, cipher, cs).1[i].Success? && SealAll(s, cipher, cs).1[j].Success?
    ensures var h, k := SealAll(s, cipher, cs).1[i].value.header, SealAll(s, cipher, cs).1[j].value.header;
            0 <= h.seqNo < k.seqNo < SEQ_SPACE
            && NonceOf(h.noncePrefix, h.seqNo) != NonceOf(k.noncePrefix, k.seqNo)
  {
    SealRun(s, cipher, cs, i);
    SealRun(s, cipher, cs, j);
    AttemptsGrow(cs, i, j);
    var h, k := SealAll(s, cipher, cs).1[i].value.header, SealAll(s, cipher, cs).1[j].value.header;
    if NonceOf(h.noncePrefix, h.seqNo) == NonceOf(k.noncePrefix, k.seqNo) {
      NonceInjective(h.noncePrefix, h.seqNo, k.noncePrefix, k.seqNo);
    }
  }

  // ---- protect_many ----

  function DataCall(payload: Bytes): Call {
    Call(payload, DATA, 0)
  }

  datatype Protection = Protection(after: SenderState, result: Result<seq<Bytes>, SrpError>, entries: seq<SealEntry>)

  /** Seal one payload after another; the first failure loses the list, but not
      what was sealed before it. */
  function ProtectAll(s: SenderState, cipher: Cipher, payloads: seq<Bytes>): (r: Protection)
    requires s.Valid()
    ensures r.after.Valid()
  {
    if payloads == [] then Protection(s, Success([]), [])
    else
      var init := ProtectAll(s, cipher, payloads[..|payloads| - 1]);
      if init.result.Failure? then init
      else
        var last := SealCall(init.after, cipher, DataCall(payloads[|payloads| - 1]));
        if last.result.Failure? then Protection(last.after, Failure(last.result.error), init.entries)
        else Protection(last.after, Success(init.result.value + [WireOf(last.entries[0])]), init.entries + last.entries)
  }

  /** One more payload after a list that came back. */
  lemma ProtectAllSnoc(s: SenderState, cipher: Cipher, payloads: seq<Bytes>, payload: Bytes)
    requires s.Valid() && ProtectAll(s, cipher, payloads).result.Success?
    ensures var init := ProtectAll(s, cipher, payloads);
            var last := SealCall(init.after, cipher, DataCall(payload));
            if last.result.Failure? then
              ProtectAll(s, cipher, payloads + [payload])
              == Protection(last.after, Failure(last.result.error), init.entries)
            else
              |last.entries| == 1 && last.entries[0].plaintext == payload
              && ProtectAll(s, cipher, payloads + [payload])
                 == Protection(last.after, Success(init.result.value + [WireOf(last.entries[0])]),
                               init.entries + last.entries)
  {
    var all := payloads + [payload];
    assert all[..|all| - 1] == payloads && all[|all| - 1] == payload;
  }

  /** Entry and wire i belong to payload i. */
  ghost predicate Pointwise(payloads: seq<Bytes>, entries: seq<SealEntry>, wires: seq<Bytes>) {
    && |wires| == |entries| == |payloads|
    && forall i :: 0 <= i < |payloads| ==> entries[i].plaintext == payloads[i] && wires[i] == WireOf(entries[i])
  }

  /** A list that comes back holds one wire per payload, in order, each the wire
      of the entry that sealed that payload. */
  lemma {:induction false} ProtectAllIsPointwise(s: SenderState, cipher: Cipher, payloads: seq<Bytes>)
    requires s.Valid() && ProtectAll(s, cipher, payloads).result.Success?
    ensures var r := ProtectAll(s, cipher, payloads);
            Pointwise(payloads, r.entries, r.result.value)
  {
    if payloads != [] {
      var init, last := payloads[..|payloads| - 1], payloads[|payloads| - 1];
      assert payloads == init + [last];
      ProtectAllIsPointwise(s, cipher, init);
      ProtectAllSnoc(s, cipher, init, last);
      var before, e := ProtectAll(s, cipher, init), ProtectAll(s, cipher, payloads).entries[|payloads| - 1];
      PointwiseSnoc(init, before.entries, before.result.value, e);
      assert ProtectAll(s, cipher, payloads).entries == before.entries + [e];
    }
  }

  lemma PointwiseSnoc(payloads: seq<Bytes>, entries: seq<SealEntry>, wires: seq<Bytes>, e: SealEntry)
    requires Pointwise(payloads, entries, wires)
    ensures Pointwise(payloads + [e.plaintext], entries + [e], wires + [WireOf(e)])
  {}

  /** What `protect_many` seals for one payload: a DATA record without flags, under
      the sender's own stream, with the number given. */
  ghost predicate PlainEntry(s: SenderState, e: SealEntry, payload: Bytes, seqNo: int) {
    && |e.aad| == 40 && e.plaintext == payload
    && var h := Unpack(e.aad);
       && h.version == 0x01 && h.suiteId == s.suiteId && h.recordType == DATA && h.flags == 0
       && h.sessionId == s.sessionId && h.streamId == s.streamId && h.noncePrefix == s.nonces.prefix
       && h.seqNo == seqNo && h.payloadLen == |payload|
  }

  /** Entry i protects payload i as such a record, under consecutive numbers. */
  ghost predicate PlainEntries(s: SenderState, entries: seq<SealEntry>, payloads: seq<Bytes>) {
    && |entries| == |payloads|
    && forall i :: 0 <= i < |payloads| ==>
         PlainEntry(s, entries[i], payloads[i], s.nonces.start + s.nonces.issued + i)
  }

  /** When the whole list can be protected. */
  predicate Protectable(s: SenderState, payloads: seq<Bytes>) {
    && (payloads != [] ==> 0 <= s.streamId <= 0xFFFF_FFFF)
    && |payloads| <= s.nonces.limit - s.nonces.issued
    && forall i :: 0 <= i < |payloads| ==> |payloads[i]| <= 0x100_0000
  }

  lemma PlainSeal(s: SenderState, t: SenderState, cipher: Cipher, payload: Bytes)
    requires s.Valid() && t.Valid() && t.(nonces := s.nonces, stats := s.stats) == s
    requires t.nonces.(issued := s.nonces.issued) == s.nonces
    ensures var r := SealCall(t, cipher, DataCall(payload));
            && (r.result.Success? <==>
                 |payload| <= 0x100_0000 && t.nonces.issued < t.nonces.limit && 0 <= s.streamId <= 0xFFFF_FFFF)
            && (r.result.Success? ==>
                 && |r.entries| == 1
                 && PlainEntry(s, r.entries[0], payload, t.nonces.start + t.nonces.issued)
                 && r.after.(nonces := s.nonces, stats := s.stats) == s
                 && r.after.nonces == t.nonces.(issued := t.nonces.issued + 1))
  {
    SealExactly(t, cipher, DataCall(payload));
    if SealCall(t, cipher, DataCall(payload)).result.Success? {
      SealIsHonest(t, cipher, DataCall(payload));
    }
  }

  lemma ProtectableSnoc(s: SenderState, payloads: seq<Bytes>, payload: Bytes)
    ensures Protectable(s, payloads + [payload]) <==>
            && Protectable(s, payloads) && 0 <= s.streamId <= 0xFFFF_FFFF
            && s.nonces.issued + |payloads| < s.nonces.limit && |payload| <= 0x100_0000
  {
    var all := payloads + [payload];
    assert all[|payloads|] == payload && forall i :: 0 <= i < |payloads| ==> all[i] == payloads[i];
  }

  lemma PlainEntriesSnoc(s: SenderState, entries: seq<SealEntry>, payloads: seq<Bytes>, e: SealEntry, payload: Bytes)
    requires PlainEntries(s, entries, payloads)
    requires PlainEntry(s, e, payload, s.nonces.start + s.nonces.issued + |payloads|)
    ensures PlainEntries(s, entries + [e], payloads + [payload])
  {}

  /** The list comes back exactly when every payload is within 2^24 bytes, the
      stream fits and the budget covers them all; and then payload i is protected
      as a plain DATA record under the i-th number the sender had left. */
  lemma {:induction false} ProtectAllExactly(s: SenderState, cipher: Cipher, payloads: seq<Bytes>)
    requires s.Valid()
    ensures var r := ProtectAll(s, cipher, payloads);
            && (r.result.Success? <==> Protectable(s, payloads))
            && (r.result.Success? ==>
                 && PlainEntries(s, r.entries, payloads)
                 && r.after.(nonces := s.nonces, stats := s.stats) == s
                 && r.after.nonces == s.nonces.(issued := s.nonces.issued + |payloads|))
    decreases |payloads|
  {
    if payloads != [] {
      var init, last := payloads[..|payloads| - 1], payloads[|payloads| - 1];
      var before := ProtectAll(s, cipher, init);
      assert payloads == init + [last];
      ProtectAllExactly(s, cipher, init);
      ProtectableSnoc(s, init, last);
      if before.result.Success? {
        var next := SealCall(before.after, cipher, DataCall(last));
        PlainSeal(s, before.after, cipher, last);
        ProtectAllSnoc(s, cipher, init, last);
        if next.result.Success? {
          PlainEntriesSnoc(s, before.entries, init, next.entries[0], last);
          assert next.entries == [next.entries[0]];
        }
      }
    }
  }

  class SenderStats {
    var recordsProtected: nat
    var plaintextBytes: nat
    var wireBytes: nat

    function Tally(): SenderTally
      reads this
    {
      SenderTally(recordsProtected, plaintextBytes, wireBytes)
    }

    constructor ()
      ensures Tally() == SenderTally(0, 0, 0)
    {
      recordsProtected, plaintextBytes, wireBytes := 0, 0, 0;
    }
  }

  class Sender {
    const suite: IdealAead
    const sessionId: Bytes
    const streamId: int
    const nonces: NonceManager
    const stats: SenderStats

    ghost predicate Valid()
      reads this, nonces, stats
    {
      nonces.Valid() && State().Valid()
    }

    ghost function State(): SenderState
      reads this, nonces, stats
    {
      SenderState(suite.suiteId, sessionId, streamId, nonces.State(), stats.Tally())
    }

    constructor (suite: IdealAead, sessionId: Bytes, streamId: int, noncePrefix: Bytes, recordLimit: int, startSeq: int)
      requires suite.suiteId in {0x01, 0x02} && |sessionId| == 16 && |noncePrefix| == 4
      requires 0 <= startSeq && recordLimit > 0 && startSeq + recordLimit <= 0x1_0000_0000_0000_0000
      ensures Valid() && fresh(nonces) && fresh(stats) && this.suite == suite
      ensures State() == SenderState(suite.suiteId, sessionId, streamId,
                                     NonceState(noncePrefix, startSeq, recordLimit, 0), SenderTally(0, 0, 0))
    {
      this.suite := suite;
      this.sessionId := sessionId;
      this.streamId := streamId;
      this.nonces := new NonceManager(noncePrefix, startSeq, recordLimit);
      this.stats := new SenderStats();
    }

    method Seal(c: Call) returns (r: Result<ProtectedRecord, SrpError>)
      requires Valid()
      modifies nonces, stats, suite
      ensures Valid()
      ensures var spec := SealCall(old(State()), suite.cipher, c);
              State() == spec.after && r == spec.result && suite.table == old(suite.table) + spec.entries
      ensures r.Success? <==>
              && |c.payload| <= 0x100_0000 && old(nonces.issued) < nonces.limit && 0 <= streamId <= 0xFFFF_FFFF
              && 0 <= c.recordType.Code() <= 0xFF && 0 <= c.flags <= 0xFF
    {
      if |c.payload| > MAX_PAYLOAD_LEN {
        return Failure(ConfigurationError);
      }
      ghost var before := State();
      var allocation :- nonces.Allocate();
      var header :- Construct(RecordHeader(sessionId, streamId, nonces.prefix, allocation.seqNo, |c.payload|,
                                           c.recordType, c.flags, PROTOCOL_VERSION, suite.suiteId));
      assert header == HeaderFor(before, c);
      var aad :- header.Aad();
      // The 12-byte nonce never trips the suite's length guard.
      var sealed := suite.Seal(allocation.nonce, c.payload, aad);
      var record := ProtectedRecord(header, sealed.Extract());
      stats.recordsProtected := stats.recordsProtected + 1;
      stats.plaintextBytes := stats.plaintextBytes + |c.payload|;
      stats.wireBytes := stats.wireBytes + record.Len();
      return Success(record);
    }

    method Protect(c: Call) returns (r: Result<Bytes, SrpError>)
      requires Valid()
      modifies nonces, stats, suite
      ensures Valid()
      ensures var spec := SealCall(old(State()), suite.cipher, c);
              && State() == spec.after && suite.table == old(suite.table) + spec.entries
              && r == if spec.result.Success? then Success(WireOf(spec.entries[0])) else Failure(spec.result.error)
    {
      ghost var before := State();
      var record :- Seal(c);
      SealIsHonest(before, suite.cipher, c);
      return Success(record.ToBytes().Extract());
    }

    method ProtectMany(payloads: seq<Bytes>) returns (r: Result<seq<Bytes>, SrpError>)
      requires Valid()
      modifies nonces, stats, suite
      ensures Valid()
      ensures var spec := ProtectAll(old(State()), suite.cipher, payloads);
              State() == spec.after && r == spec.result && suite.table == old(suite.table) + spec.entries
    {
      var wires := [];
      ghost var before, cipher, entries := State(), suite.cipher, [];
      assert payloads[..0] == [];
      for i := 0 to |payloads|
        invariant Valid() && suite.cipher == cipher && suite.table == old(suite.table) + entries
        invariant ProtectAll(before, cipher, payloads[..i]) == Protection(State(), Success(wires), entries)
      {
        ghost var last := SealCall(State(), cipher, DataCall(payloads[i]));
        PrefixSnoc(payloads, i);
        ProtectAllSnoc(before, cipher, payloads[..i], payloads[i]);
        var wire := Protect(DataCall(payloads[i]));
        if wire.Failure? {
          FailureSticks(before, cipher, payloads, i + 1);
          return Failure(wire.error);
        }
        wires, entries := wires + [wire.value], entries + last.entries;
      }
      assert payloads[..|payloads|] == payloads;
      return Success(wires);
    }
  }

  lemma PrefixSnoc<T>(xs: seq<T>, i: nat)
    requires i < |xs|
    ensures xs[..i + 1] == xs[..i] + [xs[i]]
  {}

  lemma {:induction false} FailureSticks(s: SenderState, cipher: Cipher, payloads: seq<Bytes>, n: nat)
    requires s.Valid() && n <= |payloads| && ProtectAll(s, cipher, payloads[..n]).result.Failure?
    ensures ProtectAll(s, cipher, payloads) == ProtectAll(s, cipher, payloads[..n])
    decreases |payloads|
  {
    if n < |payloads| {
      assert payloads[..|payloads| - 1][..n] == payloads[..n];
      FailureSticks(s, cipher, payloads[..|payloads| - 1], n);
    } else {
      assert payloads[..n] == payloads;
    }
  }
}
