/** The malicious actor of srp/adversary.py: byte transformations of genuine wires,
    and the verdict each of them meets.  Random choices are arguments. */
module Adversary {
  import opened Basics
  import opened Header
  import opened Suites
  import opened Sender
  import opened ReplaySpec
  import opened ReceiverSpec
  import opened Session
  import opened EndToEnd
  import Bits
  import BigEndian

  // ---- Python indexing and slicing ----

  /** Where w[index] points: negative indices count from the end. */
  function Position(w: Bytes, index: int): int {
    if index < 0 then index + |w| else index
  }

  function Clamp(w: Bytes, index: int): nat {
    Max(0, Min(|w|, Position(w, index)))
  }

  /** w[start:stop] */
  function Slice(w: Bytes, start: int, stop: int): Bytes {
    if Clamp(w, start) <= Clamp(w, stop) then w[Clamp(w, start)..Clamp(w, stop)] else []
  }

  // ---- Flipping bits ----

  /** `w[index] ^= 1 << bit` on a copy of the wire. */
  function Flipped(wire: Bytes, index: int, bit: int): Result<Bytes, SrpError> {
    var i := Position(wire, index);
    if !(0 <= i < |wire|) then Failure(IndexError)
    else if bit < 0 then Failure(ValueError)
    else
      var b := Bits.Xor(wire[i], Bits.Shl(1, bit));
      if b >= 256 then Failure(ValueError) else Success(wire[i := b])
  }

  method FlipIn(wire: Bytes, index: int, bit: int) returns (r: Result<Bytes, SrpError>)
    ensures r == Flipped(wire, index, bit)
  {
    var w := new byte[|wire|](k requires 0 <= k < |wire| => wire[k]);
    assert w[..] == wire;
    var i := Position(wire, index);
    if !(0 <= i < w.Length) {
      return Failure(IndexError);
    }
    if bit < 0 {
      return Failure(ValueError);
    }
    var b := Bits.Xor(w[i], Bits.Shl(1, bit));
    if b >= 256 {
      return Failure(ValueError);
    }
    w[i] := b;
    return Success(w[..]);
  }

  method FlipCiphertextBit(wire: Bytes, offset: int, bit: int) returns (r: Result<Bytes, SrpError>)
    ensures r == if |wire| <= MIN_RECORD_LEN then Failure(ValueError) else Flipped(wire, HEADER_LEN + offset, bit)
  {
    var start, end := HEADER_LEN, |wire| - TAG_LEN;
    if end - start <= 0 {
      return Failure(ValueError);
    }
    r := FlipIn(wire, start + offset, bit);
  }

  method FlipTagBit(wire: Bytes, offset: int, bit: int) returns (r: Result<Bytes, SrpError>)
    ensures r == Flipped(wire, |wire| - TAG_LEN + offset, bit)
  {
    r := FlipIn(wire, |wire| - TAG_LEN + offset, bit);
  }

  method FlipHeaderBit(wire: Bytes, offset: int, bit: int) returns (r: Result<Bytes, SrpError>)
    ensures r == Flipped(wire, offset, bit)
  {
    r := FlipIn(wire, offset, bit);
  }

  /** Flipping a bit from 0 to 7 at an index inside the wire, counted from the end
      if negative, changes exactly that digit of exactly that byte; any other index
      or bit is an error. */
  lemma FlipChangesOneBit(wire: Bytes, index: int, bit: int)
    ensures Flipped(wire, index, bit).Success? <==> -|wire| <= index < |wire| && 0 <= bit < 8
    ensures Flipped(wire, index, bit).Failure? ==>
              Flipped(wire, index, bit).error == if -|wire| <= index < |wire| then ValueError else IndexError
    ensures Flipped(wire, index, bit).Success? ==>
              var w, i := Flipped(wire, index, bit).value, if index < 0 then |wire| + index else index;
              && |w| == |wire| && w == wire[i := w[i]] && w[i] != wire[i]
              && forall k: nat :: Bits.Bit(w[i], k) == (Bits.Bit(wire[i], k) != (k == bit))
  {
    if -|wire| <= index < |wire| && bit >= 0 {
      FlippedByte(wire[Position(wire, index)], bit);
    }
  }

  lemma FlipSucceeds(wire: Bytes, i: nat, bit: int)
    ensures Flipped(wire, i, bit).Success? <==> i < |wire| && 0 <= bit < 8
  {
    FlipChangesOneBit(wire, i, bit);
  }

  lemma FlippedByte(x: byte, bit: nat)
    ensures var b := Bits.Xor(x, Bits.Shl(1, bit));
            && (b < 256 <==> bit < 8) && b != x
            && forall k: nat :: Bits.Bit(b, k) == (Bits.Bit(x, k) != (k == bit))
  {
    var b := Bits.Xor(x, Bits.Shl(1, bit));
    XorUnit(x, bit);
    EightBits(x);
    EightBits(b);
    assert Bits.Bit(b, bit) != Bits.Bit(x, bit);
    if bit < 8 {
      assert Bits.ClearFrom(b, 8);
    } else {
      assert !Bits.Bit(x, bit);
    }
  }

  lemma XorUnit(x: nat, bit: nat)
    ensures forall k: nat :: Bits.Bit(Bits.Xor(x, Bits.Shl(1, bit)), k) == (Bits.Bit(x, k) != (k == bit))
  {
    forall k: nat ensures Bits.Bit(Bits.Xor(x, Bits.Shl(1, bit)), k) == (Bits.Bit(x, k) != (k == bit)) {
      Bits.BitXor(x, Bits.Shl(1, bit), k);
      Bits.BitUnit(bit, k);
    }
  }

  lemma EightBits(x: nat)
    ensures x < 256 <==> Bits.ClearFrom(x, 8)
  {
    assert Bits.Shl(1, 4) == 16;
    assert Bits.Shl(1, 8) == 256;
    Bits.FitsInBits(x, 8);
  }

  // ---- Slicing and splicing ----

  /** A negative count repeats bytes of the tag instead of dropping any. */
  function TruncateCiphertext(wire: Bytes, count: int): Bytes {
    var end := |wire| - TAG_LEN;
    var dropped := if count > end - HEADER_LEN then end - HEADER_LEN else count;
    Slice(wire, 0, HEADER_LEN) + Slice(wire, HEADER_LEN, end - dropped) + Slice(wire, end, |wire|)
  }

  function ReplaceTag(wire: Bytes, tag: Bytes): Bytes {
    Slice(wire, 0, -TAG_LEN) + tag
  }

  /** wire[:-count]; a count of 0 leaves nothing, since -0 is 0. */
  function TruncateTag(wire: Bytes, count: int): Bytes {
    Slice(wire, 0, -count)
  }

  /** Rewrite header fields, keeping ciphertext and tag.  `change` stands for the
      keyword arguments. */
  function TamperHeader(wire: Bytes, change: RecordHeader -> RecordHeader): Result<Bytes, SrpError> {
    var header :- FromBytes(Slice(wire, 0, HEADER_LEN));
    var changed :- Construct(change(header));
    var raw :- changed.ToBytes();
    Success(raw + Slice(wire, HEADER_LEN, |wire|))
  }

  function Renumber(wire: Bytes, seqNo: int): Result<Bytes, SrpError> {
    TamperHeader(wire, (h: RecordHeader) => h.(seqNo := seqNo))
  }

  /** Presenting a record as another type, or with other flags. */
  function Relabel(wire: Bytes, recordType: RecordType, flags: int): Result<Bytes, SrpError> {
    TamperHeader(wire, (h: RecordHeader) => h.(recordType := recordType, flags := flags))
  }

  function Splice(headerSource: Bytes, bodySource: Bytes): Bytes {
    Slice(headerSource, 0, HEADER_LEN) + Slice(bodySource, HEADER_LEN, |bodySource|)
  }

  function SwapBodies(a: Bytes, b: Bytes): (Bytes, Bytes) {
    (Splice(a, b), Splice(b, a))
  }

  // ---- The resulting bytes ----

  /** A splice has the first 40 bytes of one wire and all but the first 40 of the
      other. */
  lemma SpliceBytes(a: Bytes, b: Bytes)
    ensures Splice(a, b) == a[..Min(40, |a|)] + b[Min(40, |b|)..]
  {}

  /** The first result of a swap is a's header with b's body, the second b's header
      with a's body, and swapping those again undoes it. */
  lemma SwapBytes(a: Bytes, b: Bytes)
    requires |a| >= 40 && |b| >= 40
    ensures SwapBodies(a, b) == (a[..40] + b[40..], b[..40] + a[40..])
    ensures SwapBodies(SwapBodies(a, b).0, SwapBodies(a, b).1) == (a, b)
  {
    SpliceBytes(a, b);
    SpliceBytes(b, a);
    var x, y := a[..40] + b[40..], b[..40] + a[40..];
    SpliceBytes(x, y);
    SpliceBytes(y, x);
    assert x[..40] == a[..40] && x[40..] == b[40..] && y[..40] == b[..40] && y[40..] == a[40..];
    assert a == a[..40] + a[40..] && b == b[..40] + b[40..];
  }

  /** Replacing the tag replaces the last 16 bytes; of fewer, nothing is kept. */
  lemma ReplaceTagBytes(wire: Bytes, tag: Bytes)
    ensures ReplaceTag(wire, tag) == wire[..Max(0, |wire| - 16)] + tag
  {}

  /** Truncating the tag drops the last `count` bytes, or keeps the first -count if
      that is not positive. */
  lemma TruncateTagBytes(wire: Bytes, count: int)
    ensures TruncateTag(wire, count) == wire[..if count > 0 then Max(0, |wire| - count) else Min(|wire|, -count)]
  {}

  /** Truncating the ciphertext takes `count` bytes out from before the tag, as far
      as the header; a negative count repeats the first -count bytes of the tag. */
  lemma TruncateCiphertextBytes(wire: Bytes, count: int)
    requires |wire| >= 56
    ensures var tag := |wire| - 16;
            TruncateCiphertext(wire, count) == wire[..Max(40, Min(|wire|, tag - count))] + wire[tag..]
  {
    var end := |wire| - TAG_LEN;
    var stop := Max(HEADER_LEN, Min(|wire|, end - count));
    assert TruncateCiphertext(wire, count) == wire[..HEADER_LEN] + wire[HEADER_LEN..stop] + wire[end..];
    assert wire[..stop] == wire[..HEADER_LEN] + wire[HEADER_LEN..stop];
  }

  /** Rewriting the header fails on bytes without a version-1 header, on fields out
      of range and on those that do not fit a byte; otherwise the new header takes
      the first 40 bytes and the rest stays. */
  lemma TamperBytes(wire: Bytes, change: RecordHeader -> RecordHeader)
    ensures var r := TamperHeader(wire, change);
            if |wire| < 40 || wire[0] != 1 then r == Failure(MalformedRecordError)
            else
              var h := change(Unpack(wire[..40]));
              if !h.Valid() then r == Failure(ConfigurationError)
              else if !h.Packable() then r == Failure(StructError)
              else
                && r.Success? && |r.value| == |wire| && r.value[40..] == wire[40..]
                && Unpack(r.value[..40]) == h.Canonical()
  {
    if |wire| >= 40 && wire[0] == 1 {
      var h := change(Unpack(wire[..40]));
      assert Slice(wire, 0, HEADER_LEN) == wire[..40];
      assert Slice(wire, HEADER_LEN, |wire|) == wire[40..];
      if h.Valid() && h.Packable() {
        UnpackOfEncoding(h);
        assert (h.Encoding() + wire[40..])[..40] == h.Encoding();
      }
    }
  }

  /** Renumbering succeeds exactly for 64-bit numbers, and rewrites bytes 28 to 35. */
  lemma RenumberBytes(wire: Bytes, seqNo: int)
    requires |wire| >= 40 && wire[0] == 1
    ensures Renumber(wire, seqNo) ==
              if 0 <= seqNo <= 0xFFFF_FFFF_FFFF_FFFF
              then Success(wire[..28] + BigEndian.Encode(seqNo, 8) + wire[36..])
              else Failure(ConfigurationError)
  {
    var raw := wire[..40];
    var h := Unpack(raw).(seqNo := seqNo);
    EncodingOfUnpack(raw);
    assert Slice(wire, 0, HEADER_LEN) == raw && Slice(wire, HEADER_LEN, |wire|) == wire[40..];
    if 0 <= seqNo <= 0xFFFF_FFFF_FFFF_FFFF {
      RenumberedEncoding(raw, seqNo);
      assert Renumber(wire, seqNo) == Success(h.Encoding() + wire[40..]);
      assert raw[..28] + BigEndian.Encode(seqNo, 8) + raw[36..] + wire[40..]
          == wire[..28] + BigEndian.Encode(seqNo, 8) + wire[36..];
    }
  }

  lemma RenumberedEncoding(raw: Bytes, seqNo: nat)
    requires |raw| == 40 && seqNo <= MAX_U64
    ensures var h := Unpack(raw).(seqNo := seqNo);
            h.Valid() && h.Packable() && h.Encoding() == raw[..28] + BigEndian.Encode(seqNo, 8) + raw[36..]
  {
    var h := Unpack(raw);
    EncodingOfUnpack(raw);
    var head, tail := h.Encoding()[..28], h.Encoding()[36..];
    assert h.(seqNo := seqNo).Encoding() == head + BigEndian.Encode(seqNo, 8) + tail;
  }

  /** Relabelling rewrites bytes 2 and 3. */
  lemma RelabelBytes(wire: Bytes, recordType: RecordType, flags: int)
    requires |wire| >= 40 && wire[0] == 1
    ensures Relabel(wire, recordType, flags) ==
              if 0 <= recordType.Code() <= 0xFF && 0 <= flags <= 0xFF
              then Success(wire[2 := recordType.Code()][3 := flags])
              else Failure(StructError)
  {
    var raw: Bytes := wire[..40];
    var h := Unpack(raw).(recordType := recordType, flags := flags);
    EncodingOfUnpack(raw);
    assert Slice(wire, 0, HEADER_LEN) == raw && Slice(wire, HEADER_LEN, |wire|) == wire[40..];
    if 0 <= recordType.Code() <= 0xFF && 0 <= flags <= 0xFF {
      assert Relabel(wire, recordType, flags) == Success(h.Encoding() + wire[40..]);
      assert h.Encoding() == raw[2 := recordType.Code()][3 := flags];
      assert h.Encoding() + wire[40..] == wire[2 := recordType.Code()][3 := flags];
    }
  }

  // ---- What the receiver makes of it ----

  /** Under a genuine nonce nothing opens but the genuine triple. */
  lemma SameNonceOpensOnly(cfg: ReceiverConfig, sys: System, e: SealEntry, body: Bytes, aad: Bytes)
    requires NonceUnique(sys.table) && e in sys.table
    requires body != e.output || aad != e.aad
    ensures Lookup(sys.table, e.nonce, body, aad) == None
  {
    var found := Lookup(sys.table, e.nonce, body, aad);
    LookupIsSealed(sys.table, e.nonce, body, aad);
    if found.Some? {
      EntryByNonce(sys.table, e, SealEntry(e.nonce, aad, found.value, body));
    }
  }

  /** The bytes are on their way as a sent wire. */
  ghost predicate IsSentWire(sys: System, wire: Bytes) {
    exists e :: e in sys.table && WireOf(e) == wire
  }

  /** A sent wire meets the first check its header fails, and is accepted if it
      passes them all, at a receiver that has accepted nothing. */
  lemma SentWireAtEmpty(cfg: ReceiverConfig, sys: System, f: SealEntry)
    requires Inv(cfg, sys) && f in sys.table && cfg.maxStreams >= 1
    ensures var v, h := Judge(cfg, map[], Presented(cfg, sys, WireOf(f))), HeaderOf(f);
            && h.version == PROTOCOL_VERSION && h.suiteId == cfg.suiteId
            && if SessionMatches(cfg, h) then v.Accepted() else v == Rejection(SESSION_MISMATCH, Some(h))
  {
    SealedIsPresented(cfg, sys, f);
    UnpackValid(f.aad);
  }

  /** Bytes that were not sent never get past authentication there. */
  lemma UnsentAtEmpty(cfg: ReceiverConfig, sys: System, wire: Bytes)
    requires !IsSentWire(sys, wire) && ParseRecord(wire).Success? && cfg.maxStreams >= 1
    ensures var v, h := Judge(cfg, map[], Presented(cfg, sys, wire)), ParseRecord(wire).value.header;
            v == Rejection(if h.suiteId != cfg.suiteId then SUITE_MISMATCH
                           else if !SessionMatches(cfg, h) then SESSION_MISMATCH
                           else AUTH_FAILED, Some(h))
  {
    if Judge(cfg, map[], Presented(cfg, sys, wire)).Accepted() {
      var f := AcceptedWasSealed(cfg, sys.(receiver := sys.receiver.(guard := map[])), wire);
    }
  }

  /** What the parser makes of a genuine body under another header. */
  lemma ParseUnderOtherHeader(e: SealEntry, suiteId: int, raw: Bytes)
    requires Honest(e, suiteId) && |raw| == HEADER_LEN
    ensures (raw + e.output)[..HEADER_LEN] == raw
    ensures var h := Unpack(raw);
            if h.version != PROTOCOL_VERSION || h.payloadLen != |e.plaintext| then ParseRecord(raw + e.output).Failure?
            else ParseRecord(raw + e.output) == Success(ProtectedRecord(h, e.output))
  {
    var wire := raw + e.output;
    assert wire[..HEADER_LEN] == raw && wire[HEADER_LEN..] == e.output;
  }

  /** A genuine body under another header, at a pinned receiver that has accepted
      nothing: the first check the new header fails, else AUTH_FAILED unless the
      bytes are another sent wire. */
  lemma UnderOtherHeader(cfg: ReceiverConfig, sys: System, e: SealEntry, raw: Bytes)
    requires Inv(cfg, sys) && e in sys.table && |raw| == HEADER_LEN
    requires cfg.maxStreams >= 1
    ensures var v, h := Judge(cfg, map[], Presented(cfg, sys, raw + e.output)), Unpack(raw);
            if h.version != PROTOCOL_VERSION || h.payloadLen != |e.plaintext| then v == Rejection(MALFORMED, None)
            else if h.suiteId != cfg.suiteId then v == Rejection(SUITE_MISMATCH, Some(h))
            else if !SessionMatches(cfg, h) then v == Rejection(SESSION_MISMATCH, Some(h))
            else if IsSentWire(sys, raw + e.output) then v.Accepted()
            else v == Rejection(AUTH_FAILED, Some(h))
  {
    var wire := raw + e.output;
    ParseUnderOtherHeader(e, cfg.suiteId, raw);
    if IsSentWire(sys, wire) {
      var f :| f in sys.table && WireOf(f) == wire;
      SentWireAtEmpty(cfg, sys, f);
      HonestWireParses(f, cfg.suiteId);
    } else if ParseRecord(wire).Success? {
      UnsentAtEmpty(cfg, sys, wire);
    }
  }

  /** Changing a genuine header but not its nonce fields never yields a sent wire. */
  lemma NonceKeptIsNotSent(cfg: ReceiverConfig, sys: System, e: SealEntry, raw: Bytes)
    requires Inv(cfg, sys) && e in sys.table && |raw| == HEADER_LEN && raw != e.aad
    requires raw[24..36] == e.aad[24..36]
    ensures !IsSentWire(sys, raw + e.output)
  {
    if f :| f in sys.table && WireOf(f) == raw + e.output {
      assert f.aad == (raw + e.output)[..HEADER_LEN];
      SameNonceFields(raw, e.aad);
      EntryByNonce(sys.table, e, f);
    }
  }

  lemma SameNonceFields(raw: Bytes, other: Bytes)
    requires |raw| == HEADER_LEN && |other| == HEADER_LEN && raw[24..36] == other[24..36]
    ensures Unpack(raw).noncePrefix == Unpack(other).noncePrefix && Unpack(raw).seqNo == Unpack(other).seqNo
  {
    assert raw[24..28] == raw[24..36][..4] && other[24..28] == other[24..36][..4];
    assert raw[28..36] == raw[24..36][4..] && other[28..36] == other[24..36][4..];
  }

  // ---- The actor's moves, one by one ----

  /** The verdict expected of a flipped header bit, by the byte it lies in; for the
      nonce bytes 24 to 35 the flip may hit another sent wire. */
  predicate ExpectedForByte(offset: nat, v: Verdict) {
    && !v.Accepted()
    && v.reason == Some(
         if offset == 0 then MALFORMED
         else if offset == 1 then SUITE_MISMATCH
         else if offset < 4 then AUTH_FAILED
         else if offset < 20 then SESSION_MISMATCH
         else if offset < 36 then AUTH_FAILED
         else MALFORMED)
  }

  /** One changed byte changes the field it lies in and no other. */
  lemma ChangedField(raw: Bytes, i: nat, b: byte)
    requires |raw| == HEADER_LEN && i < HEADER_LEN && raw[i] != b
    ensures var h, k := Unpack(raw), Unpack(raw[i := b]);
            && (h.version != k.version <==> i == 0)
            && (h.suiteId != k.suiteId <==> i == 1)
            && (h.sessionId != k.sessionId <==> 4 <= i < 20)
            && (h.payloadLen != k.payloadLen <==> 36 <= i)
            && (raw[24..36] == raw[i := b][24..36] <==> !(24 <= i < 36))
  {
    var changed := raw[i := b];
    SliceChanges(raw, i, b, 4, 20);
    SliceChanges(raw, i, b, 24, 36);
    SliceChanges(raw, i, b, 36, 40);
    BigEndian.EncodeDecode(raw[36..40]);
    BigEndian.EncodeDecode(changed[36..40]);
  }

  lemma SliceChanges(raw: Bytes, i: nat, b: byte, lo: nat, hi: nat)
    requires lo <= hi <= |raw| && i < |raw| && raw[i] != b
    ensures raw[i := b][lo..hi] != raw[lo..hi] <==> lo <= i < hi
  {
    if lo <= i < hi {
      assert raw[i := b][lo..hi][i - lo] != raw[lo..hi][i - lo];
    } else {
      assert raw[i := b][lo..hi] == raw[lo..hi];
    }
  }

  /** Header bit flips: for every sent wire, of any payload length, and each of its
      320 header bits, a receiver pinned to its session that has accepted nothing
      names the field the bit belongs to, or reports AUTH_FAILED; only a flip in the
      nonce fields could be accepted, exactly when it makes another sent wire. */
  lemma HeaderBitFlip(cfg: ReceiverConfig, sys: System, e: SealEntry, offset: nat, bit: nat)
    requires Inv(cfg, sys) && e in sys.table && cfg.maxStreams >= 1
    requires cfg.expected == Some(HeaderOf(e).sessionId) && offset < HEADER_LEN && bit < 8
    ensures Flipped(WireOf(e), offset, bit).Success?
    ensures var flipped := Flipped(WireOf(e), offset, bit).value;
            var v := Judge(cfg, map[], Presented(cfg, sys, flipped));
            && (v.Accepted() <==> IsSentWire(sys, flipped))
            && (v.Accepted() ==> 24 <= offset < 36)
            && (!v.Accepted() ==> ExpectedForByte(offset, v))
  {
    var wire := WireOf(e);
    FlipChangesOneBit(wire, offset, bit);
    var flipped := Flipped(wire, offset, bit).value;
    var raw := e.aad[offset := flipped[offset]];
    assert flipped == raw + e.output;
    ChangedField(e.aad, offset, flipped[offset]);
    UnderOtherHeader(cfg, sys, e, raw);
    if !(24 <= offset < 36) {
      NonceKeptIsNotSent(cfg, sys, e, raw);
    }
    NotSentIfRefused(cfg, sys, flipped);
  }

  /** A sent wire passes every check before the replay check, so bytes refused
      there were not sent. */
  lemma NotSentIfRefused(cfg: ReceiverConfig, sys: System, wire: Bytes)
    requires Inv(cfg, sys)
    ensures Presented(cfg, sys, wire).Refused? && Presented(cfg, sys, wire).reason != SESSION_MISMATCH
            ==> !IsSentWire(sys, wire)
  {
    if f :| f in sys.table && WireOf(f) == wire {
      SealedIsPresented(cfg, sys, f);
    }
  }

  /** What failing to open under header h looks like, exactly: AUTH_FAILED where the
      genuine record would still be accepted, and otherwise the refusal that the
      genuine record would meet.  So never acceptance. */
  ghost predicate FailsToOpen(cfg: ReceiverConfig, sys: System, e: SealEntry, h: RecordHeader, v: Verdict) {
    var genuine := VerdictOn(cfg, sys, WireOf(e));
    v == if genuine.Accepted() then Rejection(AUTH_FAILED, Some(h)) else genuine.(header := Some(h))
  }

  /** Only the type and flags tell the headers apart. */
  predicate SameSlot(h: RecordHeader, k: RecordHeader) {
    k.(recordType := h.recordType, flags := h.flags) == h
  }

  /** Anything of the right length under a genuine record's nonce, session and
      stream, other than the record itself, fails to open. */
  lemma SameSlotFails(cfg: ReceiverConfig, sys: System, e: SealEntry, raw: Bytes, body: Bytes)
    requires Inv(cfg, sys) && e in sys.table && |raw| == HEADER_LEN && |body| == |e.output|
    requires SameSlot(Unpack(raw), HeaderOf(e)) && (raw != e.aad || body != e.output)
    ensures FailsToOpen(cfg, sys, e, Unpack(raw), VerdictOn(cfg, sys, raw + body))
  {
    SealedIsPresented(cfg, sys, e);
    SameSlotScreened(cfg, sys, e, raw, body);
    JudgeForged(cfg, sys.receiver.guard, HeaderOf(e), Unpack(raw), e.plaintext);
  }

  /** The replay check does not look at type and flags, nor at what opening gives. */
  lemma JudgeForged(cfg: ReceiverConfig, g: GuardView, h: RecordHeader, k: RecordHeader, plaintext: Bytes)
    requires SameSlot(k, h)
    ensures var genuine := Judge(cfg, g, Candidate(h, Some(plaintext)));
            Judge(cfg, g, Candidate(k, None))
            == if genuine.Accepted() then Rejection(AUTH_FAILED, Some(k)) else genuine.(header := Some(k))
  {
    assert KeyOf(k) == KeyOf(h) && k.seqNo == h.seqNo;
  }

  lemma SameSlotScreened(cfg: ReceiverConfig, sys: System, e: SealEntry, raw: Bytes, body: Bytes)
    requires NonceUnique(sys.table) && e in sys.table && Honest(e, cfg.suiteId)
    requires |raw| == HEADER_LEN && |body| == |e.output|
    requires SameSlot(Unpack(raw), HeaderOf(e)) && (raw != e.aad || body != e.output)
    ensures Presented(cfg, sys, raw + body)
            == if SessionMatches(cfg, HeaderOf(e)) then Candidate(Unpack(raw), None)
               else Refused(SESSION_MISMATCH, Some(Unpack(raw)))
  {
    var wire := raw + body;
    assert wire[..HEADER_LEN] == raw && wire[HEADER_LEN..] == body;
    EncodingOfUnpack(raw);
    SameNonceOpensOnly(cfg, sys, e, body, raw);
  }

  /** Any other body of the right length under a genuine header fails to open, in
      every reachable state; a body of another length is malformed. */
  lemma ForeignBody(cfg: ReceiverConfig, sys: System, e: SealEntry, body: Bytes)
    requires Inv(cfg, sys) && e in sys.table
    ensures var v := VerdictOn(cfg, sys, e.aad + body);
            if |body| != |e.output| then v == Rejection(MALFORMED, None)
            else if body == e.output then v == VerdictOn(cfg, sys, WireOf(e))
            else FailsToOpen(cfg, sys, e, HeaderOf(e), v)
  {
    HonestWireParses(e, cfg.suiteId);
    if |body| != |e.output| {
      assert (e.aad + body)[..HEADER_LEN] == e.aad && WireOf(e)[..HEADER_LEN] == e.aad;
      ResizedIsMalformed(cfg, sys, WireOf(e), e.aad + body);
    } else if body != e.output {
      SameSlotFails(cfg, sys, e, e.aad, body);
    }
  }

  /** Ciphertext and tag bit flips fail to open. */
  lemma BodyBitFlip(cfg: ReceiverConfig, sys: System, e: SealEntry, index: nat, bit: nat)
    requires Inv(cfg, sys) && e in sys.table && HEADER_LEN <= index < |WireOf(e)| && bit < 8
    ensures Flipped(WireOf(e), index, bit).Success?
    ensures FailsToOpen(cfg, sys, e, HeaderOf(e), VerdictOn(cfg, sys, Flipped(WireOf(e), index, bit).value))
  {
    FlipChangesOneBit(WireOf(e), index, bit);
    var flipped := Flipped(WireOf(e), index, bit).value;
    var body := e.output[index - HEADER_LEN := flipped[index]];
    assert flipped == e.aad + body;
    assert body[index - HEADER_LEN] != e.output[index - HEADER_LEN];
    ForeignBody(cfg, sys, e, body);
  }

  /** A replaced tag fails to open unless it is the genuine one; a tag of the wrong
      length is malformed. */
  lemma TagReplacement(cfg: ReceiverConfig, sys: System, e: SealEntry, tag: Bytes)
    requires Inv(cfg, sys) && e in sys.table
    ensures var v := VerdictOn(cfg, sys, ReplaceTag(WireOf(e), tag));
            if |tag| != TAG_LEN then v == Rejection(MALFORMED, None)
            else if tag == e.output[|e.plaintext|..] then v == VerdictOn(cfg, sys, WireOf(e))
            else FailsToOpen(cfg, sys, e, HeaderOf(e), v)
  {
    var body := e.output[..|e.plaintext|] + tag;
    assert ReplaceTag(WireOf(e), tag) == e.aad + body;
    assert e.output == e.output[..|e.plaintext|] + e.output[|e.plaintext|..];
    assert body[|e.plaintext|..] == tag;
    ForeignBody(cfg, sys, e, body);
  }

  /** Splicing one sent record's header to another's body is malformed if their
      lengths differ, fails to open otherwise, and is only ever accepted when the
      result is byte for byte the first record. */
  lemma SpliceVerdict(cfg: ReceiverConfig, sys: System, e: SealEntry, f: SealEntry)
    requires Inv(cfg, sys) && e in sys.table && f in sys.table
    ensures var spliced := Splice(WireOf(e), WireOf(f));
            var v := VerdictOn(cfg, sys, spliced);
            && (|WireOf(e)| != |WireOf(f)| ==> v == Rejection(MALFORMED, None))
            && (|WireOf(e)| == |WireOf(f)| && spliced != WireOf(e) ==> FailsToOpen(cfg, sys, e, HeaderOf(e), v))
            && (v.Accepted() ==> spliced == WireOf(e))
  {
    SpliceIs(e, f);
    ForeignBody(cfg, sys, e, f.output);
  }

  lemma SpliceIs(e: SealEntry, f: SealEntry)
    requires |e.aad| == HEADER_LEN && |f.aad| == HEADER_LEN
    ensures Splice(WireOf(e), WireOf(f)) == e.aad + f.output
    ensures Splice(WireOf(e), WireOf(f)) == WireOf(e) <==> f.output == e.output
  {
    assert Splice(WireOf(e), WireOf(f)) == e.aad + f.output;
    assert (e.aad + f.output)[HEADER_LEN..] == f.output && WireOf(e)[HEADER_LEN..] == e.output;
  }

  /** Exchanging different bodies of two sent records gets neither past the receiver:
      both are malformed if the lengths differ, and otherwise each fails to open
      under the header it still has. */
  lemma SwapVerdicts(cfg: ReceiverConfig, sys: System, e: SealEntry, f: SealEntry)
    requires Inv(cfg, sys) && e in sys.table && f in sys.table && e.output != f.output
    ensures var (x, y) := SwapBodies(WireOf(e), WireOf(f));
            && !VerdictOn(cfg, sys, x).Accepted() && !VerdictOn(cfg, sys, y).Accepted()
            && if |WireOf(e)| != |WireOf(f)| then
                 && VerdictOn(cfg, sys, x) == Rejection(MALFORMED, None)
                 && VerdictOn(cfg, sys, y) == Rejection(MALFORMED, None)
               else
                 && FailsToOpen(cfg, sys, e, HeaderOf(e), VerdictOn(cfg, sys, x))
                 && FailsToOpen(cfg, sys, f, HeaderOf(f), VerdictOn(cfg, sys, y))
  {
    SpliceVerdict(cfg, sys, e, f);
    SpliceVerdict(cfg, sys, f, e);
    SpliceIs(e, f);
    SpliceIs(f, e);
  }

  /** Any change of length behind a readable wire's header is malformed, whatever
      the receiver's state and whatever has been sealed. */
  lemma ResizedIsMalformed(cfg: ReceiverConfig, sys: System, wire: Bytes, other: Bytes)
    requires ParseRecord(wire).Success?
    requires |other| < HEADER_LEN || (other[..HEADER_LEN] == wire[..HEADER_LEN] && |other| != |wire|)
    ensures VerdictOn(cfg, sys, other) == Rejection(MALFORMED, None)
  {
    if |other| >= HEADER_LEN {
      HeaderFixesLength(wire, other);
    }
  }

  /** Truncating the tag is malformed for every non-negative count, zero included;
      a negative count keeps the first -count bytes and is harmless only if that
      is all of them. */
  lemma TagTruncation(cfg: ReceiverConfig, sys: System, wire: Bytes, count: int)
    requires ParseRecord(wire).Success?
    ensures var cut := TruncateTag(wire, count);
            if -count >= |wire| then cut == wire else VerdictOn(cfg, sys, cut) == Rejection(MALFORMED, None)
  {
    var cut := TruncateTag(wire, count);
    if -count < |wire| {
      assert cut <= wire && |cut| < |wire|;
      if |cut| >= HEADER_LEN {
        assert cut[..HEADER_LEN] == wire[..HEADER_LEN];
      }
      ResizedIsMalformed(cfg, sys, wire, cut);
    }
  }

  /** What is left after dropping ciphertext bytes, or after a negative count. */
  lemma TruncatedCiphertext(wire: Bytes, count: int)
    requires |wire| >= MIN_RECORD_LEN
    ensures var cut := TruncateCiphertext(wire, count);
            && |cut| == (if count >= 0 then Max(MIN_RECORD_LEN, |wire| - count) else |wire| + Min(TAG_LEN, -count))
            && cut[..HEADER_LEN] == wire[..HEADER_LEN]
            && cut[|cut| - TAG_LEN..] == wire[|wire| - TAG_LEN..]
            && (|cut| == |wire| ==> cut == wire)
  {
    var tag := |wire| - TAG_LEN;
    TruncateCiphertextBytes(wire, count);
    assert wire == wire[..tag] + wire[tag..];
    assert wire[..HEADER_LEN] == wire[..Max(HEADER_LEN, Min(|wire|, tag - count))][..HEADER_LEN];
  }

  /** Truncating the ciphertext keeps header and tag and is malformed, unless there
      was nothing to drop; so is the lengthening by a negative count. */
  lemma CiphertextTruncation(cfg: ReceiverConfig, sys: System, wire: Bytes, count: int)
    requires ParseRecord(wire).Success?
    ensures var cut := TruncateCiphertext(wire, count);
            if count == 0 || (count > 0 && |wire| == MIN_RECORD_LEN) then cut == wire
            else
              && cut[..HEADER_LEN] == wire[..HEADER_LEN] && cut[|cut| - TAG_LEN..] == wire[|wire| - TAG_LEN..]
              && |cut| == (if count > 0 then Max(MIN_RECORD_LEN, |wire| - count) else |wire| + Min(TAG_LEN, -count))
              && VerdictOn(cfg, sys, cut) == Rejection(MALFORMED, None)
  {
    TruncatedCiphertext(wire, count);
    if |TruncateCiphertext(wire, count)| != |wire| {
      ResizedIsMalformed(cfg, sys, wire, TruncateCiphertext(wire, count));
    }
  }

  /** Rewriting header fields in any way, at a receiver that has accepted nothing:
      the result meets the first check it fails, and is accepted exactly when it is
      a sent wire. */
  lemma TamperedHeader(cfg: ReceiverConfig, sys: System, e: SealEntry, change: RecordHeader -> RecordHeader)
    requires Inv(cfg, sys) && e in sys.table && cfg.maxStreams >= 1
    requires TamperHeader(WireOf(e), change).Success?
    ensures var wire, h := TamperHeader(WireOf(e), change).value, change(HeaderOf(e));
            var v := Judge(cfg, map[], Presented(cfg, sys, wire));
            if h.version != PROTOCOL_VERSION || h.payloadLen != |e.plaintext| then v == Rejection(MALFORMED, None)
            else if h.suiteId != cfg.suiteId then v == Rejection(SUITE_MISMATCH, Some(h.Canonical()))
            else if !SessionMatches(cfg, h) then v == Rejection(SESSION_MISMATCH, Some(h.Canonical()))
            else if IsSentWire(sys, wire) then v.Accepted()
            else v == Rejection(AUTH_FAILED, Some(h.Canonical()))
  {
    var h := change(HeaderOf(e));
    assert Slice(WireOf(e), 0, HEADER_LEN) == e.aad;
    assert Slice(WireOf(e), HEADER_LEN, |WireOf(e)|) == e.output;
    UnpackOfEncoding(h);
    UnderOtherHeader(cfg, sys, e, h.Encoding());
  }

  /** Replaying a record under another number never authenticates, unless the bytes
      happen to be those of a record sent under that number. */
  lemma Renumbered(cfg: ReceiverConfig, sys: System, e: SealEntry, seqNo: int)
    requires Inv(cfg, sys) && e in sys.table && cfg.maxStreams >= 1 && SessionMatches(cfg, HeaderOf(e))
    requires 0 <= seqNo <= MAX_U64 && seqNo != HeaderOf(e).seqNo
    ensures Renumber(WireOf(e), seqNo).Success?
    ensures var wire := Renumber(WireOf(e), seqNo).value;
            var v := Judge(cfg, map[], Presented(cfg, sys, wire));
            && wire != WireOf(e)
            && if IsSentWire(sys, wire) then v.Accepted() else v.reason == Some(AUTH_FAILED)
  {
    var change := (h: RecordHeader) => h.(seqNo := seqNo);
    assert Slice(WireOf(e), 0, HEADER_LEN) == e.aad;
    EncodingOfUnpack(e.aad);
    TamperedHeader(cfg, sys, e, change);
    var wire := Renumber(WireOf(e), seqNo).value;
    UnpackOfEncoding(change(HeaderOf(e)));
    assert wire[..HEADER_LEN] == change(HeaderOf(e)).Encoding() && WireOf(e)[..HEADER_LEN] == e.aad;
  }

  /** The relabelling raises unless both fit a byte, changes nothing if they are the
      record's own, and else fails to open, in every reachable state. */
  lemma Relabelled(cfg: ReceiverConfig, sys: System, e: SealEntry, recordType: RecordType, flags: int)
    requires Inv(cfg, sys) && e in sys.table
    ensures var r, h := Relabel(WireOf(e), recordType, flags), HeaderOf(e);
            if !(0 <= recordType.Code() < 256 && 0 <= flags < 256) then r == Failure(StructError)
            else if recordType.Code() == h.recordType.Code() && flags == h.flags then r == Success(WireOf(e))
            else
              && r.Success?
              && FailsToOpen(cfg, sys, e, h.(recordType := recordType, flags := flags).Canonical(),
                             VerdictOn(cfg, sys, r.value))
  {
    var h := HeaderOf(e);
    var changed := h.(recordType := recordType, flags := flags);
    assert Slice(WireOf(e), 0, HEADER_LEN) == e.aad && Slice(WireOf(e), HEADER_LEN, |WireOf(e)|) == e.output;
    UnpackValid(e.aad);
    EncodingOfUnpack(e.aad);
    if 0 <= recordType.Code() < 256 && 0 <= flags < 256 {
      var raw := changed.Encoding();
      assert Relabel(WireOf(e), recordType, flags) == Success(raw + e.output);
      UnpackOfEncoding(changed);
      EncodingInjective(changed, h);
      if raw != e.aad {
        SameSlotFails(cfg, sys, e, raw, e.output);
      }
    }
  }

  /** The same bytes claim the same header, whatever has been sealed meanwhile. */
  lemma SameClaim(cfg: ReceiverConfig, sys: System, later: System, wire: Bytes)
    requires Presented(cfg, sys, wire).Candidate?
    ensures Presented(cfg, later, wire).Candidate?
    ensures Presented(cfg, later, wire).header == Presented(cfg, sys, wire).header
    ensures ParseRecord(wire).Success? && ParseRecord(wire).value.header == Presented(cfg, sys, wire).header
  {}

  lemma RecordedIsRefused(cfg: ReceiverConfig, sys: System, wire: Bytes)
    requires Presented(cfg, sys, wire).Candidate?
    requires var h := Presented(cfg, sys, wire).header;
             h.seqNo in RecordedOn(sys.receiver.guard, KeyOf(h))
    ensures var h := Presented(cfg, sys, wire).header;
            var a := RecordedOn(sys.receiver.guard, KeyOf(h));
            VerdictOn(cfg, sys, wire) == Rejection(
              if Highest(a) - h.seqNo < cfg.window then REPLAY_DETECTED else STALE_RECORD, Some(h))
  {
    var x := Presented(cfg, sys, wire);
    JudgeCandidate(cfg, sys.receiver.guard, x.header, x.recovered);
  }

  /** An accepted wire was screened as a candidate. */
  lemma AcceptedClaims(cfg: ReceiverConfig, cipher: Cipher, sys: System, evs: seq<Event>, i: nat)
    requires SendersValid(sys) && i < |evs| && evs[i].Deliver?
    requires AcceptedWire(evs, Run(cfg, cipher, sys, evs), i, evs[i].wire)
    ensures Presented(cfg, SystemAt(cfg, cipher, sys, evs, i), evs[i].wire).Candidate?
  {
    RunStep(cfg, cipher, sys, evs, i);
  }

  lemma AcceptedStaysRecorded(cfg: ReceiverConfig, cipher: Cipher, sys: System, evs: seq<Event>, i: nat, j: nat)
    requires SendersValid(sys) && i < j <= |evs| && evs[i].Deliver?
    requires AcceptedWire(evs, Run(cfg, cipher, sys, evs), i, evs[i].wire)
    ensures ParseRecord(evs[i].wire).Success?
    ensures var h := ParseRecord(evs[i].wire).value.header;
            h.seqNo in RecordedOn(SystemAt(cfg, cipher, sys, evs, j).receiver.guard, KeyOf(h))
  {
    AcceptedFacts(cfg, cipher, sys, evs, i);
    SystemGuardGrows(cfg, cipher, sys, evs, i + 1, j);
  }

  /** Re-sending an accepted wire, at once or after anything else was sent and
      delivered: it is named a replay while its number is inside the window of its
      stream and stale behind it. */
  lemma ReplayIsRefused(cfg: ReceiverConfig, cipher: Cipher, sys: System, evs: seq<Event>, i: nat, j: nat)
    requires SendersValid(sys) && i < j < |evs| && evs[i].Deliver? && evs[j] == evs[i]
    requires AcceptedWire(evs, Run(cfg, cipher, sys, evs), i, evs[i].wire)
    ensures ParseRecord(evs[i].wire).Success?
    ensures var h := ParseRecord(evs[i].wire).value.header;
            var a := RecordedOn(SystemAt(cfg, cipher, sys, evs, j).receiver.guard, KeyOf(h));
            && h.seqNo in a
            && Run(cfg, cipher, sys, evs)[j].output == Delivered(Rejection(
                 if Highest(a) - h.seqNo < cfg.window then REPLAY_DETECTED else STALE_RECORD, Some(h)))
  {
    AcceptedClaims(cfg, cipher, sys, evs, i);
    AcceptedStaysRecorded(cfg, cipher, sys, evs, i, j);
    RunStep(cfg, cipher, sys, evs, j);
    var here, later := SystemAt(cfg, cipher, sys, evs, i), SystemAt(cfg, cipher, sys, evs, j);
    SameClaim(cfg, here, later, evs[i].wire);
    RecordedIsRefused(cfg, later, evs[i].wire);
  }
}
