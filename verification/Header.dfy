/** The record header and wire format of srp/header.py. */
module Header {
  import opened Basics
  import Bits
  import BigEndian

  const PROTOCOL_VERSION := 0x01
  const HEADER_LEN := 40
  const TAG_LEN := 16
  const MIN_RECORD_LEN := HEADER_LEN + TAG_LEN
  const MAX_PAYLOAD_LEN := 0x100_0000
  const SESSION_ID_LEN := 16
  const NONCE_PREFIX_LEN := 4
  const MAX_U32 := 0xFFFF_FFFF
  const MAX_U64 := 0xFFFF_FFFF_FFFF_FFFF

  /** A record type is a known member, or any other integer kept as it is. */
  datatype RecordType = DATA | CONTROL | CLOSE | Raw(code: int) {
    function Code(): int {
      match this
      case DATA => 1
      case CONTROL => 2
      case CLOSE => 3
      case Raw(c) => c
    }
  }

  /** _coerce_type: name the known codes, keep the others. */
  function CoerceType(code: int): (t: RecordType)
    ensures t.Code() == code
    ensures (t == DATA <==> code == 0x01) && (t == CONTROL <==> code == 0x02) && (t == CLOSE <==> code == 0x03)
    ensures t.Raw? <==> code !in {1, 2, 3}
  {
    if code == 1 then DATA else if code == 2 then CONTROL else if code == 3 then CLOSE else Raw(code)
  }

  datatype RecordHeader = RecordHeader(
    sessionId: Bytes,
    streamId: int,
    noncePrefix: Bytes,
    seqNo: int,
    payloadLen: int,
    recordType: RecordType,
    flags: int,
    version: int,
    suiteId: int)
  {
    /** The constructor's checks, which every existing header object has passed. */
    predicate Valid() {
      && |sessionId| == SESSION_ID_LEN
      && |noncePrefix| == NONCE_PREFIX_LEN
      && 0 <= seqNo <= MAX_U64
      && 0 <= streamId <= MAX_U32
      && 0 <= payloadLen <= MAX_U32
    }

    /** Whether struct.pack accepts the four one-byte fields, which the constructor
        does not check. */
    predicate Packable() {
      && 0 <= version < 256
      && 0 <= suiteId < 256
      && 0 <= recordType.Code() < 256
      && 0 <= flags < 256
    }

    /** The 40 bytes of a packable header. */
    function Encoding(): (raw: Bytes)
      requires Valid() && Packable()
      ensures |raw| == HEADER_LEN
    {
      [version, suiteId, recordType.Code(), flags]
      + sessionId
      + BigEndian.Encode(streamId, 4)
      + noncePrefix
      + BigEndian.Encode(seqNo, 8)
      + BigEndian.Encode(payloadLen, 4)
    }

    function ToBytes(): (r: Result<Bytes, SrpError>)
      requires Valid()
    {
      if Packable() then Success(Encoding()) else Failure(StructError)
    }

    /** The header is the associated data. */
    function Aad(): Result<Bytes, SrpError>
      requires Valid()
    {
      ToBytes()
    }

    /** The header as the parser reads it back: a known type code gets its name. */
    function Canonical(): RecordHeader {
      this.(recordType := CoerceType(recordType.Code()))
    }
  }

  /** RecordHeader.__post_init__ */
  function Construct(h: RecordHeader): (r: Result<RecordHeader, SrpError>)
    ensures r == if h.Valid() then Success(h) else Failure(ConfigurationError)
  {
    if |h.sessionId| != SESSION_ID_LEN then Failure(ConfigurationError)
    else if |h.noncePrefix| != NONCE_PREFIX_LEN then Failure(ConfigurationError)
    else if !(0 <= h.seqNo <= MAX_U64) then Failure(ConfigurationError)
    else if !(0 <= h.streamId <= MAX_U32) then Failure(ConfigurationError)
    else if !(0 <= h.payloadLen <= MAX_U32) then Failure(ConfigurationError)
    else Success(h)
  }

  /** The fields of 40 bytes, before any check. */
  function Unpack(raw: Bytes): RecordHeader
    requires |raw| == HEADER_LEN
  {
    RecordHeader(
      raw[4..20],
      BigEndian.Decode(raw[20..24]),
      raw[24..28],
      BigEndian.Decode(raw[28..36]),
      BigEndian.Decode(raw[36..40]),
      CoerceType(raw[2]),
      Bits.And(raw[3], 0xFF),
      raw[0],
      raw[1])
  }

  /** Only a wrong length or version is a framing error; in particular the
      constructor never refuses what was unpacked. */
  function FromBytes(raw: Bytes): (r: Result<RecordHeader, SrpError>)
    ensures r.Success? <==> |raw| == HEADER_LEN && raw[0] == PROTOCOL_VERSION
    ensures r.Success? ==> r.value == Unpack(raw) && r.value.Valid()
    ensures r.Failure? ==> r.error == MalformedRecordError
  {
    if |raw| != HEADER_LEN then Failure(MalformedRecordError)
    else
      var h := Unpack(raw);
      if h.version != PROTOCOL_VERSION then Failure(MalformedRecordError)
      else
        UnpackValid(raw);
        Construct(h)
  }

  lemma UnpackValid(raw: Bytes)
    requires |raw| == HEADER_LEN
    ensures Unpack(raw).Valid()
  {
    BigEndian.SpaceValues();
    BigEndian.DecodeInSpace(raw[20..24]);
    BigEndian.DecodeInSpace(raw[28..36]);
    BigEndian.DecodeInSpace(raw[36..40]);
  }

  /** Masking a flag byte with 0xFF changes nothing. */
  lemma FlagsSurvive(flags: byte)
    ensures Bits.And(flags, 0xFF) == flags
  {
    assert Bits.Shl(1, 8) == 0x100 by {
      assert Bits.Shl(1, 4) == 0x10;
    }
    Bits.MaskIsIdentity(flags, 8);
  }

  // ---- Header round trips ----

  /** Print after parse is the identity on every 40 bytes, unknown type and flag
      bytes included. */
  lemma EncodingOfUnpack(raw: Bytes)
    requires |raw| == HEADER_LEN
    ensures Unpack(raw).Valid() && Unpack(raw).Packable()
    ensures Unpack(raw).Encoding() == raw
  {
    UnpackValid(raw);
    FlagsSurvive(raw[3]);
    BigEndian.EncodeDecode(raw[20..24]);
    BigEndian.EncodeDecode(raw[28..36]);
    BigEndian.EncodeDecode(raw[36..40]);
    assert raw == [raw[0], raw[1], raw[2], raw[3]] + raw[4..20] + raw[20..24] + raw[24..28] + raw[28..36] + raw[36..40];
  }

  /** Parse after print gives the header back, with its type code coerced. */
  lemma UnpackOfEncoding(h: RecordHeader)
    requires h.Valid() && h.Packable()
    ensures Unpack(h.Encoding()) == h.Canonical()
  {
    var raw := h.Encoding();
    assert raw[4..20] == h.sessionId;
    assert raw[20..24] == BigEndian.Encode(h.streamId, 4);
    assert raw[24..28] == h.noncePrefix;
    assert raw[28..36] == BigEndian.Encode(h.seqNo, 8);
    assert raw[36..40] == raw[36..] == BigEndian.Encode(h.payloadLen, 4);
    BigEndian.SpaceValues();
    BigEndian.DecodeEncode(h.streamId, 4);
    BigEndian.DecodeEncode(h.seqNo, 8);
    BigEndian.DecodeEncode(h.payloadLen, 4);
    FlagsSurvive(h.flags);
  }

  /** Canonical encoding: one byte string per header and one header per byte string. */
  lemma EncodingInjective(h: RecordHeader, k: RecordHeader)
    requires h.Valid() && h.Packable() && k.Valid() && k.Packable()
    ensures h.Encoding() == k.Encoding() <==> h.Canonical() == k.Canonical()
  {
    UnpackOfEncoding(h);
    UnpackOfEncoding(k);
    EncodingOfCanonical(h);
    EncodingOfCanonical(k);
  }

  /** Where each field lies, as the wire-format diagram has it. */
  lemma Layout(h: RecordHeader)
    requires h.Valid() && h.Packable()
    ensures var raw := h.Encoding();
            && raw[0] == h.version && raw[1] == h.suiteId && raw[2] == h.recordType.Code() && raw[3] == h.flags
            && raw[4..20] == h.sessionId
            && BigEndian.Decode(raw[20..24]) == h.streamId
            && raw[24..28] == h.noncePrefix
            && BigEndian.Decode(raw[28..36]) == h.seqNo
            && BigEndian.Decode(raw[36..40]) == h.payloadLen
  {
    var raw := h.Encoding();
    UnpackOfEncoding(h);
    assert raw[4..20] == h.sessionId;
    assert raw[24..28] == h.noncePrefix;
  }

  /** The byte that each record type travels as. */
  lemma TypeByte(h: RecordHeader)
    requires h.Valid() && h.Packable()
    ensures h.Encoding()[2] == match h.recordType {
                                 case DATA => 0x01
                                 case CONTROL => 0x02
                                 case CLOSE => 0x03
                                 case Raw(code) => code
                               }
  {
    assert h.Encoding()[2] == h.recordType.Code();
  }

  /** What each byte is read as.  Three type bytes have names, all others keep
      their number. */
  lemma Fields(raw: Bytes)
    requires |raw| == 40
    ensures var h := Unpack(raw);
            && h.version == raw[0] && h.suiteId == raw[1] && h.flags == raw[3]
            && (h.recordType == DATA <==> raw[2] == 0x01)
            && (h.recordType == CONTROL <==> raw[2] == 0x02)
            && (h.recordType == CLOSE <==> raw[2] == 0x03)
            && (h.recordType.Raw? ==> h.recordType.code == raw[2])
            && h.sessionId == raw[4..20]
            && h.streamId == BigEndian.Decode(raw[20..24])
            && h.noncePrefix == raw[24..28]
            && h.seqNo == BigEndian.Decode(raw[28..36])
            && h.payloadLen == BigEndian.Decode(raw[36..40])
  {
    FlagsSurvive(raw[3]);
  }

  lemma EncodingOfCanonical(h: RecordHeader)
    requires h.Valid() && h.Packable()
    ensures h.Canonical().Valid() && h.Canonical().Packable() && h.Canonical().Encoding() == h.Encoding()
  {}

  // ---- Records ----

  datatype ProtectedRecord = ProtectedRecord(header: RecordHeader, ciphertextAndTag: Bytes) {
    function ToBytes(): Result<Bytes, SrpError>
      requires header.Valid()
    {
      var raw :- header.ToBytes();
      Success(raw + ciphertextAndTag)
    }

    function Len(): nat {
      HEADER_LEN + |ciphertextAndTag|
    }
  }

  function ParseRecord(wire: Bytes): (r: Result<ProtectedRecord, SrpError>)
    ensures r.Success? ==> r.value.header.Valid()
    ensures r.Failure? ==> r.error == MalformedRecordError
  {
    if |wire| < MIN_RECORD_LEN then Failure(MalformedRecordError)
    else
      var header :- FromBytes(wire[..HEADER_LEN]);
      if header.payloadLen > MAX_PAYLOAD_LEN then Failure(MalformedRecordError)
      else
        var body := wire[HEADER_LEN..];
        if |body| != header.payloadLen + TAG_LEN then Failure(MalformedRecordError)
        else Success(ProtectedRecord(header, body))
  }

  /** Which byte strings are records, and what they say: at least 56 bytes, of
      version 1, whose length field is within 2^24 and counts all but 56 of them. */
  lemma ParseExactly(wire: Bytes)
    ensures ParseRecord(wire) ==
              if |wire| < 56 || wire[0] != 1 then Failure(MalformedRecordError)
              else if BigEndian.Decode(wire[36..40]) > 0x100_0000 then Failure(MalformedRecordError)
              else if |wire| != 56 + BigEndian.Decode(wire[36..40]) then Failure(MalformedRecordError)
              else Success(ProtectedRecord(Unpack(wire[..40]), wire[40..]))
  {
    if |wire| >= 56 {
      assert wire[..40][36..40] == wire[36..40];
    }
  }

  /** What makes a record readable: version 1, and a payload_len within policy
      that describes the body. */
  ghost predicate WellFramed(r: ProtectedRecord) {
    && r.header.Valid() && r.header.Packable()
    && r.header.version == PROTOCOL_VERSION
    && r.header.payloadLen <= MAX_PAYLOAD_LEN
    && |r.ciphertextAndTag| == r.header.payloadLen + TAG_LEN
  }

  /** Print after parse is the identity on every wire the parser accepts, and the
      associated data recomputed from the parsed header is the wire's own header. */
  lemma PrintOfParse(wire: Bytes)
    requires ParseRecord(wire).Success?
    ensures var r := ParseRecord(wire).value;
            WellFramed(r)
            && r.header.Canonical() == r.header
            && r.ToBytes() == Success(wire)
            && r.header.Encoding() == wire[..HEADER_LEN]
            && r.ciphertextAndTag == wire[HEADER_LEN..]
  {
    EncodingOfUnpack(wire[..HEADER_LEN]);
    assert wire == wire[..HEADER_LEN] + wire[HEADER_LEN..];
  }

  /** Parse after print gives every well-framed record back, up to naming its type. */
  lemma ParseOfPrint(r: ProtectedRecord)
    requires WellFramed(r)
    ensures r.ToBytes().Success?
    ensures ParseRecord(r.ToBytes().value) == Success(r.(header := r.header.Canonical()))
  {
    var raw := r.header.Encoding();
    var wire := raw + r.ciphertextAndTag;
    UnpackOfEncoding(r.header);
    assert wire[..HEADER_LEN] == raw && wire[HEADER_LEN..] == r.ciphertextAndTag;
  }

  /** The first 40 bytes of a readable wire fix its total length: no other length
      can follow the same header. */
  lemma HeaderFixesLength(wire: Bytes, other: Bytes)
    requires ParseRecord(wire).Success?
    requires |other| >= HEADER_LEN && other[..HEADER_LEN] == wire[..HEADER_LEN]
    ensures ParseRecord(other).Success? <==> |other| == |wire|
  {}

  /** No readable wire is a proper prefix of another, so neither truncating nor
      extending one ever yields a readable wire. */
  lemma PrefixFree(wire: Bytes, other: Bytes)
    requires ParseRecord(wire).Success? && ParseRecord(other).Success?
    requires wire <= other
    ensures wire == other
  {
    assert other[..HEADER_LEN] == wire[..HEADER_LEN];
    HeaderFixesLength(wire, other);
  }
}
