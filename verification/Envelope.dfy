/** The envelope record and its two byte formats. */
module Envelopes {
  import opened Bytes

  datatype Envelope = Envelope(
    sessionId: ByteString,
    messageIndex: u32,
    previousCounter: u32,
    timestamp: u64,
    senderDeviceId: ByteString,
    associatedData: ByteString,
    ciphertext: ByteString,
    version: u32,
    signature: ByteString,
    aad: ByteString
  ) {
    /** The length casts to 32 bits lose nothing. */
    predicate WellSized() {
      && |sessionId| < U32_LIMIT
      && |senderDeviceId| < U32_LIMIT
      && |associatedData| < U32_LIMIT
      && |ciphertext| < U32_LIMIT
    }

    /** The three fields the dispatcher's format does not carry have their defaults. */
    predicate Bare() {
      version == 1 && signature == [] && aad == []
    }
  }

  /** A length prefix, cast to 32 bits, and then every byte. */
  function Field(v: ByteString): ByteString {
    BigEndian(|v| % U32_LIMIT, 4) + v
  }

  /** Four bytes that read as the length, modulo 2^32, and then every byte. */
  lemma FieldLayout(v: ByteString)
    ensures |Field(v)| == 4 + |v| && FromBigEndian(Field(v)[..4]) == |v| % 0x1_0000_0000 && Field(v)[4..] == v
  {
    assert Pow256(4) == U32_LIMIT;
    BigEndianReads(|v| % U32_LIMIT, 4);
    assert Field(v)[..4] == BigEndian(|v| % U32_LIMIT, 4);
  }

  /** The dispatcher's format of the seven carried fields, followed by `rest`. */
  function EncodeThen(e: Envelope, rest: ByteString): ByteString {
    Field(e.sessionId)
    + (BigEndian(e.messageIndex, 4)
       + (BigEndian(e.previousCounter, 4)
          + (BigEndian(e.timestamp, 8)
             + (Field(e.senderDeviceId)
                + (Field(e.associatedData)
                   + (Field(e.ciphertext) + rest))))))
  }

  function Encode(e: Envelope): ByteString {
    EncodeThen(e, [])
  }

  lemma EncodeThenSplits(e: Envelope, rest: ByteString)
    ensures EncodeThen(e, rest) == Encode(e) + rest
  {
    var ct, ad, id := Field(e.ciphertext), Field(e.associatedData), Field(e.senderDeviceId);
    assert ct + rest == (ct + []) + rest;
    assert ad + (ct + rest) == (ad + (ct + [])) + rest;
    var tail, tail0 := id + (ad + (ct + rest)), id + (ad + (ct + []));
    assert tail == tail0 + rest;
    var ts, pc, mi := BigEndian(e.timestamp, 8), BigEndian(e.previousCounter, 4), BigEndian(e.messageIndex, 4);
    assert ts + tail == (ts + tail0) + rest;
    assert pc + (ts + tail) == (pc + (ts + tail0)) + rest;
    assert mi + (pc + (ts + tail)) == (mi + (pc + (ts + tail0))) + rest;
  }

  function TakeInt(b: ByteString, n: nat): (r: Option<(nat, ByteString)>)
    ensures r.Some? ==> r.value.0 < Pow256(n)
  {
    if |b| < n then None else Some((FromBigEndian(b[..n]), b[n..]))
  }

  function TakeField(b: ByteString): Option<(ByteString, ByteString)> {
    var (len, rest) :- TakeInt(b, 4);
    if len > |rest| then None else Some((rest[..len], rest[len..]))
  }

  lemma TakeIntIff(b: ByteString, n: nat, v: nat, rest: ByteString)
    ensures TakeInt(b, n) == Some((v, rest)) <==> v < Pow256(n) && b == BigEndian(v, n) + rest
  {
    if TakeInt(b, n) == Some((v, rest)) {
      BigEndianWrites(b[..n]);
      assert b == b[..n] + b[n..];
    }
    if v < Pow256(n) && b == BigEndian(v, n) + rest {
      BigEndianReads(v, n);
      assert b[..n] == BigEndian(v, n) && b[n..] == rest;
    }
  }

  lemma TakesField(v: ByteString, rest: ByteString)
    requires |v| < U32_LIMIT
    ensures TakeField(Field(v) + rest) == Some((v, rest))
  {
    hide TakeInt, BigEndian;
    assert Pow256(4) == U32_LIMIT;
    var b := Field(v) + rest;
    assert b == BigEndian(|v|, 4) + (v + rest);
    TakeIntIff(b, 4, |v|, v + rest);
    assert (v + rest)[..|v|] == v && (v + rest)[|v|..] == rest;
  }

  lemma TakenField(b: ByteString)
    requires TakeField(b).Some?
    ensures |TakeField(b).value.0| < U32_LIMIT
    ensures b == Field(TakeField(b).value.0) + TakeField(b).value.1
  {
    hide TakeInt, BigEndian;
    assert Pow256(4) == U32_LIMIT;
    var (len, body) := TakeInt(b, 4).value;
    var (v, rest) := TakeField(b).value;
    TakeIntIff(b, 4, len, body);
    assert body == v + rest;
    assert b == (BigEndian(len, 4) + v) + rest;
  }

  lemma TakesInt(v: nat, n: nat, rest: ByteString)
    requires v < Pow256(n)
    ensures TakeInt(BigEndian(v, n) + rest, n) == Some((v, rest))
  {
    TakeIntIff(BigEndian(v, n) + rest, n, v, rest);
  }

  lemma TakenInt(b: ByteString, n: nat)
    requires TakeInt(b, n).Some?
    ensures b == BigEndian(TakeInt(b, n).value.0, n) + TakeInt(b, n).value.1
  {
    TakeIntIff(b, n, TakeInt(b, n).value.0, TakeInt(b, n).value.1);
  }

  /** The dispatcher's parser; bytes after the last field are ignored. */
  function Parse(b: ByteString): Option<Envelope> {
    assert Pow256(4) == U32_LIMIT && Pow256(8) == U64_LIMIT;
    var (sid, b1) :- TakeField(b);
    var (mi, b2) :- TakeInt(b1, 4);
    var (pc, b3) :- TakeInt(b2, 4);
    var (ts, b4) :- TakeInt(b3, 8);
    var (id, b5) :- TakeField(b4);
    var (ad, b6) :- TakeField(b5);
    var (ct, b7) :- TakeField(b6);
    Some(Envelope(sid, mi, pc, ts, id, ad, ct, 1, [], []))
  }

  lemma ParsesEncoding(e: Envelope, rest: ByteString)
    requires e.WellSized() && e.Bare()
    ensures Parse(EncodeThen(e, rest)) == Some(e)
  {
    assert Pow256(4) == U32_LIMIT && Pow256(8) == U64_LIMIT;
    var b6 := Field(e.ciphertext) + rest;
    var b5 := Field(e.associatedData) + b6;
    var b4 := Field(e.senderDeviceId) + b5;
    var b3 := BigEndian(e.timestamp, 8) + b4;
    var b2 := BigEndian(e.previousCounter, 4) + b3;
    var b1 := BigEndian(e.messageIndex, 4) + b2;
    TakesField(e.sessionId, b1);
    TakesInt(e.messageIndex, 4, b2);
    TakesInt(e.previousCounter, 4, b3);
    TakesInt(e.timestamp, 8, b4);
    TakesField(e.senderDeviceId, b5);
    TakesField(e.associatedData, b6);
    TakesField(e.ciphertext, rest);
  }

  lemma ParsedIsEncoding(b: ByteString) returns (rest: ByteString)
    requires Parse(b).Some?
    ensures Parse(b).value.WellSized() && Parse(b).value.Bare()
    ensures b == EncodeThen(Parse(b).value, rest)
  {
    var e := Parse(b).value;
    var b1 := TakeField(b).value.1;
    var b2 := TakeInt(b1, 4).value.1;
    var b3 := TakeInt(b2, 4).value.1;
    var b4 := TakeInt(b3, 8).value.1;
    var b5 := TakeField(b4).value.1;
    var b6 := TakeField(b5).value.1;
    rest := TakeField(b6).value.1;
    TakenField(b);
    TakenInt(b1, 4);
    TakenInt(b2, 4);
    TakenInt(b3, 8);
    TakenField(b4);
    TakenField(b5);
    TakenField(b6);
  }

  lemma PrefixIffEncodeThen(e: Envelope, b: ByteString, rest: ByteString)
    ensures b == EncodeThen(e, rest) <==> Encode(e) <= b && rest == b[|Encode(e)|..]
  {
    EncodeThenSplits(e, rest);
    if Encode(e) <= b && rest == b[|Encode(e)|..] {
      assert b == Encode(e) + rest;
    }
  }

  /** The parser accepts exactly the byte strings that start with an encoding, and returns what was encoded. */
  lemma ParseIffEncodingIsPrefix(b: ByteString, e: Envelope)
    ensures Parse(b) == Some(e) <==> e.WellSized() && e.Bare() && Encode(e) <= b
  {
    if Parse(b).Some? {
      var rest := ParsedIsEncoding(b);
      PrefixIffEncodeThen(Parse(b).value, b, rest);
    }
    if e.WellSized() && e.Bare() && Encode(e) <= b {
      var rest := b[|Encode(e)|..];
      PrefixIffEncodeThen(e, b, rest);
      ParsesEncoding(e, rest);
    }
  }

  /** The round trip holds exactly when no length cast truncates. */
  lemma RoundTripIff(e: Envelope)
    requires e.Bare()
    ensures Parse(Encode(e)) == Some(e) <==> e.WellSized()
  {
    ParseIffEncodingIsPrefix(Encode(e), e);
  }

  /** Prefix-free: cutting an encoding short never leaves something the parser accepts. */
  lemma StrictPrefixRejected(e: Envelope, b: ByteString)
    requires e.WellSized() && e.Bare()
    requires b < Encode(e)
    ensures Parse(b) == None
  {
    if Parse(b).Some? {
      var f := Parse(b).value;
      ParseIffEncodingIsPrefix(b, f);
      ParseIffEncodingIsPrefix(Encode(e), f);
      ParseIffEncodingIsPrefix(Encode(e), e);
    }
  }

  /** Envelope::serialize: the version, the dispatcher's format, then the signature and the second AAD field. */
  function FullEncode(e: Envelope): ByteString {
    FullEncodeThen(e, [])
  }

  /** The two byte formats agree on the fields they share. */
  lemma FormatsAgree(e: Envelope)
    ensures FullEncode(e) == BigEndian(e.version, 4) + Encode(e) + Field(e.signature) + Field(e.aad)
  {
    EncodeThenSplits(e, Field(e.signature) + (Field(e.aad) + []));
    assert Field(e.aad) + [] == Field(e.aad);
  }

  /** How a read of Envelope::deserialize ends: the length reads throw, the slices and the timestamp are not checked. */
  datatype Scan<+T> = Done(value: T) | Thrown | OutOfBounds {
    predicate IsFailure() {
      !Done?
    }

    function PropagateFailure<U>(): Scan<U>
      requires !Done?
    {
      if Thrown? then Thrown else OutOfBounds
    }

    function Extract(): T
      requires Done?
    {
      value
    }
  }

  function ScanInt(b: ByteString): (r: Scan<(nat, ByteString)>)
    ensures r.Done? ==> r.value.0 < U32_LIMIT
  {
    assert Pow256(4) == U32_LIMIT;
    if |b| < 4 then Thrown else Done(TakeInt(b, 4).value)
  }

  function ScanTimestamp(b: ByteString): (r: Scan<(nat, ByteString)>)
    ensures r.Done? ==> r.value.0 < U64_LIMIT
  {
    assert Pow256(8) == U64_LIMIT;
    if |b| < 8 then OutOfBounds else Done(TakeInt(b, 8).value)
  }

  function ScanField(b: ByteString): Scan<(ByteString, ByteString)> {
    if |b| < 4 then Thrown
    else if TakeField(b).None? then OutOfBounds
    else Done(TakeField(b).value)
  }

  /** Version, session id, the two counters and the timestamp. */
  function ScanHead(b: ByteString): Scan<(u32, ByteString, u32, u32, u64, ByteString)> {
    var (version, b0) :- ScanInt(b);
    var (sid, b1) :- ScanField(b0);
    var (mi, b2) :- ScanInt(b1);
    var (pc, b3) :- ScanInt(b2);
    var (ts, b4) :- ScanTimestamp(b3);
    Done((version, sid, mi, pc, ts, b4))
  }

  function ParseFull(b: ByteString): Scan<Envelope> {
    var (version, sid, mi, pc, ts, b4) :- ScanHead(b);
    var (id, b5) :- ScanField(b4);
    var (ad, b6) :- ScanField(b5);
    var (ct, b7) :- ScanField(b6);
    var (sig, b8) :- ScanField(b7);
    var (aad, b9) :- ScanField(b8);
    Done(Envelope(sid, mi, pc, ts, id, ad, ct, version, sig, aad))
  }

  ghost predicate FullySized(e: Envelope) {
    e.WellSized() && |e.signature| < U32_LIMIT && |e.aad| < U32_LIMIT
  }

  function FullEncodeThen(e: Envelope, rest: ByteString): ByteString {
    BigEndian(e.version, 4) + EncodeThen(e, Field(e.signature) + (Field(e.aad) + rest))
  }

  lemma FullEncodeThenSplits(e: Envelope, rest: ByteString)
    ensures FullEncodeThen(e, rest) == FullEncode(e) + rest
  {
    var tail, tail0 := Field(e.signature) + (Field(e.aad) + rest), Field(e.signature) + (Field(e.aad) + []);
    EncodeThenSplits(e, tail);
    EncodeThenSplits(e, tail0);
    assert Field(e.aad) + rest == (Field(e.aad) + []) + rest;
    assert tail == tail0 + rest;
    assert Encode(e) + tail == (Encode(e) + tail0) + rest;
  }

  function HeadThen(e: Envelope, rest: ByteString): ByteString {
    BigEndian(e.version, 4)
    + (Field(e.sessionId)
       + (BigEndian(e.messageIndex, 4)
          + (BigEndian(e.previousCounter, 4)
             + (BigEndian(e.timestamp, 8) + rest))))
  }

  lemma ScansHead(e: Envelope, rest: ByteString)
    requires |e.sessionId| < U32_LIMIT
    ensures ScanHead(HeadThen(e, rest))
            == Done((e.version, e.sessionId, e.messageIndex, e.previousCounter, e.timestamp, rest))
  {
    assert Pow256(4) == U32_LIMIT && Pow256(8) == U64_LIMIT;
    var b3 := BigEndian(e.timestamp, 8) + rest;
    var b2 := BigEndian(e.previousCounter, 4) + b3;
    var b1 := BigEndian(e.messageIndex, 4) + b2;
    TakesInt(e.version, 4, Field(e.sessionId) + b1);
    TakesField(e.sessionId, b1);
    TakesInt(e.messageIndex, 4, b2);
    TakesInt(e.previousCounter, 4, b3);
    TakesInt(e.timestamp, 8, rest);
  }

  lemma ScannedHead(b: ByteString)
    requires ScanHead(b).Done?
    ensures var (version, sid, mi, pc, ts, rest) := ScanHead(b).value;
            |sid| < U32_LIMIT && b == HeadThen(Envelope(sid, mi, pc, ts, [], [], [], version, [], []), rest)
  {
    var b0 := TakeInt(b, 4).value.1;
    var b1 := TakeField(b0).value.1;
    var b2 := TakeInt(b1, 4).value.1;
    var b3 := TakeInt(b2, 4).value.1;
    TakenInt(b, 4);
    TakenField(b0);
    TakenInt(b1, 4);
    TakenInt(b2, 4);
    TakenInt(b3, 8);
  }

  lemma ParsesFullEncoding(e: Envelope, rest: ByteString)
    requires FullySized(e)
    ensures ParseFull(FullEncodeThen(e, rest)) == Done(e)
  {
    var b8 := Field(e.aad) + rest;
    var b7 := Field(e.signature) + b8;
    var b6 := Field(e.ciphertext) + b7;
    var b5 := Field(e.associatedData) + b6;
    ScansHead(e, Field(e.senderDeviceId) + b5);
    TakesField(e.senderDeviceId, b5);
    TakesField(e.associatedData, b6);
    TakesField(e.ciphertext, b7);
    TakesField(e.signature, b8);
    TakesField(e.aad, rest);
  }

  lemma ParsedIsFullEncoding(b: ByteString) returns (rest: ByteString)
    requires ParseFull(b).Done?
    ensures FullySized(ParseFull(b).value)
    ensures b == FullEncodeThen(ParseFull(b).value, rest)
  {
    var b4 := ScanHead(b).value.5;
    var b5 := TakeField(b4).value.1;
    var b6 := TakeField(b5).value.1;
    var b7 := TakeField(b6).value.1;
    var b8 := TakeField(b7).value.1;
    rest := TakeField(b8).value.1;
    ScannedHead(b);
    TakenField(b4);
    TakenField(b5);
    TakenField(b6);
    TakenField(b7);
    TakenField(b8);
  }

  /** The ten-field parser succeeds exactly on byte strings that start with a ten-field encoding. */
  lemma ParseFullIffEncodingIsPrefix(b: ByteString, e: Envelope)
    ensures ParseFull(b) == Done(e) <==> FullySized(e) && FullEncode(e) <= b
  {
    if ParseFull(b).Done? {
      var rest := ParsedIsFullEncoding(b);
      FullEncodeThenSplits(ParseFull(b).value, rest);
      assert b == FullEncode(ParseFull(b).value) + rest;
    }
    if FullySized(e) && FullEncode(e) <= b {
      var rest := b[|FullEncode(e)|..];
      FullEncodeThenSplits(e, rest);
      assert b == FullEncode(e) + rest;
      ParsesFullEncoding(e, rest);
    }
  }

  /** All ten fields survive the round trip exactly when no length cast truncates. */
  lemma FullRoundTripIff(e: Envelope)
    ensures ParseFull(FullEncode(e)) == Done(e) <==> FullySized(e)
  {
    ParseFullIffEncodingIsPrefix(FullEncode(e), e);
  }
}
