/** The serialisers and parsers as the source writes them: an output vector that grows and an offset that advances. */
module Codec {
  import opened Bytes
  import opened Envelopes

  method PushField(out: ByteString, v: ByteString) returns (r: ByteString)
    ensures r == out + Field(v)
  {
    r := PushU32(out, |v| % U32_LIMIT);
    r := r + v;
  }

  /** A length prefix and the bytes it announces; fails when either is cut short. */
  method ReadField(bytes: ByteString, off: nat) returns (r: Option<ByteString>)
    requires off <= |bytes|
    ensures r.None? ==> TakeField(bytes[off..]).None?
    ensures r.Some? ==> off + 4 + |r.value| <= |bytes|
                        && TakeField(bytes[off..]) == Some((r.value, bytes[off + 4 + |r.value|..]))
  {
    var len :- ReadU32Then(bytes, off);
    var start := off + 4;
    if start + len > |bytes| {
      return None;
    }
    r := Some(bytes[start..start + len]);
    assert bytes[off..][4..] == bytes[start..];
    assert bytes[start..][..len] == bytes[start..start + len] && bytes[start..][len..] == bytes[start + len..];
  }

  method ReadU32Then(bytes: ByteString, off: nat) returns (r: Option<u32>)
    requires off <= |bytes|
    ensures r.None? ==> TakeInt(bytes[off..], 4).None?
    ensures r.Some? ==> off + 4 <= |bytes| && TakeInt(bytes[off..], 4) == Some((r.value, bytes[off + 4..]))
  {
    r := ReadU32(bytes, off);
    if r.Some? {
      assert bytes[off..][..4] == bytes[off..off + 4] && bytes[off..][4..] == bytes[off + 4..];
    }
  }

  lemma Regroup(a: ByteString, b: ByteString, c: ByteString)
    ensures a + (b + c) == (a + b) + c
  {
  }

  lemma EncodeInOrder(e: Envelope)
    ensures Encode(e) == Field(e.sessionId) + BigEndian(e.messageIndex, 4) + BigEndian(e.previousCounter, 4)
                         + BigEndian(e.timestamp, 8) + Field(e.senderDeviceId) + Field(e.associatedData)
                         + Field(e.ciphertext)
  {
    var a, b, c, d, f, g, h := Field(e.sessionId), BigEndian(e.messageIndex, 4), BigEndian(e.previousCounter, 4),
      BigEndian(e.timestamp, 8), Field(e.senderDeviceId), Field(e.associatedData), Field(e.ciphertext);
    assert h + [] == h;
    Regroup(a, b, c + (d + (f + (g + h))));
    Regroup(a + b, c, d + (f + (g + h)));
    Regroup(a + b + c, d, f + (g + h));
    Regroup(a + b + c + d, f, g + h);
    Regroup(a + b + c + d + f, g, h);
  }

  method SerializeEnvelope(env: Envelope) returns (out: ByteString)
    ensures out == Encode(env)
  {
    out := PushField([], env.sessionId);
    assert out == Field(env.sessionId);
    out := PushU32(out, env.messageIndex);
    out := PushU32(out, env.previousCounter);
    out := PushU64(out, env.timestamp);
    out := PushField(out, env.senderDeviceId);
    out := PushField(out, env.associatedData);
    out := PushField(out, env.ciphertext);
    EncodeInOrder(env);
  }

  method DeserializeEnvelope(bytes: ByteString) returns (r: Option<Envelope>)
    ensures r == Parse(bytes)
  {
    if |bytes| < 4 {
      return None;
    }
    var off := 0;
    assert bytes[0..] == bytes;
    var sid :- ReadField(bytes, off);
    off := off + 4 + |sid|;
    ghost var b1 := bytes[off..];
    assert TakeField(bytes) == Some((sid, b1));
    var mi :- ReadU32Then(bytes, off);
    off := off + 4;
    ghost var b2 := bytes[off..];
    assert TakeInt(b1, 4) == Some((mi, b2));
    var pc :- ReadU32Then(bytes, off);
    off := off + 4;
    ghost var b3 := bytes[off..];
    assert TakeInt(b2, 4) == Some((pc, b3));
    if off + 8 > |bytes| {
      return None;
    }
    var ts := ReadU64(bytes, off);
    off := off + 8;
    ghost var b4 := bytes[off..];
    assert TakeInt(b3, 8) == Some((ts, b4)) by {
      assert b3[..8] == bytes[off - 8..off] && b3[8..] == b4;
    }
    var id :- ReadField(bytes, off);
    off := off + 4 + |id|;
    ghost var b5 := bytes[off..];
    assert TakeField(b4) == Some((id, b5));
    var ad :- ReadField(bytes, off);
    off := off + 4 + |ad|;
    ghost var b6 := bytes[off..];
    assert TakeField(b5) == Some((ad, b6));
    var ct :- ReadField(bytes, off);
    r := Some(Envelope(sid, mi, pc, ts, id, ad, ct, 1, [], []));
  }

  /** Envelope::serialize. */
  method SerializeFull(env: Envelope) returns (out: ByteString)
    ensures out == FullEncode(env)
  {
    out := PushU32([], env.version);
    assert out == BigEndian(env.version, 4);
    var carried := SerializeEnvelope(env);
    out := out + carried;
    out := PushField(out, env.signature);
    out := PushField(out, env.aad);
    FormatsAgree(env);
  }

  /** A length read that throws, then a slice that is not checked. */
  method ScanFieldAt(bytes: ByteString, off: nat) returns (r: Scan<ByteString>)
    requires off <= |bytes| && ScanField(bytes[off..]) != OutOfBounds
    ensures r.Thrown? <==> ScanField(bytes[off..]) == Thrown
    ensures !r.OutOfBounds?
    ensures r.Done? ==> off + 4 + |r.value| <= |bytes|
                        && ScanField(bytes[off..]) == Done((r.value, bytes[off + 4 + |r.value|..]))
  {
    var len := ReadU32Then(bytes, off);
    if len.None? {
      return Thrown;
    }
    var field := ReadField(bytes, off);
    r := Done(field.value);
  }

  method ScanIntAt(bytes: ByteString, off: nat) returns (r: Scan<u32>)
    requires off <= |bytes|
    ensures r.Thrown? <==> ScanInt(bytes[off..]) == Thrown
    ensures !r.OutOfBounds?
    ensures r.Done? ==> off + 4 <= |bytes| && ScanInt(bytes[off..]) == Done((r.value, bytes[off + 4..]))
  {
    var n := ReadU32Then(bytes, off);
    if n.None? {
      return Thrown;
    }
    r := Done(n.value);
  }

  method ScanHeadAt(bytes: ByteString) returns (r: Scan<(u32, ByteString, u32, u32, u64)>, off: nat)
    requires ScanHead(bytes) != OutOfBounds
    ensures r.Thrown? <==> ScanHead(bytes) == Thrown
    ensures !r.OutOfBounds? && off <= |bytes|
    ensures r.Done? ==> ScanHead(bytes) == Done((r.value.0, r.value.1, r.value.2, r.value.3, r.value.4, bytes[off..]))
  {
    off := 0;
    assert bytes[0..] == bytes;
    var version :- ScanIntAt(bytes, off);
    off := off + 4;
    ghost var b0 := bytes[off..];
    var sid :- ScanFieldAt(bytes, off);
    off := off + 4 + |sid|;
    ghost var b1 := bytes[off..];
    var mi :- ScanIntAt(bytes, off);
    off := off + 4;
    ghost var b2 := bytes[off..];
    var pc :- ScanIntAt(bytes, off);
    off := off + 4;
    ghost var b3 := bytes[off..];
    assert ScanTimestamp(b3).Done?;
    var ts := ReadU64(bytes, off);
    off := off + 8;
    ghost var b4 := bytes[off..];
    assert b3[..8] == bytes[off - 8..off] && b3[8..] == b4;
    r := Done((version, sid, mi, pc, ts));
  }

  /** Envelope::deserialize. Its callers must not hand it bytes that one of the unchecked reads would overrun. */
  method DeserializeFull(bytes: ByteString) returns (r: Scan<Envelope>)
    requires ParseFull(bytes) != OutOfBounds
    ensures r == ParseFull(bytes)
  {
    hide ScanHead, ScanField;
    var head, off := ScanHeadAt(bytes);
    if head.Thrown? {
      return Thrown;
    }
    var (version, sid, mi, pc, ts) := head.value;
    ghost var b4 := bytes[off..];
    assert ScanHead(bytes) == Done((version, sid, mi, pc, ts, b4));
    var id :- ScanFieldAt(bytes, off);
    off := off + 4 + |id|;
    ghost var b5 := bytes[off..];
    assert ScanField(b4) == Done((id, b5));
    var ad :- ScanFieldAt(bytes, off);
    off := off + 4 + |ad|;
    ghost var b6 := bytes[off..];
    assert ScanField(b5) == Done((ad, b6));
    var ct :- ScanFieldAt(bytes, off);
    off := off + 4 + |ct|;
    ghost var b7 := bytes[off..];
    assert ScanField(b6) == Done((ct, b7));
    var sig :- ScanFieldAt(bytes, off);
    off := off + 4 + |sig|;
    ghost var b8 := bytes[off..];
    assert ScanField(b7) == Done((sig, b8));
    var aad :- ScanFieldAt(bytes, off);
    r := Done(Envelope(sid, mi, pc, ts, id, ad, ct, version, sig, aad));
  }
}
