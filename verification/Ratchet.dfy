/** One ratchet session: its state, what each operation does to that state, and the class that does it in place. */
module RatchetSession {
  import opened Bytes
  import opened Crypto
  import opened Envelopes
  import Hkdf

  const HEADER_BYTES := 4 + KEY_BYTES
  const MSG_LABEL: ByteString := [109, 115, 103]
  const CHAIN_LABEL: ByteString := [99, 107]
  const SEND_INFO: ByteString := [83, 101, 110, 100, 67, 104, 97, 105, 110]
  const RECV_INFO: ByteString := [82, 101, 99, 118, 67, 104, 97, 105, 110]

  datatype RatchetState = RatchetState(
    rootKey: ByteString,
    sendChain: ByteString,
    recvChain: ByteString,
    sendNumber: u32,
    recvNumber: u32,
    lastRemote: ByteString,
    sessionId: ByteString,
    dhPrivate: ByteString,
    dhPublic: ByteString,
    skipped: map<nat, ByteString>
  ) {
    /** The sizes every operation but initialize relies on; initialize establishes them. */
    predicate Keyed() {
      && |rootKey| == KEY_BYTES && |sendChain| == KEY_BYTES && |recvChain| == KEY_BYTES
      && |dhPrivate| == KEY_BYTES && |dhPublic| == KEY_BYTES
    }
  }

  function MessageKey(p: Primitives, chain: ByteString): ByteString {
    p.hmac(chain, MSG_LABEL)
  }

  function NextChain(p: Primitives, chain: ByteString): ByteString {
    p.hmac(chain, CHAIN_LABEL)
  }

  function Header(number: u32, publicKey: ByteString): ByteString {
    BigEndian(number, 4) + publicKey
  }

  /** A constructed ratchet, with the random private key it draws. */
  function Fresh(p: Primitives, priv: ByteString): RatchetState {
    RatchetState([], [], [], 0, 0, [], [], priv, p.publicKey(priv), map[])
  }

  function Initialize(s: RatchetState, root: ByteString, sessionId: ByteString): RatchetState {
    s.(rootKey := root, sendChain := root, recvChain := root, sendNumber := 0, recvNumber := 0,
       sessionId := sessionId, lastRemote := [])
  }

  /** New root, send and receive chains from a shared secret; the same two labels on both sides. */
  function RootChain(p: Primitives, s: RatchetState, secret: ByteString): RatchetState
    requires p.HmacSized()
  {
    var prk := Hkdf.Extract(p, s.rootKey, secret);
    s.(rootKey := prk,
       sendChain := Hkdf.Expand(p, prk, SEND_INFO, KEY_BYTES),
       recvChain := Hkdf.Expand(p, prk, RECV_INFO, KEY_BYTES))
  }

  /** None when the shared secret cannot be computed, which the source reports by throwing. */
  function RatchetStep(p: Primitives, s: RatchetState, remote: ByteString): Option<RatchetState>
    requires p.HmacSized()
  {
    if |remote| != KEY_BYTES then None else
    var secret :- p.dh(s.dhPrivate, remote);
    Some(RootChain(p, s, secret).(sendNumber := 0, recvNumber := 0, lastRemote := remote))
  }

  function Encrypt(p: Primitives, s: RatchetState, randomId: ByteString, nonce: ByteString, now: u64, text: ByteString)
    : (RatchetState, Envelope)
  {
    var id := if s.sessionId == [] then randomId else s.sessionId;
    var header := Header(s.sendNumber, s.dhPublic);
    var ct := p.seal(MessageKey(p, s.sendChain), nonce, header, text);
    (s.(sessionId := id, sendChain := NextChain(p, s.sendChain), sendNumber := (s.sendNumber + 1) % U32_LIMIT),
     Envelope(id, s.sendNumber, s.recvNumber, now, [], header, ct, 1, [], []))
  }

  /** The peer key check of decrypt_envelope; None when its Diffie-Hellman computation throws. */
  function MeetPeer(p: Primitives, s: RatchetState, remote: ByteString): Option<RatchetState>
    requires p.HmacSized()
  {
    if s.lastRemote != [] && remote != s.lastRemote then
      var secret :- p.dh(s.dhPrivate, remote);
      Some(RootChain(p, s, secret).(recvNumber := 0, lastRemote := remote))
    else
      Some(s.(lastRemote := remote))
  }

  /** One round of the skip loop; std::map::emplace keeps an entry that is already there. */
  function SkipOne(p: Primitives, s: RatchetState): RatchetState
    requires s.recvNumber + 1 < U32_LIMIT
  {
    var kept := if s.recvNumber in s.skipped then s.skipped
                else s.skipped[s.recvNumber := MessageKey(p, s.recvChain)];
    s.(skipped := kept, recvChain := NextChain(p, s.recvChain), recvNumber := s.recvNumber + 1)
  }

  function CatchUp(p: Primitives, s: RatchetState, number: u32): RatchetState
    decreases number - s.recvNumber
  {
    if s.recvNumber < number then CatchUp(p, SkipOne(p, s), number) else s
  }

  /** With the chain caught up: a stored key if there is one, otherwise the current chain key. */
  function OpenAt(p: Primitives, s: RatchetState, number: u32, env: Envelope): (RatchetState, Option<ByteString>) {
    var header := env.associatedData;
    if number in s.skipped then
      var text := p.unseal(s.skipped[number], header, env.ciphertext);
      (if text.Some? then s.(skipped := s.skipped - {number}) else s, text)
    else
      var text := p.unseal(MessageKey(p, s.recvChain), header, env.ciphertext);
      var next := s.(recvChain := NextChain(p, s.recvChain), recvNumber := (number + 1) % U32_LIMIT);
      (if text.Some? then next else s, text)
  }

  function ClaimedNumber(header: ByteString): (n: u32)
    requires |header| >= 4
  {
    assert Pow256(4) == U32_LIMIT;
    FromBigEndian(header[..4])
  }

  function Decrypt(p: Primitives, s: RatchetState, env: Envelope): (RatchetState, Option<ByteString>)
    requires p.HmacSized()
  {
    if s.sessionId != [] && env.sessionId != s.sessionId then (s, None) else
    var s1 := s.(sessionId := env.sessionId);
    var header := env.associatedData;
    if |header| < HEADER_BYTES then (s1, None) else
    match MeetPeer(p, s1, header[4..HEADER_BYTES])
    case None => (s1, None)
    case Some(s2) => OpenAt(p, CatchUp(p, s2, ClaimedNumber(header)), ClaimedNumber(header), env)
  }

  /** The header and the ciphertext as one byte string, which is all that `encrypt` returns. */
  function Pack(e: Envelope): ByteString {
    e.associatedData + e.ciphertext
  }

  /** The envelope that `decrypt` makes up around such a string: under the receiver's own session id. */
  function Unpack(sessionId: ByteString, b: ByteString): Envelope {
    var cut := if |b| < HEADER_BYTES then 0 else HEADER_BYTES;
    Envelope(sessionId, 0, 0, 0, [], b[..cut], b[cut..], 1, [], [])
  }

  function DecryptRaw(p: Primitives, s: RatchetState, b: ByteString): (RatchetState, Option<ByteString>)
    requires p.HmacSized()
  {
    if |b| < HEADER_BYTES then (s, None) else Decrypt(p, s, Unpack(s.sessionId, b))
  }

  lemma {:induction false} CatchUpKeyed(p: Primitives, s: RatchetState, number: u32)
    requires p.HmacSized() && s.Keyed()
    ensures var s' := CatchUp(p, s, number); s'.Keyed() && s'.sessionId == s.sessionId
    decreases number - s.recvNumber
  {
    if s.recvNumber < number {
      CatchUpKeyed(p, SkipOne(p, s), number);
    }
  }

  /** Key sizes and a chosen session id survive every message, whatever it contains. */
  lemma DecryptKeyed(p: Primitives, s: RatchetState, env: Envelope)
    requires p.HmacSized() && s.Keyed() && s.sessionId != []
    ensures var s' := Decrypt(p, s, env).0; s'.Keyed() && s'.sessionId == s.sessionId
  {
    if env.sessionId == s.sessionId && |env.associatedData| >= HEADER_BYTES {
      var met := MeetPeer(p, s.(sessionId := env.sessionId), env.associatedData[4..HEADER_BYTES]);
      if met.Some? {
        CatchUpKeyed(p, met.value, ClaimedNumber(env.associatedData));
      }
    }
  }

  const STATE_BYTES := 3 * KEY_BYTES + 8 + 2 * KEY_BYTES

  function Export(s: RatchetState): ByteString {
    s.rootKey + s.sendChain + s.recvChain + BigEndian(s.sendNumber, 4) + BigEndian(s.recvNumber, 4)
    + s.dhPrivate + s.dhPublic
  }

  /** None when the bytes are too few, which the source reports by throwing; bytes beyond the state are ignored. */
  function Import(s: RatchetState, b: ByteString): Option<RatchetState> {
    assert Pow256(4) == U32_LIMIT;
    if |b| < STATE_BYTES then None else
    Some(s.(rootKey := b[..32], sendChain := b[32..64], recvChain := b[64..96],
            sendNumber := FromBigEndian(b[96..100]), recvNumber := FromBigEndian(b[100..104]),
            dhPrivate := b[104..136], dhPublic := b[136..168], lastRemote := []))
  }

  class Ratchet {
    const p: Primitives
    var rootKey: ByteString
    var sendChain: ByteString
    var recvChain: ByteString
    var sendNumber: u32
    var recvNumber: u32
    var lastRemote: ByteString
    var sessionId: ByteString
    var dhPrivate: ByteString
    var dhPublic: ByteString
    var skipped: map<nat, ByteString>

    function State(): RatchetState
      reads this
    {
      RatchetState(
        rootKey, sendChain, recvChain, sendNumber, recvNumber, lastRemote, sessionId, dhPrivate, dhPublic, skipped)
    }

    /** `priv` stands for the private key drawn at random. */
    constructor (p: Primitives, priv: ByteString)
      ensures this.p == p && State() == Fresh(p, priv)
    {
      this.p := p;
      rootKey, sendChain, recvChain := [], [], [];
      sendNumber, recvNumber := 0, 0;
      lastRemote, sessionId := [], [];
      dhPrivate, dhPublic := priv, p.publicKey(priv);
      skipped := map[];
    }

    /** The ratchet embedded in a session entry. */
    constructor At(p: Primitives, s: RatchetState)
      ensures this.p == p && State() == s
    {
      this.p := p;
      rootKey, sendChain, recvChain := s.rootKey, s.sendChain, s.recvChain;
      sendNumber, recvNumber := s.sendNumber, s.recvNumber;
      lastRemote, sessionId := s.lastRemote, s.sessionId;
      dhPrivate, dhPublic := s.dhPrivate, s.dhPublic;
      skipped := s.skipped;
    }

    /** Throws, and changes nothing, unless the root key has 32 bytes. */
    method InitializeWith(root: ByteString, id: ByteString) returns (ok: bool)
      modifies this
      ensures ok == (|root| == KEY_BYTES)
      ensures State() == if ok then Initialize(old(State()), root, id) else old(State())
    {
      if |root| != KEY_BYTES {
        return false;
      }
      rootKey := root;
      sendChain := rootKey;
      recvChain := rootKey;
      sendNumber := 0;
      recvNumber := 0;
      sessionId := id;
      lastRemote := [];
      return true;
    }

    method DeriveChains(secret: ByteString)
      requires p.HmacSized()
      modifies this`rootKey, this`sendChain, this`recvChain
      ensures State() == RootChain(p, old(State()), secret)
    {
      var prk := Hkdf.Extract(p, rootKey, secret);
      var sendOkm, recvOkm := new byte[KEY_BYTES], new byte[KEY_BYTES];
      Hkdf.HkdfExpand(p, sendOkm, prk, SEND_INFO);
      Hkdf.HkdfExpand(p, recvOkm, prk, RECV_INFO);
      rootKey := prk;
      sendChain := sendOkm[..];
      recvChain := recvOkm[..];
    }

    method Step(remote: ByteString) returns (ok: bool)
      requires p.HmacSized()
      modifies this
      ensures var next := RatchetStep(p, old(State()), remote);
              ok == next.Some? && State() == if ok then next.value else old(State())
    {
      if |remote| != KEY_BYTES {
        return false;
      }
      var secret := p.dh(dhPrivate, remote);
      if secret.None? {
        return false;
      }
      DeriveChains(secret.value);
      sendNumber := 0;
      recvNumber := 0;
      lastRemote := remote;
      return true;
    }

    method EncryptEnvelope(randomId: ByteString, nonce: ByteString, now: u64, text: ByteString) returns (env: Envelope)
      requires State().Keyed()
      modifies this
      ensures (State(), env) == Encrypt(p, old(State()), randomId, nonce, now, text)
    {
      if sessionId == [] {
        sessionId := randomId;
      }
      var header := PushU32([], sendNumber);
      header := header + dhPublic;
      assert header == Header(sendNumber, dhPublic);
      var key := MessageKey(p, sendChain);
      var ct := p.seal(key, nonce, header, text);
      env := Envelope(sessionId, sendNumber, recvNumber, now, [], header, ct, 1, [], []);
      sendChain := NextChain(p, sendChain);
      sendNumber := (sendNumber + 1) % U32_LIMIT;
    }

    /** The peer key check of decrypt_envelope; false when the Diffie-Hellman computation throws. */
    method Meet(remote: ByteString) returns (ok: bool)
      requires p.HmacSized()
      modifies this
      ensures var next := MeetPeer(p, old(State()), remote);
              ok == next.Some? && State() == if ok then next.value else old(State())
    {
      if lastRemote != [] && remote != lastRemote {
        var secret := p.dh(dhPrivate, remote);
        if secret.None? {
          return false;
        }
        DeriveChains(secret.value);
        recvNumber := 0;
        lastRemote := remote;
      } else if lastRemote == [] {
        lastRemote := remote;
      }
      return true;
    }

    method SkipKey()
      requires recvNumber + 1 < U32_LIMIT
      modifies this`skipped, this`recvChain, this`recvNumber
      ensures State() == SkipOne(p, old(State()))
    {
      if recvNumber !in skipped {
        skipped := skipped[recvNumber := MessageKey(p, recvChain)];
      }
      recvChain := NextChain(p, recvChain);
      recvNumber := recvNumber + 1;
    }

    /** The end of decrypt_envelope, once the chain has caught up. */
    method TryOpen(number: u32, env: Envelope) returns (text: Option<ByteString>)
      modifies this`skipped, this`recvChain, this`recvNumber
      ensures (State(), text) == OpenAt(p, old(State()), number, env)
    {
      var header := env.associatedData;
      if number in skipped {
        text := p.unseal(skipped[number], header, env.ciphertext);
        if text.Some? {
          skipped := skipped - {number};
        }
        return text;
      }
      text := p.unseal(MessageKey(p, recvChain), header, env.ciphertext);
      if text.None? {
        return None;
      }
      recvChain := NextChain(p, recvChain);
      recvNumber := (number + 1) % U32_LIMIT;
    }

    method DecryptEnvelope(env: Envelope) returns (text: Option<ByteString>)
      requires p.HmacSized() && State().Keyed()
      modifies this
      ensures (State(), text) == Decrypt(p, old(State()), env)
    {
      if sessionId != [] && env.sessionId != sessionId {
        return None;
      } else if sessionId == [] {
        sessionId := env.sessionId;
      }
      ghost var s1 := State();
      assert s1 == old(State()).(sessionId := env.sessionId);
      var header := env.associatedData;
      var read := ReadU32(header, 0);
      if read.None? || 4 + KEY_BYTES > |header| {
        return None;
      }
      var number := read.value;
      assert number == ClaimedNumber(header);
      var remote := header[4..4 + KEY_BYTES];
      var met := Meet(remote);
      if !met {
        return None;
      }
      ghost var caughtFrom := State();
      while recvNumber < number
        invariant CatchUp(p, State(), number) == CatchUp(p, caughtFrom, number)
        decreases number - recvNumber
      {
        SkipKey();
      }
      assert State() == CatchUp(p, caughtFrom, number);
      text := TryOpen(number, env);
    }

    method EncryptBytes(randomId: ByteString, nonce: ByteString, now: u64, text: ByteString) returns (b: ByteString)
      requires State().Keyed()
      modifies this
      ensures var (s', env) := Encrypt(p, old(State()), randomId, nonce, now, text); State() == s' && b == Pack(env)
    {
      var env := EncryptEnvelope(randomId, nonce, now, text);
      b := env.associatedData;
      b := b + env.ciphertext;
    }

    method DecryptBytes(b: ByteString) returns (text: Option<ByteString>)
      requires p.HmacSized() && State().Keyed()
      modifies this
      ensures (State(), text) == DecryptRaw(p, old(State()), b)
    {
      if |b| < 4 + KEY_BYTES {
        return None;
      }
      var header := b[..4 + KEY_BYTES];
      var ct := b[4 + KEY_BYTES..];
      text := DecryptEnvelope(Envelope(sessionId, 0, 0, 0, [], header, ct, 1, [], []));
    }

    method ExportState() returns (b: ByteString)
      ensures b == Export(State())
    {
      b := rootKey;
      b := b + sendChain;
      b := b + recvChain;
      b := PushU32(b, sendNumber);
      b := PushU32(b, recvNumber);
      b := b + dhPrivate;
      b := b + dhPublic;
    }

    /** Reads a counter that is known to be there and moves past it. */
    method ReadCounter(b: ByteString, off: nat) returns (n: u32, next: nat)
      requires off + 4 <= |b|
      ensures n == FromBigEndian(b[off..off + 4]) && next == off + 4
    {
      var number := ReadU32(b, off);
      return number.value, off + 4;
    }

    method ImportState(b: ByteString) returns (ok: bool)
      modifies this
      ensures var next := Import(old(State()), b);
              ok == next.Some? && State() == if ok then next.value else old(State())
    {
      hide FromBigEndian, Pow256;
      if |b| < STATE_BYTES {
        return false;
      }
      var off := 0;
      rootKey := b[off..off + 32];
      off := off + 32;
      sendChain := b[off..off + 32];
      off := off + 32;
      recvChain := b[off..off + 32];
      off := off + 32;
      sendNumber, off := ReadCounter(b, off);
      recvNumber, off := ReadCounter(b, off);
      dhPrivate := b[off..off + 32];
      off := off + 32;
      dhPublic := b[off..off + 32];
      lastRemote := [];
      return true;
    }
  }
}
