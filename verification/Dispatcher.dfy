/** The dispatcher: session ids, sending, and routing of what the transport hands up. */
module Dispatch {
  import opened Bytes
  import opened Crypto
  import opened Envelopes
  import opened RatchetSession
  import Codec
  import Mls

  /** `std::string` order: byte by byte, a proper prefix first. */
  predicate LexLess(a: ByteString, b: ByteString) {
    b != [] && (a == [] || a[0] < b[0] || (a[0] == b[0] && LexLess(a[1..], b[1..])))
  }

  lemma {:induction false} LexTotal(a: ByteString, b: ByteString)
    ensures !(LexLess(a, b) && LexLess(b, a))
    ensures LexLess(a, b) || LexLess(b, a) || a == b
  {
    if a != [] && b != [] && a[0] == b[0] {
      LexTotal(a[1..], b[1..]);
      assert a == [a[0]] + a[1..] && b == [b[0]] + b[1..];
    }
  }

  /** Up to k they read the same; there the first ends, or has the smaller byte. */
  predicate LessAt(a: ByteString, b: ByteString, k: nat) {
    k < |b| && k <= |a| && a[..k] == b[..k] && (k == |a| || a[k] < b[k])
  }

  lemma LessLater(a: ByteString, b: ByteString, k: nat)
    requires a != [] && b != [] && a[0] == b[0]
    ensures LessAt(a, b, k + 1) <==> LessAt(a[1..], b[1..], k)
  {
    if k < |a| && k < |b| {
      assert a[..k + 1] == [a[0]] + a[1..][..k] && b[..k + 1] == [b[0]] + b[1..][..k];
      assert a[1..][..k] == a[..k + 1][1..] && b[1..][..k] == b[..k + 1][1..];
    }
  }

  lemma {:induction false} LexLessIff(a: ByteString, b: ByteString)
    ensures LexLess(a, b) <==> exists k: nat :: LessAt(a, b, k)
  {
    if a == [] || b == [] || a[0] != b[0] {
      assert LexLess(a, b) ==> LessAt(a, b, 0);
      assert forall k: nat :: LessAt(a, b, k) ==> k == 0 || a[..k][0] == b[..k][0];
    } else {
      LexLessIff(a[1..], b[1..]);
      if k: nat :| LessAt(a, b, k) {
        LessLater(a, b, k - 1);
      } else if k: nat :| LessAt(a[1..], b[1..], k) {
        LessLater(a, b, k);
      }
    }
  }

  function SessionId(p: Primitives, own: ByteString, remote: ByteString, root: ByteString): ByteString
    requires p.HmacSized()
  {
    p.hmac(root, (if LexLess(own, remote) then own + remote else remote + own) + root)[..16]
  }

  /** The two ends of a pair derive the same sixteen bytes. */
  lemma SessionIdsAgree(p: Primitives, a: ByteString, b: ByteString, root: ByteString)
    requires p.HmacSized()
    ensures SessionId(p, a, b, root) == SessionId(p, b, a, root)
    ensures |SessionId(p, a, b, root)| == 16
  {
    LexTotal(a, b);
  }

  /** The two ids in order, with nothing between them. */
  function Ordered(a: ByteString, b: ByteString): ByteString {
    if LexLess(a, b) then a + b else b + a
  }

  /** Two sessions have the same id exactly if they have the same root and their ids in order read the same, as long as
      the keyed hash does not take the two inputs to the same sixteen bytes. */
  lemma SessionIdsAgreeIff(
    p: Primitives, a: ByteString, b: ByteString, root: ByteString, a': ByteString, b': ByteString, root': ByteString)
    requires p.HmacSized()
    requires root != root' || Ordered(a, b) != Ordered(a', b') ==>
               p.hmac(root, Ordered(a, b) + root)[..16] != p.hmac(root', Ordered(a', b') + root')[..16]
    ensures SessionId(p, a, b, root) == SessionId(p, a', b', root')
            <==> root == root' && Ordered(a, b) == Ordered(a', b')
  {
  }

  /** The ids carry no lengths, so pairs that split the same text differently share a session id. */
  lemma SplitsShareSessionId(p: Primitives, x: ByteString, y: ByteString, z: ByteString, root: ByteString)
    requires p.HmacSized() && LexLess(x, y + z) && LexLess(x + y, z)
    ensures SessionId(p, x, y + z, root) == SessionId(p, x + y, z, root)
  {
    assert x + (y + z) == (x + y) + z;
  }

  datatype Session = Session(ratchet: RatchetState, initialized: bool)

  datatype DispatcherState = DispatcherState(deviceId: ByteString, sessions: map<ByteString, Session>, listening: bool)

  /** A session entry appears, or is reused, before the root key is looked at; false when the root key is refused. */
  function CreateSession(p: Primitives, d: DispatcherState, remote: ByteString, root: ByteString, priv: ByteString)
    : (DispatcherState, bool)
    requires p.HmacSized()
  {
    var entry := if remote in d.sessions then d.sessions[remote] else Session(Fresh(p, priv), false);
    if |root| != KEY_BYTES then (d.(sessions := d.sessions[remote := entry]), false)
    else
      var ratchet := Initialize(entry.ratchet, root, SessionId(p, d.deviceId, remote, root));
      (d.(sessions := d.sessions[remote := Session(ratchet, true)]), true)
  }

  /** The bytes handed to the transport; None when the source throws. */
  function SendMessage(
    p: Primitives, d: DispatcherState, remote: ByteString, nonce: ByteString, now: u64, text: ByteString)
    : (DispatcherState, Option<ByteString>)
  {
    if remote !in d.sessions || !d.sessions[remote].initialized then (d, None) else
    var (ratchet, env) := Encrypt(p, d.sessions[remote].ratchet, [], nonce, now, text);
    (d.(sessions := d.sessions[remote := Session(ratchet, true)]), Some(Encode(env.(senderDeviceId := d.deviceId))))
  }

  /** What the inbound callback is called with, if it is called. */
  function OnRaw(p: Primitives, d: DispatcherState, bytes: ByteString): (DispatcherState, Option<Envelope>)
    requires p.HmacSized()
  {
    match Parse(bytes)
    case None => (d, None)
    case Some(env) =>
      if env.senderDeviceId !in d.sessions then (d, None) else
      var session := d.sessions[env.senderDeviceId];
      var (ratchet, text) := Decrypt(p, session.ratchet, env);
      (d.(sessions := d.sessions[env.senderDeviceId := session.(ratchet := ratchet)]),
       if text.Some? && d.listening then Some(env.(ciphertext := text.value)) else None)
  }

  class Dispatcher {
    const p: Primitives
    const mls: Mls.MlsManager
    var deviceId: ByteString
    var sessions: map<ByteString, Session>
    var listening: bool

    /** No operation of the dispatcher creates a group, so its group manager stays empty. */
    ghost predicate Valid()
      reads this, mls
    {
      && p.HmacSized()
      && mls.groups == map[]
      && forall id :: id in sessions ==>
           var s := sessions[id].ratchet;
           |s.dhPrivate| == |s.dhPublic| == KEY_BYTES && (sessions[id].initialized ==> s.Keyed() && s.sessionId != [])
    }

    function View(): DispatcherState
      reads this
    {
      DispatcherState(deviceId, sessions, listening)
    }

    constructor (p: Primitives)
      requires p.HmacSized()
      ensures Valid() && fresh(mls) && this.p == p
      ensures View() == DispatcherState([], map[], false)
    {
      this.p := p;
      mls := new Mls.MlsManager(p);
      deviceId := [];
      sessions := map[];
      listening := false;
    }

    method RegisterDevice(id: ByteString)
      requires Valid()
      modifies this
      ensures Valid() && View() == old(View()).(deviceId := id)
    {
      deviceId := id;
    }

    method SetOnInbound()
      requires Valid()
      modifies this
      ensures Valid() && View() == old(View()).(listening := true)
    {
      listening := true;
    }

    /** The two device ids in order, then the root key, hashed and cut to sixteen bytes. */
    method DeriveSessionId(remote: ByteString, root: ByteString) returns (id: ByteString)
      requires p.HmacSized()
      ensures id == SessionId(p, deviceId, remote, root) && |id| == 16
    {
      var input := [];
      if LexLess(deviceId, remote) {
        input := input + deviceId;
        input := input + remote;
        assert input == deviceId + remote;
      } else {
        input := input + remote;
        input := input + deviceId;
        assert input == remote + deviceId;
      }
      input := input + root;
      var digest := p.hmac(root, input);
      id := digest[..16];
    }

    /** `priv` stands for the private key that a new entry's ratchet draws at random. */
    method CreateSessionWith(remote: ByteString, root: ByteString, priv: ByteString) returns (ok: bool)
      requires Valid() && |priv| == |p.publicKey(priv)| == KEY_BYTES
      modifies this
      ensures Valid()
      ensures (View(), ok) == CreateSession(p, old(View()), remote, root, priv)
    {
      hide LexLess, SessionId;
      if remote !in sessions {
        var drawn := new Ratchet(p, priv);
        sessions := sessions[remote := Session(drawn.State(), false)];
      }
      var s := sessions[remote];
      var id := DeriveSessionId(remote, root);
      var ratchet := new Ratchet.At(p, s.ratchet);
      ok := ratchet.InitializeWith(root, id);
      sessions := sessions[remote := Session(ratchet.State(), s.initialized || ok)];
      assert sessions == old(sessions)[remote := sessions[remote]];
    }

    method SendMessageToDevice(remote: ByteString, nonce: ByteString, now: u64, text: ByteString)
      returns (sent: Option<ByteString>)
      requires Valid()
      modifies this
      ensures Valid()
      ensures (View(), sent) == SendMessage(p, old(View()), remote, nonce, now, text)
    {
      if remote !in sessions || !sessions[remote].initialized {
        return None;
      }
      var ratchet := new Ratchet.At(p, sessions[remote].ratchet);
      var env := ratchet.EncryptEnvelope([], nonce, now, text);
      sessions := sessions[remote := Session(ratchet.State(), true)];
      env := env.(senderDeviceId := deviceId);
      var bytes := Codec.SerializeEnvelope(env);
      sent := Some(bytes);
    }

    /** Always throws: the dispatcher offers no way to create a group. */
    method SendGroupMessage(
      groupId: ByteString, sender: ByteString, nonce: ByteString, now: u64, later: u64, text: ByteString)
      returns (sent: Option<ByteString>)
      requires Valid()
      ensures sent == None
    {
      var env := mls.EncryptGroupMessage(groupId, sender, nonce, now, later, text);
      if env.None? {
        return None;
      }
      assert false;
    }

    /** The group branch is never taken. A session whose root key was refused has no chain keys to try, so the source
        needs the sender's session, if there is one, to be initialized. */
    method OnRawMessage(bytes: ByteString) returns (inbound: Option<Envelope>)
      requires Valid()
      requires Parse(bytes).Some? && Parse(bytes).value.senderDeviceId in sessions ==>
                 sessions[Parse(bytes).value.senderDeviceId].initialized
      modifies this
      ensures Valid()
      ensures (View(), inbound) == OnRaw(p, old(View()), bytes)
    {
      var parsed := Codec.DeserializeEnvelope(bytes);
      if parsed.None? {
        return None;
      }
      var env := parsed.value;
      var epoch := mls.GetGroupEpoch(env.sessionId);
      if env.sessionId != [] && epoch != 0 {
        assert false;
      }
      var sender := env.senderDeviceId;
      if sender !in sessions {
        return None;
      }
      var ratchet := new Ratchet.At(p, sessions[sender].ratchet);
      DecryptKeyed(p, ratchet.State(), env);
      var text := ratchet.DecryptEnvelope(env);
      sessions := sessions[sender := sessions[sender].(ratchet := ratchet.State())];
      if text.Some? && listening {
        return Some(env.(ciphertext := text.value));
      }
      return None;
    }
  }
}
