/** What a Diffie-Hellman step derives, and when two sides that have stepped hold the same root. */
module Roots {
  import opened Bytes
  import opened Crypto
  import opened RatchetSession
  import Hkdf

  /** What no step touches. */
  predicate SameIdentity(s: RatchetState, s': RatchetState) {
    s'.dhPrivate == s.dhPrivate && s'.dhPublic == s.dhPublic && s'.sessionId == s.sessionId && s'.skipped == s.skipped
  }

  /** An output of one hash length is T(1) of section 2.3 of RFC 5869. */
  lemma OneBlock(p: Primitives, prk: ByteString, info: ByteString)
    requires p.HmacSized()
    ensures Hkdf.Expand(p, prk, info, KEY_BYTES) == p.hmac(prk, info + [1])
  {
    assert Hkdf.BlockCount(KEY_BYTES) == 1;
    assert [] + info + [1] == info + [1];
    assert Hkdf.LoopStream(p, prk, info, 1) == [] + Hkdf.LoopBlock(p, prk, info, 1);
  }

  /** Section 2.2 of RFC 5869: an absent salt is a string of zeros. */
  function Salt(root: ByteString): ByteString {
    if root == [] then Zeros(KEY_BYTES) else root
  }

  /** The state after a step, with the new root keyed by the old one over the shared secret, and one chain key for each
      of the two labels "SendChain" and "RecvChain". */
  ghost predicate DerivedFrom(p: Primitives, s: RatchetState, secret: ByteString, s': RatchetState) {
    && s'.rootKey == p.hmac(Salt(s.rootKey), secret)
    && s'.sendChain == p.hmac(s'.rootKey, [83, 101, 110, 100, 67, 104, 97, 105, 110, 1])
    && s'.recvChain == p.hmac(s'.rootKey, [82, 101, 99, 118, 67, 104, 97, 105, 110, 1])
    && s'.recvNumber == 0
  }

  lemma ChainsDerive(p: Primitives, s: RatchetState, secret: ByteString)
    requires p.HmacSized()
    ensures DerivedFrom(p, s, secret, RootChain(p, s, secret).(recvNumber := 0))
  {
    hide Hkdf.Expand;
    var prk := Hkdf.Extract(p, s.rootKey, secret);
    OneBlock(p, prk, SEND_INFO);
    OneBlock(p, prk, RECV_INFO);
    assert SEND_INFO + [1] == [83, 101, 110, 100, 67, 104, 97, 105, 110, 1];
    assert RECV_INFO + [1] == [82, 101, 99, 118, 67, 104, 97, 105, 110, 1];
  }

  /** ratchet_step succeeds exactly if the key has 32 bytes and the secret can be computed. */
  lemma StepDerives(p: Primitives, s: RatchetState, remote: ByteString)
    requires p.HmacSized()
    ensures RatchetStep(p, s, remote).Some? <==> |remote| == 32 && p.dh(s.dhPrivate, remote).Some?
    ensures RatchetStep(p, s, remote).Some? ==>
              var s' := RatchetStep(p, s, remote).value;
              && DerivedFrom(p, s, p.dh(s.dhPrivate, remote).value, s')
              && s'.sendNumber == 0 && s'.lastRemote == remote && SameIdentity(s, s')
  {
    if |remote| == 32 && p.dh(s.dhPrivate, remote).Some? {
      ChainsDerive(p, s, p.dh(s.dhPrivate, remote).value);
    }
  }

  /** The branch of decrypt_envelope that steps does the same, except that the send counter goes on. */
  lemma MeetDerives(p: Primitives, s: RatchetState, remote: ByteString)
    requires p.HmacSized() && s.lastRemote != [] && remote != s.lastRemote
    ensures MeetPeer(p, s, remote).Some? <==> p.dh(s.dhPrivate, remote).Some?
    ensures MeetPeer(p, s, remote).Some? ==>
              var s' := MeetPeer(p, s, remote).value;
              && DerivedFrom(p, s, p.dh(s.dhPrivate, remote).value, s')
              && s'.sendNumber == s.sendNumber && s'.lastRemote == remote && SameIdentity(s, s')
  {
    if p.dh(s.dhPrivate, remote).Some? {
      ChainsDerive(p, s, p.dh(s.dhPrivate, remote).value);
    }
  }

  /** Two sides with the same root that step on whatever keys agree on the new one exactly if the two secrets hash to
      the same under the old one. */
  lemma RootsAgreeIff(p: Primitives, s: RatchetState, r: ByteString, t: RatchetState, q: ByteString)
    requires p.HmacSized() && s.rootKey == t.rootKey && RatchetStep(p, s, r).Some? && RatchetStep(p, t, q).Some?
    ensures RatchetStep(p, s, r).value.rootKey == RatchetStep(p, t, q).value.rootKey
            <==> p.hmac(Salt(s.rootKey), p.dh(s.dhPrivate, r).value)
                 == p.hmac(Salt(s.rootKey), p.dh(t.dhPrivate, q).value)
  {
    StepDerives(p, s, r);
    StepDerives(p, t, q);
  }

  /** Steps on a sequence of remote keys; None when one of them throws. */
  function StepAll(p: Primitives, s: RatchetState, keys: seq<ByteString>): Option<RatchetState>
    requires p.HmacSized()
  {
    if keys == [] then Some(s) else
    var s1 :- StepAll(p, s, keys[..|keys| - 1]);
    RatchetStep(p, s1, keys[|keys| - 1])
  }

  /** The root after steps with these secrets. */
  function RootAfter(p: Primitives, root: ByteString, secrets: seq<ByteString>): ByteString {
    if secrets == [] then root else
    p.hmac(Salt(RootAfter(p, root, secrets[..|secrets| - 1])), secrets[|secrets| - 1])
  }

  ghost predicate SecretsOf(p: Primitives, s: RatchetState, keys: seq<ByteString>, secrets: seq<ByteString>) {
    |secrets| == |keys| && forall i :: 0 <= i < |keys| ==> p.dh(s.dhPrivate, keys[i]) == Some(secrets[i])
  }

  lemma {:induction false} StepAllDerives(
    p: Primitives, s: RatchetState, keys: seq<ByteString>) returns (secrets: seq<ByteString>)
    requires p.HmacSized() && StepAll(p, s, keys).Some?
    ensures SecretsOf(p, s, keys, secrets)
    ensures var s' := StepAll(p, s, keys).value;
            s'.rootKey == RootAfter(p, s.rootKey, secrets) && SameIdentity(s, s')
  {
    if keys == [] {
      secrets := [];
    } else {
      var last := |keys| - 1;
      var before := StepAllDerives(p, s, keys[..last]);
      var s1 := StepAll(p, s, keys[..last]).value;
      StepDerives(p, s1, keys[last]);
      secrets := before + [p.dh(s.dhPrivate, keys[last]).value];
      assert secrets[..last] == before;
    }
  }

  /** At no point of the two histories do different secrets, or the same under different roots, hash to the same. */
  ghost predicate NoCollision(p: Primitives, root: ByteString, xs: seq<ByteString>, ys: seq<ByteString>)
    requires |xs| == |ys|
  {
    forall i :: 0 <= i < |xs| ==>
      var a, b := Salt(RootAfter(p, root, xs[..i])), Salt(RootAfter(p, root, ys[..i]));
      p.hmac(a, xs[i]) == p.hmac(b, ys[i]) ==> a == b && xs[i] == ys[i]
  }

  lemma NoneBefore(p: Primitives, root: ByteString, xs: seq<ByteString>, ys: seq<ByteString>)
    requires |xs| == |ys| > 0 && NoCollision(p, root, xs, ys)
    ensures NoCollision(p, root, xs[..|xs| - 1], ys[..|ys| - 1])
  {
    hide RootAfter, Salt;
    var last := |xs| - 1;
    assert forall i :: 0 <= i < last ==> xs[..last][..i] == xs[..i] && ys[..last][..i] == ys[..i];
  }

  lemma SaltSame(p: Primitives, root: ByteString, xs: seq<ByteString>, ys: seq<ByteString>)
    requires p.HmacSized() && |xs| == |ys|
    ensures Salt(RootAfter(p, root, xs)) == Salt(RootAfter(p, root, ys))
            <==> RootAfter(p, root, xs) == RootAfter(p, root, ys)
  {
    hide Salt;
    if xs != [] {
      SaltKeeps(RootAfter(p, root, xs));
      SaltKeeps(RootAfter(p, root, ys));
    }
  }

  lemma SaltKeeps(root: ByteString)
    ensures root != [] ==> Salt(root) == root
  {
  }

  lemma LastAgrees(p: Primitives, root: ByteString, xs: seq<ByteString>, ys: seq<ByteString>)
    requires p.HmacSized() && |xs| == |ys| > 0 && NoCollision(p, root, xs, ys)
    ensures var last := |xs| - 1;
            RootAfter(p, root, xs) == RootAfter(p, root, ys)
            <==> RootAfter(p, root, xs[..last]) == RootAfter(p, root, ys[..last]) && xs[last] == ys[last]
  {
    hide Salt;
    var last := |xs| - 1;
    SaltSame(p, root, xs[..last], ys[..last]);
    var a, b := Salt(RootAfter(p, root, xs[..last])), Salt(RootAfter(p, root, ys[..last]));
    assert p.hmac(a, xs[last]) == p.hmac(b, ys[last]) ==> a == b && xs[last] == ys[last];
  }

  lemma {:induction false} HistoriesAgreeIff(
    p: Primitives, root: ByteString, xs: seq<ByteString>, ys: seq<ByteString>)
    requires p.HmacSized() && |xs| == |ys| && NoCollision(p, root, xs, ys)
    ensures RootAfter(p, root, xs) == RootAfter(p, root, ys) <==> xs == ys
  {
    hide RootAfter, NoCollision;
    if xs == [] {
      assert ys == xs;
    } else {
      var last := |xs| - 1;
      NoneBefore(p, root, xs, ys);
      HistoriesAgreeIff(p, root, xs[..last], ys[..last]);
      LastAgrees(p, root, xs, ys);
      assert xs == xs[..last] + [xs[last]] && ys == ys[..last] + [ys[last]];
    }
  }

  /** From one root, after any number of steps on whatever keys, two sides hold the same root exactly if their shared
      secrets agreed at every step. A side that once steps on a third party's key has lost the other for good. */
  lemma {:induction false} SidesAgreeIff(
    p: Primitives, s: RatchetState, keysS: seq<ByteString>, t: RatchetState, keysT: seq<ByteString>,
    xs: seq<ByteString>, ys: seq<ByteString>)
    requires p.HmacSized() && s.rootKey == t.rootKey && |keysS| == |keysT|
    requires StepAll(p, s, keysS).Some? && StepAll(p, t, keysT).Some?
    requires SecretsOf(p, s, keysS, xs) && SecretsOf(p, t, keysT, ys) && NoCollision(p, s.rootKey, xs, ys)
    ensures StepAll(p, s, keysS).value.rootKey == StepAll(p, t, keysT).value.rootKey
            <==> forall i :: 0 <= i < |keysS| ==> p.dh(s.dhPrivate, keysS[i]) == p.dh(t.dhPrivate, keysT[i])
  {
    var xs' := StepAllDerives(p, s, keysS);
    var ys' := StepAllDerives(p, t, keysT);
    assert xs' == xs && ys' == ys;
    HistoriesAgreeIff(p, s.rootKey, xs, ys);
    assert xs == ys <==> forall i :: 0 <= i < |xs| ==> xs[i] == ys[i];
  }
}
