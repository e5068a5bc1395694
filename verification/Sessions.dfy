/** A pair of ratchets from `initialize` on: delivery with and without a session id, and which keys the two share. */
module Sessions {
  import opened Bytes
  import opened Crypto
  import opened Envelopes
  import opened RatchetSession
  import opened Delivery
  import opened Kept

  /** A receiver that was given no session id takes that of the first envelope, whatever it is. */
  lemma {:induction false} AdoptsFirst(p: Primitives, s: RatchetState, es: seq<Envelope>)
    requires p.HmacSized() && s.sessionId == [] && es != []
    ensures Receive(p, s, es) == Receive(p, s.(sessionId := es[0].sessionId), es)
  {
    var last := |es| - 1;
    if last == 0 {
      assert es[..0] == [];
    } else {
      AdoptsFirst(p, s, es[..last]);
    }
  }

  /** A sender that was given no session id draws one for its first envelope and keeps it. */
  lemma {:induction false} NamesItself(p: Primitives, s: RatchetState, sends: seq<Sending>)
    requires s.sessionId == [] && sends != [] && sends[0].randomId != []
    ensures Send(p, s, sends) == Send(p, s.(sessionId := sends[0].randomId), sends)
  {
    var last := |sends| - 1;
    if last == 0 {
      assert sends[..0] == [];
    } else {
      NamesItself(p, s, sends[..last]);
    }
  }

  /** The id an unnamed end comes to use, if it was given none. */
  predicate SenderNamed(id: ByteString, sends: seq<Sending>, name: ByteString) {
    id == name || (id == [] && (sends == [] || sends[0].randomId == name))
  }

  predicate ReceiverNamed(id: ByteString, es: seq<Envelope>, name: ByteString) {
    id == name || (id == [] && (es == [] || es[0].sessionId == name))
  }

  lemma {:induction false} NamedSends(l: Link, s: RatchetState, sends: seq<Sending>)
    requires l.sessionId != [] && |sends| < U32_LIMIT && Drafts(sends) <= l.used
    requires SenderInv(l, 0, s.(sessionId := l.sessionId)) && SenderNamed(s.sessionId, sends, l.sessionId)
    ensures forall i :: 0 <= i < |sends| ==> IsMessage(l, i, Send(l.p, s, sends).1[i], sends[i].text)
  {
    SentAreMessages(l, s.(sessionId := l.sessionId), sends);
    if s.sessionId == [] && sends != [] {
      NamesItself(l.p, s, sends);
    }
  }

  lemma NamedReceives(p: Primitives, s: RatchetState, name: ByteString, es: seq<Envelope>)
    requires p.HmacSized() && ReceiverNamed(s.sessionId, es, name)
    ensures var (s1, got) := Receive(p, s, es);
            var (s2, got') := Receive(p, s.(sessionId := name), es);
            && got == got' && s1.skipped == s2.skipped && s1.recvNumber == s2.recvNumber
            && (es != [] || s.sessionId != [] ==> s1 == s2)
  {
    hide Decrypt;
    if s.sessionId == [] && es != [] {
      AdoptsFirst(p, s, es);
    } else if s.sessionId == name {
      assert s.(sessionId := name) == s;
    }
  }

  lemma InitializedInv(l: Link, receiver: RatchetState)
    requires Keeps(l, receiver.skipped)
    ensures OnChain(l, Initialize(receiver, l.root, l.sessionId))
    ensures receiver.skipped == l.stale ==> ReceiverInv(l, {}, Initialize(receiver, l.root, l.sessionId))
  {
  }

  lemma {:induction false} StartedOnce(
    l: Link, s: RatchetState, log: seq<Envelope>, texts: seq<ByteString>, arrivals: seq<Arrival>, es: seq<Envelope>)
    requires l.Usable() && ReceiverInv(l, {}, s) && |log| == |texts| < U32_LIMIT
    requires forall i :: 0 <= i < |log| ==> IsMessage(l, i, log[i], texts[i])
    requires AllArrive(l, log, arrivals, es)
    ensures var (s', got) := Receive(l.p, s, es);
            && AsExpected(got, texts, l.stale.Keys, arrivals)
            && ReceiverInv(l, Indices(arrivals) - l.stale.Keys, s')
            && (l.stale == map[] ==> |s'.skipped| + |Indices(arrivals)| == s'.recvNumber)
  {
    hide Arrives, IsMessage, AsExpected, Receive, KeysSeparate, StaleShut, ReceiverInv;
    FirstCopiesOnly(l, log, texts, {}, s, arrivals, es);
    var done := Indices(arrivals) - l.stale.Keys;
    assert {} + done == done && {} + l.stale.Keys == l.stale.Keys;
    if l.stale == map[] {
      assert done == Indices(arrivals);
      Accounting(l, done, Receive(l.p, s, es).0);
    }
  }

  /** A sender and a receiver initialized with the same root, whatever keys the receiver still keeps, each one of this
      chain or one that opens nothing here: the exact outcome of every arrival. With none of this chain, everything
      arrives exactly once, in whatever order and however often copied, save under the numbers of the others. */
  lemma {:induction false} RatchetDelivers(
    l: Link, sender: RatchetState, receiver: RatchetState, senderId: ByteString, receiverId: ByteString,
    sends: seq<Sending>, arrivals: seq<Arrival>, es: seq<Envelope>)
    requires l.Usable() && l.sessionId != [] && |sends| < U32_LIMIT && Drafts(sends) <= l.used
    requires sender.dhPublic == l.peer && Keeps(l, receiver.skipped)
    requires SenderNamed(senderId, sends, l.sessionId) && ReceiverNamed(receiverId, es, l.sessionId)
    requires AllArrive(l, Send(l.p, Initialize(sender, l.root, senderId), sends).1, arrivals, es)
    ensures AsTaken(l, Initialize(receiver, l.root, l.sessionId),
                    Receive(l.p, Initialize(receiver, l.root, receiverId), es).1, Texts(sends), arrivals)
    ensures var (s', got) := Receive(l.p, Initialize(receiver, l.root, receiverId), es);
            receiver.skipped == l.stale ==>
              && AsExpected(got, Texts(sends), l.stale.Keys, arrivals)
              && (es != [] || receiverId != [] ==> ReceiverInv(l, Indices(arrivals) - l.stale.Keys, s'))
              && (l.stale == map[] ==> |s'.skipped| + |Indices(arrivals)| == s'.recvNumber)
  {
    hide Arrives, IsMessage, AsExpected, AsTaken, Receive, Send, KeysSeparate, StaleShut, ReceiverInv, OnChain, Keeps;
    hide ReceiverNamed, SenderNamed;
    var log := Send(l.p, Initialize(sender, l.root, senderId), sends).1;
    var s := Initialize(receiver, l.root, l.sessionId);
    NamedSends(l, Initialize(sender, l.root, senderId), sends);
    InitializedInv(l, receiver);
    NamedReceives(l.p, Initialize(receiver, l.root, receiverId), l.sessionId, es);
    assert Initialize(receiver, l.root, receiverId).(sessionId := l.sessionId) == s;
    EveryArrival(l, log, Texts(sends), s, arrivals, es);
    if receiver.skipped == l.stale {
      StartedOnce(l, s, log, Texts(sends), arrivals, es);
    }
  }

  /** Skipped keys outlive `initialize`. Whatever then arrives, each message still arrives exactly once if and only if
      the receiver keeps no key of the new chain under a number that is sent. After another initialization with the same
      root the kept keys are all of that chain: there must have been no message outstanding. */
  lemma {:induction false} OnceAgainIff(
    l: Link, sender: RatchetState, receiver: RatchetState, senderId: ByteString, sends: seq<Sending>)
    requires l.Usable() && l.sessionId != [] && |sends| < U32_LIMIT && Drafts(sends) <= l.used
    requires sender.dhPublic == l.peer && Keeps(l, receiver.skipped) && SenderNamed(senderId, sends, l.sessionId)
    ensures var log := Send(l.p, Initialize(sender, l.root, senderId), sends).1;
            var s := Initialize(receiver, l.root, l.sessionId);
            (forall arrivals, es :: AllArrive(l, log, arrivals, es) ==>
               AsExpected(Receive(l.p, s, es).1, Texts(sends), l.stale.Keys, arrivals))
            <==> forall i :: i in receiver.skipped && i < |sends| ==> i in l.stale
  {
    hide AllArrive, IsMessage, AsExpected, Receive, Send, KeysSeparate, StaleShut, OnChain, Keeps, SenderNamed;
    var log := Send(l.p, Initialize(sender, l.root, senderId), sends).1;
    var s := Initialize(receiver, l.root, l.sessionId);
    NamedSends(l, Initialize(sender, l.root, senderId), sends);
    InitializedInv(l, receiver);
    ExactlyOnceIff(l, log, Texts(sends), s);
    assert Closed(l, s) == l.stale.Keys;
  }

  lemma {:induction false} NamedElsewhere(p: Primitives, s: RatchetState, es: seq<Envelope>, k: nat)
    requires p.HmacSized() && s.sessionId != [] && k < |es| && es[k].sessionId != s.sessionId
    ensures Receive(p, s, es).1[k] == None
  {
    var last := |es| - 1;
    hide MeetPeer, CatchUp, OpenAt;
    if k < last {
      NamedElsewhere(p, s, es[..last], k);
    } else {
      ReceiveKeepsId(p, s, es[..last]);
    }
  }

  lemma {:induction false} CatchUpKeepsId(p: Primitives, s: RatchetState, number: u32)
    ensures CatchUp(p, s, number).sessionId == s.sessionId
    decreases number - s.recvNumber
  {
    if s.recvNumber < number {
      CatchUpKeepsId(p, SkipOne(p, s), number);
    }
  }

  lemma DecryptKeepsId(p: Primitives, s: RatchetState, e: Envelope)
    requires p.HmacSized()
    ensures Decrypt(p, s, e).0.sessionId == if s.sessionId == [] then e.sessionId else s.sessionId
  {
    if (s.sessionId == [] || e.sessionId == s.sessionId) && |e.associatedData| >= HEADER_BYTES {
      var met := MeetPeer(p, s.(sessionId := e.sessionId), e.associatedData[4..HEADER_BYTES]);
      if met.Some? {
        CatchUpKeepsId(p, met.value, ClaimedNumber(e.associatedData));
      }
    }
  }

  lemma {:induction false} ReceiveKeepsId(p: Primitives, s: RatchetState, es: seq<Envelope>)
    requires p.HmacSized() && s.sessionId != []
    ensures Receive(p, s, es).0.sessionId == s.sessionId
  {
    hide Decrypt;
    if es != [] {
      var last := |es| - 1;
      ReceiveKeepsId(p, s, es[..last]);
      DecryptKeepsId(p, Receive(p, s, es[..last]).0, es[last]);
    }
  }

  /** A receiver without an id gets the messages of its peer exactly if the first envelope to arrive is the peer's. */
  lemma {:induction false} UnnamedReceiverIff(
    l: Link, sender: RatchetState, receiver: RatchetState, senderId: ByteString,
    sends: seq<Sending>, arrivals: seq<Arrival>, es: seq<Envelope>)
    requires l.Usable() && l.sessionId != [] && |sends| < U32_LIMIT && Drafts(sends) <= l.used
    requires sender.dhPublic == l.peer && receiver.skipped == l.stale == map[]
    requires SenderNamed(senderId, sends, l.sessionId) && es != [] && es[0].sessionId != []
    requires AllArrive(l, Send(l.p, Initialize(sender, l.root, senderId), sends).1, arrivals, es)
    ensures var got := Receive(l.p, Initialize(receiver, l.root, []), es).1;
            (forall k :: 0 <= k < |es| && arrivals[k].Copy? ==> got[k] == Outcome(Texts(sends), {}, arrivals, k))
            <==> es[0].sessionId == l.sessionId || Indices(arrivals) == {}
  {
    hide Decrypt;
    var s := Initialize(receiver, l.root, []);
    var got := Receive(l.p, s, es).1;
    if es[0].sessionId == l.sessionId {
      RatchetDelivers(l, sender, receiver, senderId, [], sends, arrivals, es);
    } else if k :| 0 <= k < |es| && arrivals[k].Copy? {
      var first := FirstCopy(arrivals, k);
      NamedSends(l, Initialize(sender, l.root, senderId), sends);
      AdoptsFirst(l.p, s, es);
      assert Arrives(l, Send(l.p, Initialize(sender, l.root, senderId), sends).1, arrivals[first], es[first]);
      NamedElsewhere(l.p, s.(sessionId := es[0].sessionId), es, first);
      assert got[first] == None != Outcome(Texts(sends), {}, arrivals, first);
      assert arrivals[first].index in Indices(arrivals);
    }
  }

  lemma {:induction false} FirstCopy(arrivals: seq<Arrival>, k: nat) returns (first: nat)
    requires k < |arrivals| && arrivals[k].Copy?
    ensures first <= k && arrivals[first] == arrivals[k] && arrivals[first].index !in Indices(arrivals[..first])
  {
    if arrivals[k].index in Indices(arrivals[..k]) {
      var j :| 0 <= j < k && arrivals[j] == Copy(arrivals[k].index);
      first := FirstCopy(arrivals, j);
    } else {
      first := k;
    }
  }

  /** Decrypts a sequence of byte strings in order. */
  function ReceiveRaw(p: Primitives, s: RatchetState, arrivals: seq<ByteString>)
    : (r: (RatchetState, seq<Option<ByteString>>))
    requires p.HmacSized()
    ensures |r.1| == |arrivals|
  {
    if arrivals == [] then (s, []) else
    var last := |arrivals| - 1;
    var (s1, texts) := ReceiveRaw(p, s, arrivals[..last]);
    var (s2, text) := DecryptRaw(p, s1, arrivals[last]);
    (s2, texts + [text])
  }

  function Unpacked(sessionId: ByteString, bs: seq<ByteString>): (es: seq<Envelope>)
    ensures |es| == |bs| && forall k :: 0 <= k < |es| ==> es[k] == Unpack(sessionId, bs[k])
  {
    seq(|bs|, k requires 0 <= k < |bs| => Unpack(sessionId, bs[k]))
  }

  lemma {:induction false} RawAsEnvelopes(p: Primitives, s: RatchetState, bs: seq<ByteString>)
    requires p.HmacSized()
    ensures ReceiveRaw(p, s, bs) == Receive(p, s, Unpacked(s.sessionId, bs))
    ensures ReceiveRaw(p, s, bs).0.sessionId == s.sessionId
  {
    hide MeetPeer, CatchUp, OpenAt;
    if bs != [] {
      var last := |bs| - 1;
      RawAsEnvelopes(p, s, bs[..last]);
      assert Unpacked(s.sessionId, bs)[..last] == Unpacked(s.sessionId, bs[..last]);
      DecryptKeepsId(p, ReceiveRaw(p, s, bs[..last]).0, Unpack(s.sessionId, bs[last]));
    }
  }

  /** The byte strings that arrive: `encrypt`'s result for the message with the given index, or junk. */
  ghost predicate RawArrives(l: Link, log: seq<Envelope>, a: Arrival, b: ByteString) {
    match a
    case Copy(i) => i < |log| && b == Pack(log[i])
    case Junk(env) => env == Unpack(l.sessionId, b) && IsJunk(l, env)
  }

  lemma UnpackedMessage(from: Link, l: Link, i: u32, e: Envelope, text: ByteString)
    requires IsMessage(from, i, e, text) && from == l.(sessionId := from.sessionId) && |l.peer| == KEY_BYTES
    ensures IsMessage(l, i, Unpack(l.sessionId, Pack(e)), text)
  {
    HeaderReads(i, l.peer);
    assert Pack(e)[..HEADER_BYTES] == e.associatedData && Pack(e)[HEADER_BYTES..] == e.ciphertext;
    var d :| d in from.used && d.text == text && e.ciphertext == from.Ciphertext(i, d);
    assert e.ciphertext == l.Ciphertext(i, d);
  }

  /** Packed and unpacked, the messages of a sender under any id are messages under the receiver's. */
  lemma {:induction false} RawLog(
    l: Link, s: RatchetState, name: ByteString, sends: seq<Sending>, arrivals: seq<Arrival>, bs: seq<ByteString>)
    returns (log: seq<Envelope>)
    requires |l.peer| == KEY_BYTES && |sends| < U32_LIMIT && Drafts(sends) <= l.used
    requires SenderInv(l, 0, s.(sessionId := l.sessionId)) && name != [] && SenderNamed(s.sessionId, sends, name)
    requires |arrivals| == |bs|
    requires forall k :: 0 <= k < |bs| ==> RawArrives(l, Send(l.p, s, sends).1, arrivals[k], bs[k])
    ensures |log| == |sends| && forall i :: 0 <= i < |sends| ==> IsMessage(l, i, log[i], Texts(sends)[i])
    ensures AllArrive(l, log, arrivals, Unpacked(l.sessionId, bs))
  {
    hide IsMessage, Send, IsJunk;
    var sent := Send(l.p, s, sends).1;
    log := seq(|sent|, i requires 0 <= i < |sent| => Unpack(l.sessionId, Pack(sent[i])));
    var from := l.(sessionId := name);
    NamedSends(from, s, sends);
    forall i | 0 <= i < |sends|
      ensures IsMessage(l, i, log[i], Texts(sends)[i])
    {
      UnpackedMessage(from, l, i, sent[i], sends[i].text);
    }
    assert forall k :: 0 <= k < |bs| ==> RawArrives(l, sent, arrivals[k], bs[k]);
  }

  /** Through `encrypt` and `decrypt` session ids play no part: two ratchets initialized with the same root deliver
      everything exactly once whatever ids they were given or not given. */
  lemma {:induction false} RawDelivers(
    l: Link, sender: RatchetState, receiver: RatchetState, senderId: ByteString, name: ByteString,
    sends: seq<Sending>, arrivals: seq<Arrival>, bs: seq<ByteString>)
    requires l.Usable() && |sends| < U32_LIMIT && Drafts(sends) <= l.used
    requires sender.dhPublic == l.peer && Keeps(l, receiver.skipped)
    requires name != [] && SenderNamed(senderId, sends, name)
    requires var log := Send(l.p, Initialize(sender, l.root, senderId), sends).1;
             |arrivals| == |bs| && forall k :: 0 <= k < |bs| ==> RawArrives(l, log, arrivals[k], bs[k])
    ensures var s := Initialize(receiver, l.root, l.sessionId);
            var got := ReceiveRaw(l.p, s, bs).1;
            && AsTaken(l, s, got, Texts(sends), arrivals)
            && (receiver.skipped == l.stale ==> AsExpected(got, Texts(sends), l.stale.Keys, arrivals))
  {
    hide IsMessage, Receive, ReceiveRaw, Send, RawArrives, KeysSeparate, StaleShut, ReceiverInv, OnChain, Keeps;
    hide AsTaken, AsExpected;
    var log := RawLog(l, Initialize(sender, l.root, senderId), name, sends, arrivals, bs);
    var s := Initialize(receiver, l.root, l.sessionId);
    InitializedInv(l, receiver);
    EveryArrival(l, log, Texts(sends), s, arrivals, Unpacked(l.sessionId, bs));
    RawAsEnvelopes(l.p, s, bs);
    if receiver.skipped == l.stale {
      FirstCopiesOnly(l, log, Texts(sends), {}, s, arrivals, Unpacked(l.sessionId, bs));
      assert {} + l.stale.Keys == l.stale.Keys;
    }
  }

  /** The message keys that a run of sends derives. */
  function KeysUsed(p: Primitives, s: RatchetState, sends: seq<Sending>): (keys: seq<ByteString>)
    ensures |keys| == |sends|
  {
    if sends == [] then [] else
    var before := sends[..|sends| - 1];
    KeysUsed(p, s, before) + [MessageKey(p, Send(p, s, before).0.sendChain)]
  }

  lemma {:induction false} ChainSplits(p: Primitives, root: ByteString, n: nat, k: nat)
    ensures ChainAt(p, ChainAt(p, root, n), k) == ChainAt(p, root, n + k)
  {
    if k > 0 {
      ChainSplits(p, root, n, k - 1);
    }
  }

  lemma {:induction false} SendWalks(p: Primitives, s: RatchetState, sends: seq<Sending>)
    ensures Send(p, s, sends).0.sendChain == ChainAt(p, s.sendChain, |sends|)
  {
    if sends != [] {
      SendWalks(p, s, sends[..|sends| - 1]);
    }
  }

  /** Each envelope is sealed with the key of its position, which is the next one of the chain from where the run
      starts. */
  lemma {:induction false} SealedWithKeysUsed(
    p: Primitives, root: ByteString, n: nat, s: RatchetState, sends: seq<Sending>, k: nat)
    requires s.sendChain == ChainAt(p, root, n) && k < |sends|
    ensures KeysUsed(p, s, sends)[k] == KeyAt(p, root, n + k)
    ensures var e := Send(p, s, sends).1[k];
            e.ciphertext == p.seal(KeysUsed(p, s, sends)[k], sends[k].nonce, e.associatedData, sends[k].text)
  {
    hide ChainAt;
    var last := |sends| - 1;
    SendWalks(p, s, sends[..last]);
    ChainSplits(p, root, n, last);
    if k < last {
      SealedWithKeysUsed(p, root, n, s, sends[..last], k);
    }
  }

  /** Along one chain no key comes twice. */
  lemma KeysDistinct(l: Link, i: u32, j: u32)
    requires l.Usable() && l.used != {}
    ensures KeyAt(l.p, l.root, i) == KeyAt(l.p, l.root, j) <==> i == j
  {
    var lo, hi := if i < j then i else j, if i < j then j else i;
    if lo < hi {
      var d :| d in l.used;
      assert KeyShut(l, KeyAt(l.p, l.root, hi), lo);
      assert l.p.unseal(KeyAt(l.p, l.root, lo), Header(lo, l.peer), l.Ciphertext(lo, d)) == Some(d.text);
    }
  }

  /** A run of sends by some ratchet that stands at number `from` of a chain: since an initialization, an import of a
      state, or any other moment. `l` is its direction, whose root the chain starts from. */
  datatype SendRun = SendRun(l: Link, from: nat, s: RatchetState, sends: seq<Sending>) {
    ghost predicate Valid(p: Primitives) {
      && l.p == p && l.Usable() && s.sendChain == ChainAt(p, l.root, from)
      && from + |sends| < U32_LIMIT && Drafts(sends) <= l.used
    }

    function Keys(): seq<ByteString> {
      KeysUsed(l.p, s, sends)
    }
  }

  /** The keys of the chains that different runs use are separate. */
  ghost predicate Apart(a: SendRun, b: SendRun) {
    a.l.root != b.l.root ==> ChainShut(a.l, b.l.root)
  }

  lemma OffChainKey(l: Link, chain: ByteString, i: u32, j: u32)
    requires l.p.Sound() && l.used != {} && ChainShut(l, chain)
    ensures KeyAt(l.p, l.root, i) != KeyAt(l.p, chain, j)
  {
    hide KeyAt;
    var d :| d in l.used;
    assert KeyShut(l, KeyAt(l.p, chain, j), i);
    assert l.p.unseal(KeyAt(l.p, l.root, i), Header(i, l.peer), l.Ciphertext(i, d)) == Some(d.text);
  }

  lemma {:induction false} KeyOfRun(p: Primitives, a: SendRun, i: nat)
    requires a.Valid(p) && i < |a.sends|
    ensures a.Keys()[i] == KeyAt(p, a.l.root, a.from + i) && a.l.used != {}
  {
    hide KeyAt, ChainAt, KeysUsed, Send, KeysSeparate, StaleShut;
    SealedWithKeysUsed(p, a.l.root, a.from, a.s, a.sends, i);
    assert Draft(a.sends[i].nonce, a.sends[i].text) in Drafts(a.sends);
  }

  /** Two sends, of whatever sides and times, use the same key if and only if they use the same number of one chain. */
  lemma {:induction false} SameKeyIff(p: Primitives, a: SendRun, b: SendRun, i: nat, j: nat)
    requires a.Valid(p) && b.Valid(p) && Apart(a, b) && i < |a.sends| && j < |b.sends|
    ensures a.Keys()[i] == b.Keys()[j] <==> a.l.root == b.l.root && a.from + i == b.from + j
  {
    hide KeyAt, SendRun.Keys, ChainShut, KeysSeparate, StaleShut;
    KeyOfRun(p, a, i);
    KeyOfRun(p, b, j);
    if a.l.root == b.l.root {
      KeysDistinct(a.l, a.from + i, b.from + j);
    } else {
      OffChainKey(a.l, b.l.root, a.from + i, b.from + j);
    }
  }

  /** Both runs use some number of one chain. */
  predicate Overlap(a: SendRun, b: SendRun) {
    a.l.root == b.l.root && Max(a.from, b.from) < a.from + |a.sends| && Max(a.from, b.from) < b.from + |b.sends|
  }

  /** The two sides are at the same place of one chain, and nothing is skipped. */
  predicate InStep(a: RatchetState, b: RatchetState) {
    && a.sendChain == b.recvChain && a.sendNumber == b.recvNumber && b.skipped == map[]
    && a.sessionId == b.sessionId != [] && |a.dhPublic| == KEY_BYTES
    && (b.lastRemote == [] || b.lastRemote == a.dhPublic)
  }

  lemma StepsTogether(p: Primitives, a: RatchetState, b: RatchetState, m: Sending)
    requires p.Sound() && InStep(a, b)
    ensures var (a', e) := Encrypt(p, a, m.randomId, m.nonce, m.now, m.text);
            var (b', r) := Decrypt(p, b, e);
            r == Some(m.text) && InStep(a', b')
  {
    hide Header, ClaimedNumber;
    HeaderReads(a.sendNumber, a.dhPublic);
    var e := Encrypt(p, a, m.randomId, m.nonce, m.now, m.text).1;
    var met := b.(lastRemote := a.dhPublic);
    assert MeetPeer(p, b.(sessionId := e.sessionId), a.dhPublic) == Some(met);
    assert CatchUp(p, met, a.sendNumber) == met;
  }

  /** In order there is no bound: both 32-bit counters wrap together while the chain goes on, so any number of messages
      arrives that come in the order they were sent. */
  lemma {:induction false} InOrder(p: Primitives, a: RatchetState, b: RatchetState, sends: seq<Sending>)
    requires p.Sound() && InStep(a, b)
    ensures var (a', log) := Send(p, a, sends);
            var (b', got) := Receive(p, b, log);
            && InStep(a', b')
            && forall k :: 0 <= k < |sends| ==> got[k] == Some(sends[k].text)
  {
    hide Encrypt, Decrypt, InStep;
    if sends != [] {
      var last := |sends| - 1;
      InOrder(p, a, b, sends[..last]);
      var (a1, log) := Send(p, a, sends[..last]);
      var b1 := Receive(p, b, log).0;
      StepsTogether(p, a1, b1, sends[last]);
      assert Send(p, a, sends).1[..last] == log;
    }
  }

  /** What each envelope of a run carries: its number modulo 2^32, twice, and what it says of its sender. */
  lemma {:induction false} SentFields(p: Primitives, s: RatchetState, sends: seq<Sending>, k: nat)
    requires k < |sends| && s.sessionId != []
    ensures var e := Send(p, s, sends).1[k];
            var number := (s.sendNumber + k) % 0x1_0000_0000;
            && e.sessionId == s.sessionId && e.messageIndex == number && e.associatedData == Header(number, s.dhPublic)
            && e.previousCounter == s.recvNumber && e.timestamp == sends[k].now && e.senderDeviceId == [] && e.Bare()
  {
    var last := |sends| - 1;
    SendNumber(p, s, sends[..last]);
    if k < last {
      SentFields(p, s, sends[..last], k);
    }
  }

  lemma {:induction false} SendNumber(p: Primitives, s: RatchetState, sends: seq<Sending>)
    requires s.sessionId != []
    ensures var s' := Send(p, s, sends).0;
            && s'.sendNumber == (s.sendNumber + |sends|) % 0x1_0000_0000
            && s' == s.(sendChain := s'.sendChain, sendNumber := s'.sendNumber)
  {
    hide Send, Encrypt;
    if sends == [] {
      NothingSent(p, s);
    } else {
      var last := |sends| - 1;
      SendNumber(p, s, sends[..last]);
      SendNext(p, s, sends);
      EncryptNumber(p, Send(p, s, sends[..last]).0, sends[last]);
      NextNumber(s.sendNumber, last);
    }
  }

  lemma NothingSent(p: Primitives, s: RatchetState)
    ensures Send(p, s, []) == (s, [])
  {
  }

  lemma {:induction false} SendNext(p: Primitives, s: RatchetState, sends: seq<Sending>)
    requires sends != []
    ensures var m := sends[|sends| - 1];
            Send(p, s, sends).0
            == Encrypt(p, Send(p, s, sends[..|sends| - 1]).0, m.randomId, m.nonce, m.now, m.text).0
  {
  }

  lemma EncryptNumber(p: Primitives, s: RatchetState, m: Sending)
    requires s.sessionId != []
    ensures var s' := Encrypt(p, s, m.randomId, m.nonce, m.now, m.text).0;
            && s'.sendNumber == (s.sendNumber + 1) % 0x1_0000_0000
            && s' == s.(sendChain := s'.sendChain, sendNumber := s'.sendNumber)
  {
  }

  lemma NextNumber(start: u32, n: nat)
    ensures ((start + n) % 0x1_0000_0000 + 1) % 0x1_0000_0000 == (start + (n + 1)) % 0x1_0000_0000
  {
  }

  predicate Distinct<T(==)>(s: seq<T>) {
    forall i, j :: 0 <= i < j < |s| ==> s[i] != s[j]
  }

  predicate Disjoint<T(==)>(s: seq<T>, t: seq<T>) {
    forall i, j :: 0 <= i < |s| && 0 <= j < |t| ==> s[i] != t[j]
  }

  lemma {:induction false} DisjointIff(p: Primitives, a: SendRun, b: SendRun)
    requires a.Valid(p) && b.Valid(p) && Apart(a, b)
    ensures Disjoint(a.Keys(), b.Keys()) <==> !Overlap(a, b)
  {
    hide KeysUsed, SendRun.Valid, Apart;
    if Overlap(a, b) {
      var n := Max(a.from, b.from);
      SameKeyIff(p, a, b, n - a.from, n - b.from);
    } else {
      forall i, j | 0 <= i < |a.Keys()| && 0 <= j < |b.Keys()|
        ensures a.Keys()[i] != b.Keys()[j]
      {
        SameKeyIff(p, a, b, i, j);
      }
    }
  }

  lemma {:induction false} KeysOfOneRun(p: Primitives, a: SendRun)
    requires a.Valid(p)
    ensures Distinct(a.Keys())
  {
    hide KeysUsed, SendRun.Valid;
    forall i, j | 0 <= i < j < |a.Keys()|
      ensures a.Keys()[i] != a.Keys()[j]
    {
      SameKeyIff(p, a, a, i, j);
    }
  }

  function AllKeys(runs: seq<SendRun>): seq<ByteString> {
    if runs == [] then [] else AllKeys(runs[..|runs| - 1]) + runs[|runs| - 1].Keys()
  }

  lemma DistinctAppend<T>(s: seq<T>, t: seq<T>)
    ensures Distinct(s + t) <==> Distinct(s) && Distinct(t) && Disjoint(s, t)
  {
    var u := s + t;
    if Distinct(u) {
      forall i, j | 0 <= i < j < |t|
        ensures t[i] != t[j]
      {
        assert u[|s| + i] == t[i] && u[|s| + j] == t[j];
      }
      forall i, j | 0 <= i < |s| && 0 <= j < |t|
        ensures s[i] != t[j]
      {
        assert u[i] == s[i] && u[|s| + j] == t[j];
      }
      assert forall i :: 0 <= i < |s| ==> s[i] == u[i];
    }
  }

  lemma DisjointAppend<T>(s: seq<T>, t: seq<T>, u: seq<T>)
    ensures Disjoint(s + t, u) <==> Disjoint(s, u) && Disjoint(t, u)
  {
    if Disjoint(s + t, u) {
      assert forall i :: 0 <= i < |s| ==> s[i] == (s + t)[i];
      forall i, j | 0 <= i < |t| && 0 <= j < |u|
        ensures t[i] != u[j]
      {
        assert (s + t)[|s| + i] == t[i];
      }
    }
  }

  lemma {:induction false} AllDisjointIff(p: Primitives, runs: seq<SendRun>, b: SendRun)
    requires b.Valid(p) && forall k :: 0 <= k < |runs| ==> runs[k].Valid(p) && Apart(runs[k], b)
    ensures Disjoint(AllKeys(runs), b.Keys()) <==> forall k :: 0 <= k < |runs| ==> !Overlap(runs[k], b)
  {
    hide KeysUsed, SendRun.Valid, Apart, Overlap, Disjoint;
    if runs == [] {
      NothingDisjoint(b.Keys());
    } else {
      var last := |runs| - 1;
      AllDisjointIff(p, runs[..last], b);
      DisjointIff(p, runs[last], b);
      DisjointAppend(AllKeys(runs[..last]), runs[last].Keys(), b.Keys());
    }
  }

  lemma NothingDisjoint<T>(s: seq<T>)
    ensures Disjoint([], s)
  {
  }

  /** Over any number of runs of sends, by either side of any session: no message key is used twice if and only if no
      two of the runs use a common number of one chain. */
  lemma {:induction false} KeysUniqueIff(p: Primitives, runs: seq<SendRun>)
    requires forall k :: 0 <= k < |runs| ==> runs[k].Valid(p)
    requires forall j, k :: 0 <= j < k < |runs| ==> Apart(runs[j], runs[k])
    ensures Distinct(AllKeys(runs)) <==> forall j, k :: 0 <= j < k < |runs| ==> !Overlap(runs[j], runs[k])
  {
    hide KeysUsed, SendRun.Valid, Apart, Overlap, Disjoint;
    if runs != [] {
      var last := |runs| - 1;
      var before := runs[..last];
      KeysUniqueIff(p, before);
      AllDisjointIff(p, before, runs[last]);
      KeysOfOneRun(p, runs[last]);
      DistinctAppend(AllKeys(before), runs[last].Keys());
      assert (forall j, k :: 0 <= j < k < |runs| ==> !Overlap(runs[j], runs[k]))
             <==> (forall j, k :: 0 <= j < k < last ==> !Overlap(before[j], before[k]))
                  && forall j :: 0 <= j < last ==> !Overlap(before[j], runs[last]);
    }
  }
}
