/** Two dispatchers over a network that may reorder, drop, duplicate and reflect packets, against a mailbox that
    delivers every message at most once and never alters one. */
module Network {
  import opened Bytes
  import opened Crypto
  import opened Envelopes
  import opened RatchetSession
  import opened Delivery
  import opened Foreign
  import opened Kept
  import opened Dispatch

  datatype Side = Alice | Bob

  function Other(side: Side): Side {
    if side.Alice? then Bob else Alice
  }

  datatype Duo<T> = Duo(alice: T, bob: T) {
    function At(side: Side): T {
      if side.Alice? then alice else bob
    }

    function With(side: Side, x: T): Duo<T> {
      if side.Alice? then Duo(x, bob) else Duo(alice, x)
    }
  }

  /** What the two ends share: device ids, the root key, each end's public key, and what either ever seals. */
  datatype Setup = Setup(
    p: Primitives, root: ByteString, ids: Duo<ByteString>, keys: Duo<ByteString>, used: set<Draft>)
  {
    ghost predicate Good() {
      && p.Sound() && KeysSeparate(From(Alice)) && KeysSeparate(From(Bob)) && |root| == KEY_BYTES
      && ids.alice != ids.bob && |ids.alice| < U32_LIMIT && |ids.bob| < U32_LIMIT
      && |keys.alice| == |keys.bob| == KEY_BYTES
    }

    /** The direction whose sender is `from`. */
    function From(from: Side): Link
      requires p.HmacSized()
    {
      Link(p, root, SessionId(p, ids.alice, ids.bob, root), keys.At(from), used, map[])
    }
  }

  lemma LinksUsable(c: Setup, from: Side)
    requires c.Good()
    ensures c.From(from).Usable() && |c.From(from).sessionId| == 16
  {
    SessionIdsAgree(c.p, c.ids.alice, c.ids.bob, c.root);
  }

  /** A dispatcher with a session for the peer, `sent` messages into it and with the peer's messages in `seen`
      accepted. It may have sessions for others, but none for itself. */
  ghost predicate EndInv(c: Setup, side: Side, sent: nat, seen: set<nat>, d: DispatcherState)
    requires c.p.HmacSized()
  {
    var peer := c.ids.At(Other(side));
    && d.deviceId == c.ids.At(side) && d.deviceId !in d.sessions
    && peer in d.sessions && d.sessions[peer].initialized
    && d.sessions[peer].ratchet.rootKey == c.root
    && SenderInv(c.From(side), sent, d.sessions[peer].ratchet)
    && ReceiverInv(c.From(Other(side)), seen, d.sessions[peer].ratchet)
  }

  ghost predicate PacketOf(c: Setup, from: Side, i: u32, text: ByteString, e: Envelope)
    requires c.p.HmacSized()
  {
    && e.WellSized() && e.Bare()
    && e.senderDeviceId == c.ids.At(from) && e.messageIndex == i
    && IsMessage(c.From(from), i, e, text)
  }

  ghost predicate Packet(c: Setup, from: Side, i: u32, text: ByteString, bytes: ByteString)
    requires c.p.HmacSized()
  {
    exists e :: PacketOf(c, from, i, text, e) && bytes == Encode(e)
  }

  /** The largest plaintext whose ciphertext length still fits the codec's 32-bit prefix. */
  predicate Fits(text: ByteString) {
    |text| + NONCE_BYTES + TAG_BYTES < U32_LIMIT
  }

  /** Encrypting touches nothing that receiving looks at. */
  lemma EncryptedFor(
    c: Setup, side: Side, sent: nat, seen: set<nat>, d: DispatcherState, nonce: ByteString, now: u64, text: ByteString)
    requires c.Good() && EndInv(c, side, sent, seen, d)
    ensures var s := d.sessions[c.ids.At(Other(side))].ratchet;
            ReceiverInv(c.From(Other(side)), seen, Encrypt(c.p, s, [], nonce, now, text).0)
  {
    LinksUsable(c, side);
    hide Keeps, KeysSeparate;
  }

  lemma SendsPacket(
    c: Setup, side: Side, sent: nat, seen: set<nat>, d: DispatcherState, nonce: ByteString, now: u64, text: ByteString)
    requires c.Good() && EndInv(c, side, sent, seen, d)
    requires sent + 1 < U32_LIMIT && Fits(text) && Draft(nonce, text) in c.used
    ensures var peer := c.ids.At(Other(side));
            var (d', out) := SendMessage(c.p, d, peer, nonce, now, text);
            && out.Some? && Packet(c, side, sent, text, out.value) && EndInv(c, side, sent + 1, seen, d')
            && d'.listening == d.listening
            && d'.sessions[peer].ratchet.recvNumber == d.sessions[peer].ratchet.recvNumber
  {
    hide KeysSeparate, Encode, ReceiverInv, OnChain;
    LinksUsable(c, side);
    var s := d.sessions[c.ids.At(Other(side))].ratchet;
    EncryptMessage(c.From(side), sent, s, [], nonce, now, text);
    HeaderReads(sent, s.dhPublic);
    var e := Encrypt(c.p, s, [], nonce, now, text).1.(senderDeviceId := d.deviceId);
    assert PacketOf(c, side, sent, text, e);
    EncryptedFor(c, side, sent, seen, d, nonce, now, text);
  }

  /** What a packet carries besides: how far its sender has received, and the time. */
  lemma SentFields(
    c: Setup, side: Side, sent: nat, seen: set<nat>, d: DispatcherState, nonce: ByteString, now: u64, text: ByteString)
    requires c.Good() && EndInv(c, side, sent, seen, d)
    requires sent + 1 < U32_LIMIT && Fits(text) && Draft(nonce, text) in c.used
    ensures var peer := c.ids.At(Other(side));
            var out := SendMessage(c.p, d, peer, nonce, now, text).1;
            && out.Some? && Parse(out.value).Some?
            && var e := Parse(out.value).value;
               e.messageIndex == sent && e.previousCounter == d.sessions[peer].ratchet.recvNumber && e.timestamp == now
  {
    hide KeysSeparate, Encode, Parse, ReceiverInv, OnChain;
    LinksUsable(c, side);
    var s := d.sessions[c.ids.At(Other(side))].ratchet;
    EncryptMessage(c.From(side), sent, s, [], nonce, now, text);
    HeaderReads(sent, s.dhPublic);
    RoundTripIff(Encrypt(c.p, s, [], nonce, now, text).1.(senderDeviceId := d.deviceId));
  }

  lemma AcceptsNewPacket(
    c: Setup, side: Side, sent: nat, seen: set<nat>, d: DispatcherState, i: u32, text: ByteString, bytes: ByteString)
    requires c.Good() && EndInv(c, side, sent, seen, d) && i + 1 < U32_LIMIT
    requires Packet(c, Other(side), i, text, bytes)
    ensures var peer := c.ids.At(Other(side));
            var (d', inbound) := OnRaw(c.p, d, bytes);
            && EndInv(c, side, sent, seen + {i}, d') && d'.listening == d.listening
            && inbound == (if d.listening && i !in seen
                           then Some(Parse(bytes).value.(ciphertext := text)) else None)
            && d'.sessions[peer].ratchet.recvNumber == Max(d.sessions[peer].ratchet.recvNumber, i + 1)
    ensures Parse(bytes).Some? && PacketOf(c, Other(side), i, text, Parse(bytes).value)
  {
    hide KeysSeparate, Encode, Decrypt, IsMessage;
    LinksUsable(c, Other(side));
    var e :| PacketOf(c, Other(side), i, text, e) && bytes == Encode(e);
    RoundTripIff(e);
    DecryptMessage(c.From(Other(side)), seen, d.sessions[c.ids.At(Other(side))].ratchet, i, e, text);
  }

  /** A message that arrives before set_on_inbound is consumed all the same: no later copy of it is told. */
  lemma LostBeforeCallback(
    c: Setup, side: Side, sent: nat, seen: set<nat>, d: DispatcherState, i: u32, text: ByteString, bytes: ByteString)
    requires c.Good() && EndInv(c, side, sent, seen, d) && i + 1 < U32_LIMIT
    requires Packet(c, Other(side), i, text, bytes) && !d.listening
    ensures var (d1, first) := OnRaw(c.p, d, bytes);
            first == None && OnRaw(c.p, d1.(listening := true), bytes).1 == None
  {
    hide OnRaw, Packet;
    AcceptsNewPacket(c, side, sent, seen, d, i, text, bytes);
    var d1 := OnRaw(c.p, d, bytes).0;
    assert EndInv(c, side, sent, seen + {i}, d1.(listening := true));
    AcceptsNewPacket(c, side, sent, seen + {i}, d1.(listening := true), i, text, bytes);
  }

  /** A packet that comes back to its sender finds no session and changes nothing. */
  lemma IgnoresOwnPacket(
    c: Setup, side: Side, sent: nat, seen: set<nat>, d: DispatcherState, i: u32, text: ByteString, bytes: ByteString)
    requires c.Good() && EndInv(c, side, sent, seen, d)
    requires Packet(c, side, i, text, bytes)
    ensures OnRaw(c.p, d, bytes) == (d, None)
  {
    var e :| PacketOf(c, side, i, text, e) && bytes == Encode(e);
    RoundTripIff(e);
  }

  /** Bytes that do the session with the peer no harm: no envelope, one that names somebody else, whether there is a
      session for them or not, or junk for the session. */
  ghost predicate Harmless(c: Setup, side: Side, bytes: ByteString)
    requires c.p.HmacSized()
  {
    match Parse(bytes)
    case None => true
    case Some(e) => e.senderDeviceId != c.ids.At(Other(side)) || IsJunk(c.From(Other(side)), e)
  }

  lemma IgnoresHarmless(c: Setup, side: Side, sent: nat, seen: set<nat>, d: DispatcherState, bytes: ByteString)
    requires c.Good() && EndInv(c, side, sent, seen, d) && Harmless(c, side, bytes)
    ensures var (d', inbound) := OnRaw(c.p, d, bytes);
            && EndInv(c, side, sent, seen, d') && d'.listening == d.listening
            && (inbound.Some? ==> inbound.value.senderDeviceId != c.ids.At(Other(side)))
  {
    hide Parse, Decrypt, IsJunk, KeysSeparate;
    var peer := c.ids.At(Other(side));
    LinksUsable(c, Other(side));
    if Parse(bytes).Some? && Parse(bytes).value.senderDeviceId == peer {
      DecryptJunk(c.From(Other(side)), seen, d.sessions[peer].ratchet, Parse(bytes).value);
    }
  }

  /** What the inbound callback is told. */
  datatype Notice = Notice(sender: ByteString, index: nat, text: ByteString)

  function NewsOf(inbound: Option<Envelope>): seq<Notice> {
    match inbound
    case None => []
    case Some(e) => [Notice(e.senderDeviceId, e.messageIndex, e.ciphertext)]
  }

  /** The index, counter and time of a packet are outside the seal: whatever they are rewritten to, the packet is taken
      exactly if it is new, and the callback is told the index that is written on it. */
  lemma RewrittenIndexReported(
    c: Setup, side: Side, sent: nat, seen: set<nat>, d: DispatcherState, i: u32, text: ByteString, e: Envelope,
    index: u32, counter: u32, time: u64)
    requires c.Good() && EndInv(c, side, sent, seen, d) && i + 1 < U32_LIMIT
    requires PacketOf(c, Other(side), i, text, e)
    ensures var e' := e.(messageIndex := index, previousCounter := counter, timestamp := time);
            var (d', inbound) := OnRaw(c.p, d, Encode(e'));
            && EndInv(c, side, sent, seen + {i}, d')
            && NewsOf(inbound)
               == if i in seen || !d.listening then [] else [Notice(c.ids.At(Other(side)), index, text)]
  {
    hide Decrypt, KeysSeparate, Encode, IsMessage;
    LinksUsable(c, Other(side));
    var e' := e.(messageIndex := index, previousCounter := counter, timestamp := time);
    SealUntouched(c.From(Other(side)), i, e, e', text);
    RoundTripIff(e');
    DecryptMessage(c.From(Other(side)), seen, d.sessions[c.ids.At(Other(side))].ratchet, i, e', text);
  }

  lemma SealUntouched(l: Link, i: u32, e: Envelope, e': Envelope, text: ByteString)
    requires IsMessage(l, i, e, text)
    requires e' == e.(messageIndex := e'.messageIndex, previousCounter := e'.previousCounter, timestamp := e'.timestamp)
    ensures IsMessage(l, i, e', text)
  {
  }

  /** create_session_with for a session that is there already, with the same root: the skipped keys stay, so from then
      on messages arrive exactly once if and only if those of the numbers passed so far had all been accepted. */
  lemma RecreatedSession(c: Setup, side: Side, sent: nat, seen: set<nat>, d: DispatcherState, priv: ByteString, n: nat)
    requires c.Good() && EndInv(c, side, sent, seen, d)
    ensures var peer, l := c.ids.At(Other(side)), c.From(Other(side));
            var (d', ok) := CreateSession(c.p, d, peer, c.root, priv);
            && ok && peer in d'.sessions
            && var was, s := d.sessions[peer].ratchet, d'.sessions[peer].ratchet;
               && OnChain(l, s) && s.recvNumber == 0 && s.skipped == was.skipped
               && (NoneAhead(l, s, n) <==> forall i: nat :: i < n && i < was.recvNumber ==> i in seen)
  {
    hide KeyAt, KeysSeparate;
    SessionIdsAgree(c.p, c.ids.alice, c.ids.bob, c.root);
  }

  /** A packet as the network may rewrite it: the sender field is not authenticated. */
  ghost predicate Forged(c: Setup, side: Side, i: u32, text: ByteString, bytes: ByteString)
    requires c.p.HmacSized()
  {
    exists e :: PacketOf(c, side, i, text, e) && bytes == Encode(e.(senderDeviceId := c.ids.At(Other(side))))
  }

  /** A side's own packet with the peer's id put in its sender field: the side takes it for a message of the peer
      exactly if it has accepted no message of that number and either has met no key of the peer yet, or keeps the
      skipped key of that number and can compute the shared secret with its own key. */
  lemma ForgedSenderOpensIff(
    c: Setup, side: Side, sent: nat, seen: set<nat>, d: DispatcherState, i: u32, text: ByteString, bytes: ByteString)
    requires c.Good() && EndInv(c, side, sent, seen, d) && i + 1 < U32_LIMIT && c.keys.alice != c.keys.bob
    requires Forged(c, side, i, text, bytes)
    requires var s := d.sessions[c.ids.At(Other(side))].ratchet;
             s.lastRemote != [] ==> ReturnShut(c.From(side), s)
    ensures var s := d.sessions[c.ids.At(Other(side))].ratchet;
            var opens := d.listening && i !in seen
                         && (s.lastRemote == [] || (i < s.recvNumber && c.p.dh(s.dhPrivate, s.dhPublic).Some?));
            NewsOf(OnRaw(c.p, d, bytes).1) == if opens then [Notice(c.ids.At(Other(side)), i, text)] else []
  {
    hide Decrypt, KeysSeparate, ChainShut, Encode;
    var peer := c.ids.At(Other(side));
    LinksUsable(c, side);
    var e :| PacketOf(c, side, i, text, e) && bytes == Encode(e.(senderDeviceId := peer));
    var forged := e.(senderDeviceId := peer);
    RoundTripIff(forged);
    assert IsMessage(c.From(side), i, forged, text);
    ReflectionOpensIff(c.From(Other(side)), c.From(side), seen, d.sessions[peer].ratchet, i, forged, text);
  }

  /** What a side does that concerns others than its peer. */
  datatype Act =
    | Open(remote: ByteString, root: ByteString, priv: ByteString)
    | Write(remote: ByteString, nonce: ByteString, now: u64, text: ByteString)

  datatype Step =
    | Send(side: Side, nonce: ByteString, now: u64, text: ByteString)
    | Deliver(side: Side, packet: nat)
    | Inject(side: Side, bytes: ByteString)
    | Aside(side: Side, act: Act)

  function Acted(p: Primitives, d: DispatcherState, act: Act): DispatcherState
    requires p.HmacSized()
  {
    match act
    case Open(remote, root, priv) => CreateSession(p, d, remote, root, priv).0
    case Write(remote, nonce, now, text) => SendMessage(p, d, remote, nonce, now, text).0
  }

  /** Two dispatchers, every packet that one has sent to the other, and what each callback was told. The network may
      hand any packet to either side, any number of times, in any order, or never, and bytes of its own or of others. */
  datatype System = System(ends: Duo<DispatcherState>, wire: seq<ByteString>, inbox: Duo<seq<Notice>>)

  function Next(p: Primitives, ids: Duo<ByteString>, s: System, step: Step): System
    requires p.HmacSized()
  {
    match step
    case Send(side, nonce, now, text) =>
      var (d, out) := SendMessage(p, s.ends.At(side), ids.At(Other(side)), nonce, now, text);
      s.(ends := s.ends.With(side, d), wire := if out.Some? then s.wire + [out.value] else s.wire)
    case Deliver(side, k) =>
      if k >= |s.wire| then s else HandUp(p, s, side, s.wire[k])
    case Inject(side, bytes) => HandUp(p, s, side, bytes)
    case Aside(side, act) => s.(ends := s.ends.With(side, Acted(p, s.ends.At(side), act)))
  }

  function HandUp(p: Primitives, s: System, side: Side, bytes: ByteString): System
    requires p.HmacSized()
  {
    var (d, inbound) := OnRaw(p, s.ends.At(side), bytes);
    s.(ends := s.ends.With(side, d), inbox := s.inbox.With(side, s.inbox.At(side) + NewsOf(inbound)))
  }

  function Run(p: Primitives, ids: Duo<ByteString>, s: System, steps: seq<Step>): System
    requires p.HmacSized()
  {
    if steps == [] then s else Next(p, ids, Run(p, ids, s, steps[..|steps| - 1]), steps[|steps| - 1])
  }

  /** register_device, set_on_inbound and create_session_with on a dispatcher that may have sessions for others. */
  function OpenEnd(
    p: Primitives, own: ByteString, remote: ByteString, root: ByteString, priv: ByteString,
    others: map<ByteString, Session>): DispatcherState
    requires p.HmacSized()
  {
    CreateSession(p, DispatcherState(own, others, true), remote, root, priv).0
  }

  function Start(
    p: Primitives, ids: Duo<ByteString>, root: ByteString, privs: Duo<ByteString>,
    others: Duo<map<ByteString, Session>>): System
    requires p.HmacSized()
  {
    System(
      Duo(OpenEnd(p, ids.alice, ids.bob, root, privs.alice, others.alice),
          OpenEnd(p, ids.bob, ids.alice, root, privs.bob, others.bob)),
      [], Duo([], []))
  }

  /** The sessions that are there already are for neither of the two. */
  predicate ForOthers(ids: Duo<ByteString>, others: Duo<map<ByteString, Session>>) {
    && ids.alice !in others.alice && ids.bob !in others.alice
    && ids.alice !in others.bob && ids.bob !in others.bob
  }

  /** The mailbox: no keys, no counters, no packets, only who sent what and what has been delivered. */
  datatype Tag = Tag(from: Side, index: nat)

  datatype Mail = Mail(sent: Duo<seq<ByteString>>, wire: seq<Tag>, seen: Duo<set<nat>>, inbox: Duo<seq<Notice>>)

  predicate IsNews(m: Mail, side: Side, k: nat) {
    k < |m.wire| && m.wire[k].from == Other(side)
    && m.wire[k].index !in m.seen.At(side) && m.wire[k].index < |m.sent.At(Other(side))|
  }

  function MailNext(ids: Duo<ByteString>, m: Mail, step: Step): Mail {
    match step
    case Send(side, _, _, text) =>
      m.(sent := m.sent.With(side, m.sent.At(side) + [text]), wire := m.wire + [Tag(side, |m.sent.At(side)|)])
    case Deliver(side, k) =>
      if !IsNews(m, side, k) then m else
      var i := m.wire[k].index;
      m.(seen := m.seen.With(side, m.seen.At(side) + {i}),
         inbox := m.inbox.With(side, m.inbox.At(side) + [Notice(ids.At(Other(side)), i, m.sent.At(Other(side))[i])]))
    case Inject(_, _) => m
    case Aside(_, _) => m
  }

  function MailRun(ids: Duo<ByteString>, steps: seq<Step>): Mail {
    if steps == [] then Mail(Duo([], []), [], Duo({}, {}), Duo([], []))
    else MailNext(ids, MailRun(ids, steps[..|steps| - 1]), steps[|steps| - 1])
  }

  /** In the mailbox a callback fires at most once per message of the peer, with the text that was sent. */
  ghost predicate ExactlyOnce(ids: Duo<ByteString>, m: Mail, side: Side) {
    ToldOnce(ids, side, m.sent.At(Other(side)), m.seen.At(side), m.inbox.At(side))
  }

  ghost predicate ToldOnce(ids: Duo<ByteString>, side: Side, sent: seq<ByteString>, seen: set<nat>, got: seq<Notice>) {
    && (forall j :: 0 <= j < |got| ==>
          && got[j].sender == ids.At(Other(side))
          && got[j].index in seen
          && got[j].index < |sent|
          && got[j].text == sent[got[j].index])
    && (forall i, j :: 0 <= i < j < |got| ==> got[i].index != got[j].index)
    && (forall i :: i in seen ==> exists j :: 0 <= j < |got| && got[j].index == i)
  }

  /** One more notice, of a message not told before. */
  lemma NewsKeepsOnce(ids: Duo<ByteString>, m: Mail, side: Side, k: nat)
    requires ExactlyOnce(ids, m, side) && IsNews(m, side, k)
    ensures ExactlyOnce(ids, MailNext(ids, m, Deliver(side, k)), side)
  {
    var m' := MailNext(ids, m, Deliver(side, k));
    var got, n := m.inbox.At(side), m.wire[k].index;
    var one := Notice(ids.At(Other(side)), n, m.sent.At(Other(side))[n]);
    assert m'.inbox.At(side) == got + [one] && m'.seen.At(side) == m.seen.At(side) + {n} && m'.sent == m.sent;
    ToldOnceMore(ids, side, m.sent.At(Other(side)), m.seen.At(side), got, one);
  }

  lemma ToldOnceMore(
    ids: Duo<ByteString>, side: Side, sent: seq<ByteString>, seen: set<nat>, got: seq<Notice>, one: Notice)
    requires ToldOnce(ids, side, sent, seen, got)
    requires one.index < |sent| && one.index !in seen && one == Notice(ids.At(Other(side)), one.index, sent[one.index])
    ensures ToldOnce(ids, side, sent, seen + {one.index}, got + [one])
  {
    forall i | i in seen + {one.index}
      ensures exists j :: 0 <= j < |got + [one]| && (got + [one])[j].index == i
    {
      if i == one.index {
        assert (got + [one])[|got|].index == i;
      } else {
        var j :| 0 <= j < |got| && got[j].index == i;
        assert (got + [one])[j].index == i;
      }
    }
  }

  lemma OtherStepsKeepOnce(ids: Duo<ByteString>, m: Mail, side: Side, step: Step)
    requires ExactlyOnce(ids, m, side) && !(step.Deliver? && step.side == side && IsNews(m, side, step.packet))
    ensures ExactlyOnce(ids, MailNext(ids, m, step), side)
  {
    var m' := MailNext(ids, m, step);
    assert m'.inbox.At(side) == m.inbox.At(side) && m'.seen.At(side) == m.seen.At(side);
    assert m.sent.At(Other(side)) <= m'.sent.At(Other(side));
  }

  /** Some step of the run hands the peer's i-th packet to `side`. */
  ghost predicate HandedOver(ids: Duo<ByteString>, steps: seq<Step>, side: Side, i: nat) {
    exists k :: 0 <= k < |steps| && HandsOver(MailRun(ids, steps[..k]), steps[k], side, i)
  }

  predicate HandsOver(m: Mail, step: Step, side: Side, i: nat) {
    step.Deliver? && step.side == side && step.packet < |m.wire| && m.wire[step.packet] == Tag(Other(side), i)
  }

  lemma HandedOverGrows(ids: Duo<ByteString>, steps: seq<Step>, side: Side, i: nat)
    requires steps != []
    ensures var last := |steps| - 1;
            HandedOver(ids, steps, side, i)
            <==> HandedOver(ids, steps[..last], side, i) || HandsOver(MailRun(ids, steps[..last]), steps[last], side, i)
  {
    hide MailRun, HandsOver;
    var last := |steps| - 1;
    assert forall k :: 0 <= k < last ==> steps[..last][..k] == steps[..k] && steps[..last][k] == steps[k];
    if k :| 0 <= k < |steps| && HandsOver(MailRun(ids, steps[..k]), steps[k], side, i) {
      assert k < last ==> HandsOver(MailRun(ids, steps[..last][..k]), steps[..last][k], side, i);
    }
    if k :| 0 <= k < last && HandsOver(MailRun(ids, steps[..last][..k]), steps[..last][k], side, i) {
      assert HandsOver(MailRun(ids, steps[..k]), steps[k], side, i);
    }
  }

  predicate IsSent(sent: Duo<seq<ByteString>>, t: Tag) {
    t.index < |sent.At(t.from)|
  }

  lemma {:induction false} WireIsSent(ids: Duo<ByteString>, steps: seq<Step>, k: nat)
    requires k < |MailRun(ids, steps).wire|
    ensures IsSent(MailRun(ids, steps).sent, MailRun(ids, steps).wire[k])
  {
    var before := steps[..|steps| - 1];
    if k < |MailRun(ids, before).wire| {
      WireIsSent(ids, before, k);
    }
  }

  /** Every message of the peer that was handed over at least once is told exactly once, and no other is. */
  lemma MailboxDeliversOnce(ids: Duo<ByteString>, steps: seq<Step>, side: Side)
    ensures ExactlyOnce(ids, MailRun(ids, steps), side)
    ensures forall i: nat :: i in MailRun(ids, steps).seen.At(side) <==> HandedOver(ids, steps, side, i)
  {
    hide HandedOver;
    MailboxTellsOnce(ids, steps, side);
    forall i: nat
      ensures i in MailRun(ids, steps).seen.At(side) <==> HandedOver(ids, steps, side, i)
    {
      SeenIffHandedOver(ids, steps, side, i);
    }
  }

  lemma {:induction false} SeenIffHandedOver(ids: Duo<ByteString>, steps: seq<Step>, side: Side, i: nat)
    ensures i in MailRun(ids, steps).seen.At(side) <==> HandedOver(ids, steps, side, i)
  {
    if steps != [] {
      var before := steps[..|steps| - 1];
      SeenIffHandedOver(ids, before, side, i);
      HandedOverGrows(ids, steps, side, i);
      if steps[|steps| - 1].Deliver? && steps[|steps| - 1].packet < |MailRun(ids, before).wire| {
        WireIsSent(ids, before, steps[|steps| - 1].packet);
      }
    }
  }

  lemma {:induction false} MailboxTellsOnce(ids: Duo<ByteString>, steps: seq<Step>, side: Side)
    ensures ExactlyOnce(ids, MailRun(ids, steps), side)
  {
    if steps != [] {
      var m, step := MailRun(ids, steps[..|steps| - 1]), steps[|steps| - 1];
      MailboxTellsOnce(ids, steps[..|steps| - 1], side);
      if step.Deliver? && step.side == side && IsNews(m, side, step.packet) {
        NewsKeepsOnce(ids, m, side, step.packet);
      } else {
        OtherStepsKeepOnce(ids, m, side, step);
      }
    }
  }

  /** Of what a callback was told, what came from `sender`. */
  function From(inbox: seq<Notice>, sender: ByteString): seq<Notice> {
    if inbox == [] then [] else
    var last := |inbox| - 1;
    From(inbox[..last], sender) + if inbox[last].sender == sender then [inbox[last]] else []
  }

  lemma FromMore(inbox: seq<Notice>, inbound: Option<Envelope>, sender: ByteString)
    ensures From(inbox + NewsOf(inbound), sender)
            == From(inbox, sender)
               + if inbound.Some? && inbound.value.senderDeviceId == sender then NewsOf(inbound) else []
  {
    if inbound.Some? {
      assert (inbox + NewsOf(inbound))[..|inbox|] == inbox;
    } else {
      assert inbox + [] == inbox && From(inbox, sender) + [] == From(inbox, sender);
    }
  }

  ghost predicate Refines(c: Setup, s: System, m: Mail)
    requires c.p.HmacSized()
  {
    && (forall side :: SideRefines(c, side, m, s.ends.At(side), s.inbox.At(side)))
    && |s.wire| == |m.wire|
    && (forall k :: 0 <= k < |m.wire| ==> Tagged(c, m, m.wire[k], s.wire[k]))
  }

  ghost predicate SideRefines(c: Setup, side: Side, m: Mail, d: DispatcherState, inbox: seq<Notice>)
    requires c.p.HmacSized()
  {
    && EndInv(c, side, |m.sent.At(side)|, m.seen.At(side), d) && d.listening
    && From(inbox, c.ids.At(Other(side))) == m.inbox.At(side)
  }

  ghost predicate Tagged(c: Setup, m: Mail, t: Tag, bytes: ByteString)
    requires c.p.HmacSized()
  {
    && t.index < |m.sent.At(t.from)| < U32_LIMIT
    && Packet(c, t.from, t.index, m.sent.At(t.from)[t.index], bytes)
  }

  /** The mailbox after one more text of `side`. */
  function Posted(m: Mail, side: Side, text: ByteString): Mail {
    var sent := m.sent.At(side);
    m.(sent := m.sent.With(side, sent + [text]), wire := m.wire + [Tag(side, |sent|)])
  }

  /** A send leaves the earlier packets what they were. */
  lemma StillTagged(c: Setup, m: Mail, side: Side, text: ByteString, t: Tag, bytes: ByteString)
    requires c.p.HmacSized() && Tagged(c, m, t, bytes) && |m.sent.At(side)| + 1 < U32_LIMIT
    ensures Tagged(c, Posted(m, side, text), t, bytes)
  {
    hide Packet;
  }

  lemma PostKeepsWire(c: Setup, s: System, m: Mail, side: Side, text: ByteString, packet: ByteString)
    requires c.p.HmacSized() && Refines(c, s, m) && |m.sent.At(side)| + 1 < U32_LIMIT
    requires Packet(c, side, |m.sent.At(side)|, text, packet)
    ensures var m' := Posted(m, side, text);
            forall k :: 0 <= k < |m'.wire| ==> Tagged(c, m', m'.wire[k], (s.wire + [packet])[k])
  {
    hide EndInv, Packet;
    var m' := Posted(m, side, text);
    forall k | 0 <= k < |m.wire|
      ensures Tagged(c, m', m'.wire[k], (s.wire + [packet])[k])
    {
      StillTagged(c, m, side, text, m.wire[k], s.wire[k]);
    }
    assert Tagged(c, m', Tag(side, |m.sent.At(side)|), packet);
  }

  lemma PostRefines(c: Setup, s: System, m: Mail, side: Side, d: DispatcherState, text: ByteString, packet: ByteString)
    requires c.p.HmacSized() && Refines(c, s, m) && |m.sent.At(side)| + 1 < U32_LIMIT
    requires EndInv(c, side, |m.sent.At(side)| + 1, m.seen.At(side), d) && d.listening
    requires Packet(c, side, |m.sent.At(side)|, text, packet)
    ensures Refines(c, s.(ends := s.ends.With(side, d), wire := s.wire + [packet]), Posted(m, side, text))
  {
    hide EndInv, Packet, Tagged;
    PostKeepsWire(c, s, m, side, text, packet);
  }

  lemma SendRefines(c: Setup, s: System, m: Mail, step: Step)
    requires c.Good() && Refines(c, s, m)
    requires step.Send? && Fits(step.text) && |m.sent.At(step.side)| + 1 < U32_LIMIT
    requires Draft(step.nonce, step.text) in c.used
    ensures Refines(c, Next(c.p, c.ids, s, step), MailNext(c.ids, m, step))
  {
    hide EndInv, Packet, Tagged, SendMessage, KeysSeparate, Fits;
    var side := step.side;
    SendsPacket(c, side, |m.sent.At(side)|, m.seen.At(side), s.ends.At(side), step.nonce, step.now, step.text);
    var (d, out) := SendMessage(c.p, s.ends.At(side), c.ids.At(Other(side)), step.nonce, step.now, step.text);
    PostRefines(c, s, m, side, d, step.text, out.value);
  }

  /** What handing something up to `side` has to keep, if the mailbox changes on that side only. */
  lemma HandUpRefines(c: Setup, s: System, m: Mail, side: Side, bytes: ByteString, m': Mail)
    requires c.p.HmacSized() && Refines(c, s, m)
    requires m' == m.(seen := m.seen.With(side, m'.seen.At(side)), inbox := m.inbox.With(side, m'.inbox.At(side)))
    requires var (d, inbound) := OnRaw(c.p, s.ends.At(side), bytes);
             SideRefines(c, side, m', d, s.inbox.At(side) + NewsOf(inbound))
    ensures Refines(c, HandUp(c.p, s, side, bytes), m')
  {
    hide EndInv, Packet, OnRaw, From;
    var s' := HandUp(c.p, s, side, bytes);
    forall sd: Side
      ensures SideRefines(c, sd, m', s'.ends.At(sd), s'.inbox.At(sd))
    {
      if sd != side {
        assert SideRefines(c, sd, m, s.ends.At(sd), s.inbox.At(sd));
        assert m'.seen.At(sd) == m.seen.At(sd) && m'.inbox.At(sd) == m.inbox.At(sd);
      }
    }
    forall k | 0 <= k < |m.wire|
      ensures Tagged(c, m', m.wire[k], s.wire[k])
    {
      assert Tagged(c, m, m.wire[k], s.wire[k]);
    }
  }

  lemma DeliverRefines(c: Setup, s: System, m: Mail, step: Step)
    requires c.Good() && Refines(c, s, m) && step.Deliver?
    ensures Refines(c, Next(c.p, c.ids, s, step), MailNext(c.ids, m, step))
  {
    hide EndInv, Packet, OnRaw, From, KeysSeparate;
    var side, k := step.side, step.packet;
    if k < |s.wire| {
      var t, d, peer := m.wire[k], s.ends.At(side), c.ids.At(Other(side));
      assert Tagged(c, m, t, s.wire[k]) && SideRefines(c, side, m, d, s.inbox.At(side));
      var text := m.sent.At(t.from)[t.index];
      if t.from == side {
        IgnoresOwnPacket(c, side, |m.sent.At(side)|, m.seen.At(side), d, t.index, text, s.wire[k]);
      } else {
        AcceptsNewPacket(c, side, |m.sent.At(side)|, m.seen.At(side), d, t.index, text, s.wire[k]);
        if t.index in m.seen.At(side) {
          assert m.seen.At(side) + {t.index} == m.seen.At(side);
        }
      }
      FromMore(s.inbox.At(side), OnRaw(c.p, d, s.wire[k]).1, peer);
      assert From(s.inbox.At(side), peer) + [] == From(s.inbox.At(side), peer);
      HandUpRefines(c, s, m, side, s.wire[k], MailNext(c.ids, m, step));
    }
  }

  lemma InjectRefines(c: Setup, s: System, m: Mail, step: Step)
    requires c.Good() && Refines(c, s, m) && step.Inject? && Harmless(c, step.side, step.bytes)
    ensures Refines(c, Next(c.p, c.ids, s, step), MailNext(c.ids, m, step))
  {
    hide EndInv, Packet, OnRaw, Harmless, From, KeysSeparate;
    var side, d := step.side, s.ends.At(step.side);
    assert SideRefines(c, side, m, d, s.inbox.At(side));
    IgnoresHarmless(c, side, |m.sent.At(side)|, m.seen.At(side), d, step.bytes);
    FromMore(s.inbox.At(side), OnRaw(c.p, d, step.bytes).1, c.ids.At(Other(side)));
    assert m.inbox.At(side) + [] == m.inbox.At(side);
    HandUpRefines(c, s, m, side, step.bytes, m);
  }

  /** An act that concerns neither the peer nor, as a session, the side itself. */
  predicate Unrelated(c: Setup, side: Side, act: Act) {
    act.remote != c.ids.At(Other(side)) && (act.Open? ==> act.remote != c.ids.At(side))
  }

  lemma ActKeepsEnd(c: Setup, side: Side, sent: nat, seen: set<nat>, d: DispatcherState, act: Act)
    requires c.Good() && EndInv(c, side, sent, seen, d) && Unrelated(c, side, act)
    ensures EndInv(c, side, sent, seen, Acted(c.p, d, act)) && Acted(c.p, d, act).listening == d.listening
  {
    hide KeysSeparate, ReceiverInv, SenderInv, Initialize, Encrypt, Fresh;
  }

  lemma AsideRefines(c: Setup, s: System, m: Mail, step: Step)
    requires c.Good() && Refines(c, s, m) && step.Aside? && Unrelated(c, step.side, step.act)
    ensures Refines(c, Next(c.p, c.ids, s, step), MailNext(c.ids, m, step))
  {
    hide Packet, From, KeysSeparate, EndInv, Acted;
    var side := step.side;
    assert SideRefines(c, side, m, s.ends.At(side), s.inbox.At(side));
    ActKeepsEnd(c, side, |m.sent.At(side)|, m.seen.At(side), s.ends.At(side), step.act);
    forall k | 0 <= k < |m.wire|
      ensures Tagged(c, m, m.wire[k], s.wire[k])
    {
      assert Tagged(c, m, m.wire[k], s.wire[k]);
    }
  }

  function Sends(steps: seq<Step>, side: Side): nat {
    if steps == [] then 0 else
    var last := |steps| - 1;
    Sends(steps[..last], side) + if steps[last].Send? && steps[last].side == side then 1 else 0
  }

  /** Fewer than 2^32 messages each way, each of a size the codec can carry; what the network makes up is harmless. */
  ghost predicate WithinLimits(c: Setup, steps: seq<Step>)
    requires c.p.HmacSized()
  {
    && Sends(steps, Alice) < U32_LIMIT && Sends(steps, Bob) < U32_LIMIT
    && forall k :: 0 <= k < |steps| ==> Allowed(c, steps[k])
  }

  ghost predicate Allowed(c: Setup, step: Step)
    requires c.p.HmacSized()
  {
    match step
    case Send(_, nonce, _, text) => Fits(text) && Draft(nonce, text) in c.used
    case Deliver(_, _) => true
    case Inject(side, bytes) => Harmless(c, side, bytes)
    case Aside(side, act) => Unrelated(c, side, act)
  }

  lemma {:induction false} SendsGrow(c: Setup, steps: seq<Step>)
    requires c.p.HmacSized() && WithinLimits(c, steps) && steps != []
    ensures WithinLimits(c, steps[..|steps| - 1])
  {
    hide Allowed;
    assert forall k :: 0 <= k < |steps| - 1 ==> steps[..|steps| - 1][k] == steps[k];
  }

  lemma StepRefines(c: Setup, s: System, m: Mail, step: Step)
    requires c.Good() && Refines(c, s, m) && Allowed(c, step)
    requires step.Send? ==> |m.sent.At(step.side)| + 1 < U32_LIMIT
    ensures Refines(c, Next(c.p, c.ids, s, step), MailNext(c.ids, m, step))
  {
    hide Refines, Next, MailNext;
    match step
    case Send(_, _, _, _) => SendRefines(c, s, m, step);
    case Deliver(_, _) => DeliverRefines(c, s, m, step);
    case Inject(_, _) => InjectRefines(c, s, m, step);
    case Aside(_, _) => AsideRefines(c, s, m, step);
  }

  lemma {:induction false} RunRefines(c: Setup, s0: System, steps: seq<Step>)
    requires c.Good() && Refines(c, s0, MailRun(c.ids, [])) && WithinLimits(c, steps)
    ensures Refines(c, Run(c.p, c.ids, s0, steps), MailRun(c.ids, steps))
    ensures forall side :: |MailRun(c.ids, steps).sent.At(side)| == Sends(steps, side)
  {
    hide Refines, Next, Allowed;
    if steps != [] {
      var before, step := steps[..|steps| - 1], steps[|steps| - 1];
      SendsGrow(c, steps);
      RunRefines(c, s0, before);
      StepRefines(c, Run(c.p, c.ids, s0, before), MailRun(c.ids, before), step);
    }
  }

  function Drafted(steps: seq<Step>): set<Draft> {
    set step | step in steps && step.Send? :: Draft(step.nonce, step.text)
  }

  function SetupFor(
    p: Primitives, ids: Duo<ByteString>, root: ByteString, privs: Duo<ByteString>, used: set<Draft>): Setup
  {
    Setup(p, root, ids, Duo(p.publicKey(privs.alice), p.publicKey(privs.bob)), used)
  }

  lemma StartRefines(
    p: Primitives, ids: Duo<ByteString>, root: ByteString, privs: Duo<ByteString>, used: set<Draft>,
    others: Duo<map<ByteString, Session>>)
    requires SetupFor(p, ids, root, privs, used).Good() && ForOthers(ids, others)
    ensures Refines(SetupFor(p, ids, root, privs, used), Start(p, ids, root, privs, others), MailRun(ids, []))
  {
    var c := SetupFor(p, ids, root, privs, used);
    SessionIdsAgree(p, ids.alice, ids.bob, root);
    var s := Start(p, ids, root, privs, others);
    assert EndInv(c, Alice, 0, {}, s.ends.alice);
    assert EndInv(c, Bob, 0, {}, s.ends.bob);
  }

  /** Those a side opens sessions for, besides its peer. */
  function Opened(steps: seq<Step>, side: Side): set<ByteString> {
    set step | step in steps && step.Aside? && step.act.Open? && step.side == side :: step.act.remote
  }

  lemma OnRawFrame(p: Primitives, d: DispatcherState, bytes: ByteString)
    requires p.HmacSized()
    ensures var (d', inbound) := OnRaw(p, d, bytes);
            && d'.sessions.Keys == d.sessions.Keys
            && forall n :: n in NewsOf(inbound) ==> n.sender in d.sessions
  {
    hide Parse, Decrypt;
  }

  lemma ActedKeys(p: Primitives, d: DispatcherState, act: Act)
    requires p.HmacSized()
    ensures Acted(p, d, act).sessions.Keys == d.sessions.Keys + if act.Open? then {act.remote} else {}
  {
    hide Encrypt, Initialize, Fresh, SessionId, Encode;
  }

  lemma SendKeys(p: Primitives, d: DispatcherState, remote: ByteString, nonce: ByteString, now: u64, text: ByteString)
    ensures SendMessage(p, d, remote, nonce, now, text).0.sessions.Keys == d.sessions.Keys
  {
    hide Encrypt, Encode;
  }

  ghost predicate FromSessions(s: System, side: Side) {
    forall n :: n in s.inbox.At(side) ==> n.sender in s.ends.At(side).sessions
  }

  lemma NextOpens(p: Primitives, ids: Duo<ByteString>, s: System, step: Step, side: Side)
    requires p.HmacSized() && FromSessions(s, side)
    ensures var s' := Next(p, ids, s, step);
            && s'.ends.At(side).sessions.Keys
               == s.ends.At(side).sessions.Keys
                  + (if step.Aside? && step.act.Open? && step.side == side then {step.act.remote} else {})
            && FromSessions(s', side)
  {
    hide OnRaw, SendMessage, Acted, NewsOf;
    match step
    case Send(sd, nonce, now, text) => SendKeys(p, s.ends.At(sd), ids.At(Other(sd)), nonce, now, text);
    case Deliver(sd, k) =>
      if k < |s.wire| {
        OnRawFrame(p, s.ends.At(sd), s.wire[k]);
      }
    case Inject(sd, bytes) => OnRawFrame(p, s.ends.At(sd), bytes);
    case Aside(sd, act) => ActedKeys(p, s.ends.At(sd), act);
  }

  /** Sessions are opened and never lost, and whatever a callback is told comes from one of them. */
  lemma {:induction false} SessionsOpened(p: Primitives, ids: Duo<ByteString>, s0: System, steps: seq<Step>, side: Side)
    requires p.HmacSized() && s0.inbox.At(side) == []
    ensures var s := Run(p, ids, s0, steps);
            && s.ends.At(side).sessions.Keys == s0.ends.At(side).sessions.Keys + Opened(steps, side)
            && FromSessions(s, side)
  {
    hide Next;
    if steps != [] {
      var before, step := steps[..|steps| - 1], steps[|steps| - 1];
      SessionsOpened(p, ids, s0, before, side);
      NextOpens(p, ids, Run(p, ids, s0, before), step, side);
      assert steps == before + [step];
      var one := if step.Aside? && step.act.Open? && step.side == side then {step.act.remote} else {};
      assert Opened(steps, side) == Opened(before, side) + one;
    }
  }

  lemma {:induction false} AllFrom(inbox: seq<Notice>, sender: ByteString)
    requires forall n :: n in inbox ==> n.sender == sender
    ensures From(inbox, sender) == inbox
  {
    if inbox != [] {
      AllFrom(inbox[..|inbox| - 1], sender);
    }
  }

  /** End to end, over every interleaving of sends both ways with deliveries, copies, losses, reflections, harmless
      injections and whatever else the two dispatchers do with others: of its peer each callback is told exactly what
      the mailbox tells, which is every message of the peer that was handed over at all, once and unaltered. */
  lemma EndToEnd(
    p: Primitives, ids: Duo<ByteString>, root: ByteString, privs: Duo<ByteString>,
    others: Duo<map<ByteString, Session>>, steps: seq<Step>, side: Side)
    requires var c := SetupFor(p, ids, root, privs, Drafted(steps)); c.Good() && WithinLimits(c, steps)
    requires ForOthers(ids, others)
    ensures var inbox := Run(p, ids, Start(p, ids, root, privs, others), steps).inbox.At(side);
            && From(inbox, ids.At(Other(side))) == MailRun(ids, steps).inbox.At(side)
            && (others.At(side) == map[] && Opened(steps, side) == {} ==> inbox == MailRun(ids, steps).inbox.At(side))
    ensures ExactlyOnce(ids, MailRun(ids, steps), side)
    ensures forall i: nat :: i in MailRun(ids, steps).seen.At(side) <==> HandedOver(ids, steps, side, i)
  {
    hide Harmless, HandedOver, ExactlyOnce, MailNext, Next, EndInv, From, CreateSession;
    var c, start := SetupFor(p, ids, root, privs, Drafted(steps)), Start(p, ids, root, privs, others);
    StartRefines(p, ids, root, privs, Drafted(steps), others);
    RunRefines(c, start, steps);
    MailboxDeliversOnce(ids, steps, side);
    var s := Run(p, ids, start, steps);
    assert SideRefines(c, side, MailRun(ids, steps), s.ends.At(side), s.inbox.At(side));
    if others.At(side) == map[] && Opened(steps, side) == {} {
      OnlyPeer(p, ids, root, privs, others, steps, side);
      AllFrom(s.inbox.At(side), ids.At(Other(side)));
    }
  }

  lemma OnlyPeer(
    p: Primitives, ids: Duo<ByteString>, root: ByteString, privs: Duo<ByteString>,
    others: Duo<map<ByteString, Session>>, steps: seq<Step>, side: Side)
    requires p.HmacSized()
    ensures var s := Run(p, ids, Start(p, ids, root, privs, others), steps);
            && s.ends.At(side).sessions.Keys == others.At(side).Keys + {ids.At(Other(side))} + Opened(steps, side)
            && FromSessions(s, side)
  {
    hide Run, Initialize, Fresh, SessionId;
    SessionsOpened(p, ids, Start(p, ids, root, privs, others), steps, side);
  }

  /** The branch of decrypt_envelope that steps the root is never taken: in every reachable state both roots are the
      one the sessions were created with, and the only remote key a side has met there is its peer's. */
  lemma DhStepUnreachable(
    p: Primitives, ids: Duo<ByteString>, root: ByteString, privs: Duo<ByteString>,
    others: Duo<map<ByteString, Session>>, steps: seq<Step>, side: Side)
    requires var c := SetupFor(p, ids, root, privs, Drafted(steps)); c.Good() && WithinLimits(c, steps)
    requires ForOthers(ids, others)
    ensures var peer := Other(side);
            var d := Run(p, ids, Start(p, ids, root, privs, others), steps).ends.At(side);
            && d.sessions.Keys == others.At(side).Keys + {ids.At(peer)} + Opened(steps, side)
            && d.sessions[ids.At(peer)].ratchet.rootKey == root
            && d.sessions[ids.At(peer)].ratchet.lastRemote in [[], p.publicKey(privs.At(peer))]
  {
    hide Harmless, MailNext, Next, From, CreateSession, KeysSeparate;
    var c, start := SetupFor(p, ids, root, privs, Drafted(steps)), Start(p, ids, root, privs, others);
    StartRefines(p, ids, root, privs, Drafted(steps), others);
    RunRefines(c, start, steps);
    var s := Run(p, ids, start, steps);
    assert SideRefines(c, side, MailRun(ids, steps), s.ends.At(side), s.inbox.At(side));
    OnlyPeer(p, ids, root, privs, others, steps, side);
  }
}
