/** What the keys of a group depend on, and with it which managers can open which group messages. */
module GroupKeys {
  import opened Bytes
  import opened Crypto
  import opened Envelopes
  import opened Mls
  import opened GroupRuns

  /** What authenticated encryption gives two states of a group: when the epoch secrets or the (group id, epoch)
      strings differ, the keyed hash of the one does not open what that of the other sealed. */
  ghost predicate EpochsSeparate(p: Primitives, sealer: Group, opener: Group, nonce: ByteString, text: ByteString) {
    var aad, info := sealer.id + BigEndian(sealer.epoch, 8), opener.id + BigEndian(opener.epoch, 8);
    sealer.epochSecret != opener.epochSecret || aad != info ==>
      p.unseal(p.hash(opener.epochSecret, info), aad, p.seal(p.hash(sealer.epochSecret, aad), nonce, aad, text)) == None
  }

  lemma InfoInjective(id: ByteString, e: u64, id': ByteString, e': u64)
    requires EpochInfo(id, e) == EpochInfo(id', e')
    ensures id == id' && e == e'
  {
    InfoReads(id, e);
    InfoReads(id', e');
  }

  lemma InfoReads(id: ByteString, e: u64)
    ensures var info := EpochInfo(id, e);
            |info| == |id| + 8 && info[..|id|] == id && FromBigEndian(info[|id|..]) == e
  {
    assert Pow256(8) == U64_LIMIT;
    BigEndianReads(e, 8);
    assert EpochInfo(id, e)[|id|..] == BigEndian(e, 8);
  }

  /** A group envelope names its group, sender and times, and its header reads back as group id and epoch. */
  lemma SealSays(
    p: Primitives, g: Group, sender: ByteString, nonce: ByteString, now: u64, later: u64, text: ByteString)
    requires p.Sound()
    ensures var env := Seal(p, g, sender, nonce, now, later, text);
            && env.sessionId == g.id && env.senderDeviceId == sender && env.Bare()
            && env.messageIndex == now % 0x1_0000_0000 && env.timestamp == later && env.previousCounter == 0
            && |env.associatedData| == |g.id| + 8 && env.associatedData[..|g.id|] == g.id
            && FromBigEndian(env.associatedData[|g.id|..]) == g.epoch
            && p.unseal(p.hash(g.epochSecret, env.associatedData), env.associatedData, env.ciphertext) == Some(text)
  {
    InfoReads(g.id, g.epoch);
  }

  /** With header and ciphertext as they were sealed, and whatever else is rewritten, a manager opens the message
      exactly if the envelope names the group it is asked for and its state has the id, the epoch and the epoch secret
      under which it was sealed. */
  lemma OpensIffSameEpoch(
    p: Primitives, g: Group, groups: Groups, id: ByteString, sender: ByteString, nonce: ByteString,
    now: u64, later: u64, text: ByteString, env: Envelope)
    requires p.Sound() && (id in groups ==> EpochsSeparate(p, g, groups[id], nonce, text))
    requires var sealed := Seal(p, g, sender, nonce, now, later, text);
             env.associatedData == sealed.associatedData && env.ciphertext == sealed.ciphertext
    ensures Open(p, groups, id, env)
            == if id in groups && env.sessionId == g.id == groups[id].id && groups[id].epoch == g.epoch
                  && groups[id].epochSecret == g.epochSecret
               then Some(text) else None
  {
    if id in groups && EpochInfo(g.id, g.epoch) == EpochInfo(groups[id].id, groups[id].epoch) {
      InfoInjective(g.id, g.epoch, groups[id].id, groups[id].epoch);
    }
  }

  /** A group message can be opened later exactly as long as no change to its group has taken effect since. */
  lemma OpensIffUnchanged(
    p: Primitives, groups: Groups, ops: seq<Op>, id: ByteString, sender: ByteString, nonce: ByteString,
    now: u64, later: u64, text: ByteString)
    requires p.Sound() && id in groups && groups[id].id == id && Changes(p, groups, ops, id) < U64_LIMIT
    requires id in ManageAll(p, groups, ops) ==>
               EpochsSeparate(p, groups[id], ManageAll(p, groups, ops)[id], nonce, text)
    ensures var result := Open(p, ManageAll(p, groups, ops), id, Seal(p, groups[id], sender, nonce, now, later, text));
            result == if Changes(p, groups, ops, id) == 0 then Some(text) else None
  {
    hide Manage, EpochInfo, EpochKey, Open, EpochsSeparate;
    EpochCounts(p, groups, ops, id);
    EpochAfterIs(groups[id].epoch, Changes(p, groups, ops, id));
    var env := Seal(p, groups[id], sender, nonce, now, later, text);
    OpensIffSameEpoch(p, groups[id], ManageAll(p, groups, ops), id, sender, nonce, now, later, text, env);
  }

  predicate LeafSized(leaves: seq<ByteString>) {
    forall i :: 0 <= i < |leaves| ==> |leaves[i]| == KEY_BYTES
  }

  /** The leaves lie end to end in order, so 32-byte leaves can be cut out again. */
  lemma {:induction false} ConcatLayout(leaves: seq<ByteString>, i: nat)
    requires LeafSized(leaves)
    ensures |Concat(leaves)| == 32 * |leaves|
    ensures i < |leaves| ==> Concat(leaves)[32 * i..32 * i + 32] == leaves[i]
  {
    if leaves != [] {
      var last := |leaves| - 1;
      ConcatLayout(leaves[..last], i);
      if i < last {
        assert Concat(leaves)[32 * i..32 * i + 32] == Concat(leaves[..last])[32 * i..32 * i + 32];
      }
    }
  }

  lemma ConcatInjective(a: seq<ByteString>, b: seq<ByteString>)
    requires LeafSized(a) && LeafSized(b)
    ensures Concat(a) == Concat(b) <==> a == b
  {
    ConcatLayout(a, 0);
    ConcatLayout(b, 0);
    if Concat(a) == Concat(b) {
      forall i | 0 <= i < |a|
        ensures a[i] == b[i]
      {
        ConcatLayout(a, i);
        ConcatLayout(b, i);
      }
    }
  }

  /** The hash of the two lists of leaves does not collide, nor hit the constant that stands for no leaves. */
  ghost predicate NoCollision(p: Primitives, a: seq<ByteString>, b: seq<ByteString>) {
    && (p.hash([], Concat(a)) == p.hash([], Concat(b)) ==> Concat(a) == Concat(b))
    && (a != [] ==> p.hash([], Concat(a)) != seq(32, i => 0))
    && (b != [] ==> p.hash([], Concat(b)) != seq(32, i => 0))
  }

  /** The epoch secret depends on every leaf and on their order, and without leaves it is 32 zero bytes. */
  lemma SecretsAgreeIff(p: Primitives, a: seq<ByteString>, b: seq<ByteString>)
    requires LeafSized(a) && LeafSized(b) && NoCollision(p, a, b)
    ensures EpochSecret(p, a) == EpochSecret(p, b) <==> a == b
    ensures EpochSecret(p, []) == seq(32, i => 0)
  {
    ConcatLayout(a, 0);
    ConcatLayout(b, 0);
    ConcatInjective(a, b);
  }

  /** Two managers that went through the same number of changes to a group, or not: the one opens what the other sealed
      exactly if the numbers are the same and the same leaves are seated in the same order, whoever holds them. */
  lemma RunsShareIff(
    p: Primitives, id: ByteString, run: seq<Change>, run': seq<Change>, sender: ByteString, nonce: ByteString,
    now: u64, later: u64, text: ByteString)
    requires p.Sound() && Track(run).changes < U64_LIMIT && Track(run').changes < U64_LIMIT
    requires var (a, b) := (Leaves(Seats(run)), Leaves(Seats(run')));
             LeafSized(a) && LeafSized(b) && NoCollision(p, a, b)
    requires EpochsSeparate(p, Evolve(p, NewGroup(p, id), run), Evolve(p, NewGroup(p, id), run'), nonce, text)
    ensures var (g, g') := (Evolve(p, NewGroup(p, id), run), Evolve(p, NewGroup(p, id), run'));
            Open(p, map[id := g'], id, Seal(p, g, sender, nonce, now, later, text))
            == if Track(run).changes == Track(run').changes && Leaves(Seats(run)) == Leaves(Seats(run'))
               then Some(text) else None
  {
    hide EpochSecret, EpochsSeparate, Seats, Track, Evolve, NoCollision, Open, Realizes, LeafSized, Leaves;
    hide Primitives.Sound;
    var g, g' := Evolve(p, NewGroup(p, id), run), Evolve(p, NewGroup(p, id), run');
    EvolvedState(p, id, run);
    EvolvedState(p, id, run');
    SecretsAgreeIff(p, Leaves(Seats(run)), Leaves(Seats(run')));
    var env := Seal(p, g, sender, nonce, now, later, text);
    OpensIffSameEpoch(p, g, map[id := g'], id, sender, nonce, now, later, text, env);
  }

  lemma EvolvedState(p: Primitives, id: ByteString, run: seq<Change>)
    requires Track(run).changes < U64_LIMIT
    ensures var g := Evolve(p, NewGroup(p, id), run);
            && g.id == id && g.epochSecret == EpochSecret(p, Leaves(Seats(run)))
            && g.epoch == (1 + Track(run).changes) % U64_LIMIT
  {
    hide EpochSecret, Seats, Track, Evolve, Realizes;
    RunSeats(p, id, run);
    RunRealizesRoster(p, id, run);
    EpochCountsChanges(p, id, run);
    EpochAfterIs(1, Track(run).changes);
    EvolveKeepsId(p, NewGroup(p, id), run);
  }

  lemma {:induction false} EvolveKeepsId(p: Primitives, g: Group, run: seq<Change>)
    ensures Evolve(p, g, run).id == g.id
  {
    if run != [] {
      EvolveKeepsId(p, g, run[..|run| - 1]);
    }
  }
}
