/** Group membership: the group record, what each operation does to it, and the manager that does it in place. */
module Mls {
  import opened Bytes
  import opened Crypto
  import opened Envelopes

  const GROUP_ID_BYTES := 16

  datatype Group = Group(
    id: ByteString,
    epoch: u64,
    leafSecrets: seq<ByteString>,
    memberIndex: map<ByteString, nat>,
    epochSecret: ByteString
  )

  type Groups = map<ByteString, Group>

  function Concat(leaves: seq<ByteString>): ByteString {
    if leaves == [] then [] else Concat(leaves[..|leaves| - 1]) + leaves[|leaves| - 1]
  }

  function EpochSecret(p: Primitives, leaves: seq<ByteString>): ByteString {
    if Concat(leaves) == [] then Zeros(KEY_BYTES) else p.hash([], Concat(leaves))
  }

  function EpochInfo(groupId: ByteString, epoch: u64): ByteString {
    groupId + BigEndian(epoch, 8)
  }

  function EpochKey(p: Primitives, secret: ByteString, groupId: ByteString, epoch: u64): ByteString {
    p.hash(secret, EpochInfo(groupId, epoch))
  }

  function NextEpoch(epoch: u64): u64 {
    if epoch == U64_LIMIT - 1 then 0 else epoch + 1
  }

  function NewGroup(p: Primitives, id: ByteString): Group {
    Group(id, 1, [], map[], EpochSecret(p, []))
  }

  /** The next epoch, with the cached secret derived again. */
  function Rekeyed(p: Primitives, g: Group, leaves: seq<ByteString>, index: map<ByteString, nat>): Group {
    Group(g.id, NextEpoch(g.epoch), leaves, index, EpochSecret(p, leaves))
  }

  /** A leaf is always appended; emplace leaves the index of a name that is already there. */
  function Joined(p: Primitives, g: Group, member: ByteString, leaf: ByteString): Group {
    var index := if member in g.memberIndex then g.memberIndex else g.memberIndex[member := |g.leafSecrets|];
    Rekeyed(p, g, g.leafSecrets + [leaf], index)
  }

  function Renumber(index: map<ByteString, nat>, removed: nat): map<ByteString, nat> {
    map m | m in index :: if index[m] > removed then index[m] - 1 else index[m]
  }

  /** Erasing outside the vector is undefined in the source; Consistent rules it out. */
  function Erase(leaves: seq<ByteString>, i: nat): seq<ByteString> {
    if i < |leaves| then leaves[..i] + leaves[i + 1..] else leaves
  }

  function Left(p: Primitives, g: Group, member: ByteString): Group {
    if member !in g.memberIndex then g else
    var i := g.memberIndex[member];
    Rekeyed(p, g, Erase(g.leafSecrets, i), Renumber(g.memberIndex - {member}, i))
  }

  /** What every operation keeps: each name has an index of its own, it points at a leaf, and the cached secret is
      current. */
  ghost predicate Consistent(p: Primitives, g: Group) {
    && (forall m :: m in g.memberIndex ==> g.memberIndex[m] < |g.leafSecrets|)
    && (forall m, m' :: m in g.memberIndex && m' in g.memberIndex && m != m' ==> g.memberIndex[m] != g.memberIndex[m'])
    && g.epochSecret == EpochSecret(p, g.leafSecrets)
  }

  /** The leaf secret a member holds. */
  function LeafOf(g: Group, member: ByteString): ByteString
    requires member in g.memberIndex && g.memberIndex[member] < |g.leafSecrets|
  {
    g.leafSecrets[g.memberIndex[member]]
  }

  /** Adding a member disturbs nobody else's leaf. */
  lemma JoinKeepsLeaves(p: Primitives, g: Group, member: ByteString, leaf: ByteString)
    requires Consistent(p, g)
    ensures var g' := Joined(p, g, member, leaf);
            && Consistent(p, g')
            && g'.memberIndex.Keys == g.memberIndex.Keys + {member}
            && (forall m :: m in g'.memberIndex ==> g'.memberIndex[m] < |g'.leafSecrets|)
            && (forall m :: m in g.memberIndex ==> LeafOf(g', m) == LeafOf(g, m))
            && (member !in g.memberIndex ==> LeafOf(g', member) == leaf)
  {
  }

  /** Erasing a leaf and renumbering leaves every other member with the leaf it had. */
  lemma LeaveKeepsLeaves(p: Primitives, g: Group, member: ByteString)
    requires Consistent(p, g)
    ensures var g' := Left(p, g, member);
            && Consistent(p, g')
            && g'.memberIndex.Keys == g.memberIndex.Keys - {member}
            && (forall m :: m in g'.memberIndex ==> g'.memberIndex[m] < |g'.leafSecrets|)
            && (forall m :: m in g.memberIndex && m != member ==> LeafOf(g', m) == LeafOf(g, m))
  {
    hide EpochSecret;
    if member in g.memberIndex {
      var i, g' := g.memberIndex[member], Left(p, g, member);
      forall m | m in g'.memberIndex
        ensures g'.memberIndex[m] == if g.memberIndex[m] > i then g.memberIndex[m] - 1 else g.memberIndex[m]
        ensures g'.memberIndex[m] < |g'.leafSecrets|
        ensures LeafOf(g', m) == LeafOf(g, m)
      {
        assert g.memberIndex[m] != i;
      }
    }
  }

  function Seal(p: Primitives, g: Group, sender: ByteString, nonce: ByteString, now: u64, later: u64, text: ByteString)
    : Envelope
  {
    var aad := EpochInfo(g.id, g.epoch);
    Envelope(g.id, now % U32_LIMIT, 0, later, sender, aad,
             p.seal(EpochKey(p, g.epochSecret, g.id, g.epoch), nonce, aad, text), 1, [], [])
  }

  function Open(p: Primitives, groups: Groups, groupId: ByteString, env: Envelope): Option<ByteString> {
    if groupId !in groups || env.sessionId != groups[groupId].id then None else
    var g := groups[groupId];
    p.unseal(EpochKey(p, g.epochSecret, g.id, g.epoch), env.associatedData, env.ciphertext)
  }

  class MlsManager {
    const p: Primitives
    var groups: Groups

    ghost predicate Valid()
      reads this
    {
      forall id :: id in groups ==> groups[id].id == id && Consistent(p, groups[id])
    }

    constructor (p: Primitives)
      ensures Valid() && this.p == p && groups == map[]
    {
      this.p := p;
      groups := map[];
    }

    method DeriveEpochSecret(leaves: seq<ByteString>) returns (secret: ByteString)
      ensures secret == EpochSecret(p, leaves)
    {
      var concat := [];
      for i := 0 to |leaves|
        invariant concat == Concat(leaves[..i])
      {
        assert leaves[..i + 1][..i] == leaves[..i];
        concat := concat + leaves[i];
      }
      assert leaves[..|leaves|] == leaves;
      if concat == [] {
        return Zeros(KEY_BYTES);
      }
      secret := p.hash([], concat);
    }

    /** `id` stands for the sixteen random bytes; emplace keeps a group that already has them. */
    method CreateGroup(id: ByteString) returns (gid: ByteString)
      requires Valid()
      modifies this
      ensures Valid() && gid == id
      ensures groups == if id in old(groups) then old(groups) else old(groups)[id := NewGroup(p, id)]
    {
      var secret := DeriveEpochSecret([]);
      if id !in groups {
        groups := groups[id := Group(id, 1, [], map[], secret)];
      }
      gid := id;
    }

    /** `leaf` stands for the random leaf secret; throws when there is no such group. */
    method AddMember(groupId: ByteString, member: ByteString, leaf: ByteString) returns (ok: bool)
      requires Valid()
      modifies this
      ensures Valid() && ok == (groupId in old(groups))
      ensures groups
              == if ok then old(groups)[groupId := Joined(p, old(groups)[groupId], member, leaf)] else old(groups)
    {
      if groupId !in groups {
        return false;
      }
      var g := groups[groupId];
      JoinKeepsLeaves(p, g, member, leaf);
      g := g.(leafSecrets := g.leafSecrets + [leaf]);
      var idx := |g.leafSecrets| - 1;
      if member !in g.memberIndex {
        g := g.(memberIndex := g.memberIndex[member := idx]);
      }
      g := g.(epoch := NextEpoch(g.epoch));
      var secret := DeriveEpochSecret(g.leafSecrets);
      groups := groups[groupId := g.(epochSecret := secret)];
      return true;
    }

    /** The renumbering loop over the remaining names. */
    method Decrement(index: map<ByteString, nat>, removed: nat) returns (r: map<ByteString, nat>)
      ensures r == Renumber(index, removed)
    {
      r := index;
      var todo := index.Keys;
      while todo != {}
        invariant todo <= r.Keys == index.Keys
        invariant forall m :: m in index ==>
          r[m] == if m !in todo && index[m] > removed then index[m] - 1 else index[m]
        decreases todo
      {
        var m :| m in todo;
        if r[m] > removed {
          r := r[m := r[m] - 1];
        }
        todo := todo - {m};
      }
    }

    method RemoveMember(groupId: ByteString, member: ByteString) returns (ok: bool)
      requires Valid()
      modifies this
      ensures Valid() && ok == (groupId in old(groups))
      ensures groups == if ok then old(groups)[groupId := Left(p, old(groups)[groupId], member)] else old(groups)
    {
      if groupId !in groups {
        return false;
      }
      var g := groups[groupId];
      LeaveKeepsLeaves(p, g, member);
      if member !in g.memberIndex {
        assert groups == groups[groupId := g];
        return true;
      }
      var idx := g.memberIndex[member];
      var index := g.memberIndex - {member};
      var leaves := g.leafSecrets[..idx] + g.leafSecrets[idx + 1..];
      index := Decrement(index, idx);
      var secret := DeriveEpochSecret(leaves);
      groups := groups[groupId := Group(g.id, NextEpoch(g.epoch), leaves, index, secret)];
      return true;
    }

    /** `now` and `later` are the two readings of the clock; None stands for the throw on an unknown group. */
    method EncryptGroupMessage(
      groupId: ByteString, sender: ByteString, nonce: ByteString, now: u64, later: u64, text: ByteString)
      returns (env: Option<Envelope>)
      ensures env == if groupId in groups then Some(Seal(p, groups[groupId], sender, nonce, now, later, text)) else None
    {
      if groupId !in groups {
        return None;
      }
      var g := groups[groupId];
      var key := EpochKey(p, g.epochSecret, g.id, g.epoch);
      var aad := PushU64(g.id, g.epoch);
      var ct := p.seal(key, nonce, aad, text);
      env := Some(Envelope(g.id, now % U32_LIMIT, 0, later, sender, aad, ct, 1, [], []));
    }

    method DecryptGroupMessage(groupId: ByteString, member: ByteString, env: Envelope)
      returns (text: Option<ByteString>)
      ensures text == Open(p, groups, groupId, env)
    {
      if groupId !in groups {
        return None;
      }
      var g := groups[groupId];
      if env.sessionId != g.id {
        return None;
      }
      var info := PushU64(g.id, g.epoch);
      var key := p.hash(g.epochSecret, info);
      text := p.unseal(key, env.associatedData, env.ciphertext);
    }

    method GetGroupEpoch(groupId: ByteString) returns (epoch: u64)
      ensures epoch == if groupId in groups then groups[groupId].epoch else 0
    {
      if groupId !in groups {
        return 0;
      }
      return groups[groupId].epoch;
    }
  }
}
