/** The server's book of connected peers: the three peer tables, the count of outbound peers
    per address group, the ban list and the committee members' connections. */
module Peers {
  import opened Options

  datatype PeerId = PeerId(n: int)

  /** A peer. Inbound peers are never persistent. The version is known once the remote peer has sent it, which
      is before the server is asked to add the peer. */
  datatype Peer = Peer(id: PeerId, addr: string, host: string, group: string, inbound: bool, versionKnown: bool,
                       persistent: bool, committee: int, connCommittee: int, miner: nat)

  type Table = map<PeerId, Peer>

  // ---------------------------------------------------------- group counting

  function InGroup(t: Table, g: string): set<PeerId> {
    set id | id in t && t[id].group == g
  }

  function Get(m: map<string, int>, g: string): int {
    if g in m then m[g] else 0
  }

  function Bump(m: map<string, int>, g: string, d: int): map<string, int> {
    m[g := Get(m, g) + d]
  }

  /** The counters are exact: for each group, the number of outbound and persistent peers in it. */
  ghost predicate GroupsExact(groups: map<string, int>, outbound: Table, persistent: Table) {
    forall g :: Get(groups, g) == |InGroup(outbound, g)| + |InGroup(persistent, g)|
  }

  lemma InGroupAdd(t: Table, p: Peer, g: string)
    requires p.id !in t
    ensures |InGroup(t[p.id := p], g)| == |InGroup(t, g)| + if p.group == g then 1 else 0
  {
    assert InGroup(t[p.id := p], g) == InGroup(t, g) + if p.group == g then {p.id} else {};
  }

  lemma InGroupRemove(t: Table, id: PeerId, g: string)
    requires id in t
    ensures |InGroup(t - {id}, g)| == |InGroup(t, g)| - if t[id].group == g then 1 else 0
  {
    assert InGroup(t - {id}, g) == InGroup(t, g) - {id};
    assert id in InGroup(t, g) <==> t[id].group == g;
  }

  lemma ExactRemove(groups: map<string, int>, a: Table, b: Table, id: PeerId)
    requires GroupsExact(groups, a, b) && id in a
    ensures GroupsExact(Bump(groups, a[id].group, -1), a - {id}, b)
  {
    forall g ensures Get(Bump(groups, a[id].group, -1), g) == |InGroup(a - {id}, g)| + |InGroup(b, g)| {
      InGroupRemove(a, id, g);
      hide InGroup;
    }
  }

  lemma ExactSwap(groups: map<string, int>, a: Table, b: Table)
    ensures GroupsExact(groups, a, b) <==> GroupsExact(groups, b, a)
  {
  }

  // ------------------------------------------------------------- committees

  /** The list without the given peers, in order. */
  function Without(ps: seq<Peer>, ids: set<PeerId>): seq<Peer> {
    if ps == [] then []
    else (if ps[0].id in ids then [] else [ps[0]]) + Without(ps[1..], ids)
  }

  lemma {:induction false} WithoutConcat(s: seq<Peer>, t: seq<Peer>, ids: set<PeerId>)
    ensures Without(s + t, ids) == Without(s, ids) + Without(t, ids)
  {
    if s == [] {
      assert s + t == t;
    } else {
      assert (s + t)[1..] == s[1..] + t;
      WithoutConcat(s[1..], t, ids);
    }
  }

  lemma {:induction false} WithoutNone(s: seq<Peer>, ids: set<PeerId>)
    requires forall i :: 0 <= i < |s| ==> s[i].id !in ids
    ensures Without(s, ids) == s
  {
    if s != [] {
      WithoutNone(s[1..], ids);
    }
  }

  lemma {:induction false} WithoutTwice(s: seq<Peer>, a: set<PeerId>, b: set<PeerId>)
    ensures Without(Without(s, a), b) == Without(s, a + b)
  {
    if s != [] {
      WithoutTwice(s[1..], a, b);
      var head := if s[0].id in a then [] else [s[0]];
      WithoutConcat(head, Without(s[1..], a), b);
      WithoutOne(s[0], b);
    }
  }

  /** Exactly the other peers remain. */
  lemma {:induction false} WithoutKeeps(s: seq<Peer>, ids: set<PeerId>)
    ensures forall p :: p in Without(s, ids) <==> p in s && p.id !in ids
  {
    if s != [] {
      WithoutKeeps(s[1..], ids);
      assert s == [s[0]] + s[1..];
    }
  }

  /** Removes a peer from one committee list, one occurrence at a time as the server does it:
      the rest keep their order. */
  method RemoveFromList(peers: seq<Peer>, id: PeerId) returns (r: seq<Peer>)
    ensures r == Without(peers, {id})
    ensures forall p :: p in r <==> p in peers && p.id != id
  {
    r := peers;
    var todel := true;
    while todel
      invariant Without(r, {id}) == Without(peers, {id})
      invariant !todel ==> forall i :: 0 <= i < |r| ==> r[i].id != id
      decreases |r|, todel
    {
      todel := false;
      var i := 0;
      while i < |r|
        invariant 0 <= i <= |r| && !todel
        invariant forall j :: 0 <= j < i ==> r[j].id != id
      {
        if r[i].id == id {
          DropOne(r, i, id);
          if |r| == 1 {
            assert r[..i] + r[i + 1..] == [];
            r := [];
          } else if i == |r| - 1 {
            assert r[..i] + r[i + 1..] == r[..i];
            r := r[..i];
          } else if i == 0 {
            assert r[..i] + r[i + 1..] == r[1..];
            r := r[1..];
          } else {
            r := r[..i] + r[i + 1..];
          }
          todel := true;
          break;
        }
        i := i + 1;
      }
    }
    WithoutNone(r, {id});
    WithoutKeeps(peers, {id});
  }

  lemma WithoutOne(p: Peer, ids: set<PeerId>)
    ensures Without([p], ids) == if p.id in ids then [] else [p]
  {
    assert [p][1..] == [];
  }

  lemma DropOne(r: seq<Peer>, i: nat, id: PeerId)
    requires i < |r| && r[i].id == id
    ensures Without(r[..i] + r[i + 1..], {id}) == Without(r, {id})
  {
    hide Without;
    var a, x, b := r[..i], [r[i]], r[i + 1..];
    assert r == a + (x + b);
    WithoutConcat(a, x + b, {id});
    WithoutConcat(x, b, {id});
    WithoutConcat(a, b, {id});
    WithoutOne(r[i], {id});
  }

  type Committees = map<nat, seq<Peer>>

  function CommitteesWithout(cs: Committees, ids: set<PeerId>): Committees {
    map m | m in cs :: Without(cs[m], ids)
  }

  lemma CommitteesTwice(cs: Committees, a: set<PeerId>, b: set<PeerId>)
    ensures CommitteesWithout(CommitteesWithout(cs, a), b) == CommitteesWithout(cs, a + b)
  {
    forall m | m in cs {
      WithoutTwice(cs[m], a, b);
    }
  }

  lemma CommitteesNone(cs: Committees)
    ensures CommitteesWithout(cs, {}) == cs
  {
    forall m | m in cs {
      WithoutNone(cs[m], {});
    }
  }

  // --------------------------------------------------------------- the tables

  /** Peers are filed under their ids, peers at the same address are in the same group, and the version of
      every listed peer is known. */
  ghost predicate Filed(groupOf: string -> string, t: Table) {
    forall id :: id in t ==> t[id].id == id && t[id].group == groupOf(t[id].addr) && t[id].versionKnown
  }

  /** There is at most one outbound connection to an address. */
  ghost predicate OnePerAddress(t: Table) {
    forall id, id' :: id in t && id' in t && t[id].addr == t[id'].addr ==> id == id'
  }

  lemma FiledAfter(groupOf: string -> string, t: Table, gone: set<PeerId>, p: Peer)
    requires Filed(groupOf, t) && p.group == groupOf(p.addr) && p.versionKnown
    ensures Filed(groupOf, t - gone) && Filed(groupOf, (t - gone)[p.id := p])
  {
  }

  lemma FiledLess(groupOf: string -> string, t: Table, gone: set<PeerId>)
    ensures Filed(groupOf, t) ==> Filed(groupOf, t - gone)
    ensures OnePerAddress(t) ==> OnePerAddress(t - gone)
  {
  }

  lemma OnePerAddressAfter(t: Table, p: Peer)
    requires OnePerAddress(t)
    ensures OnePerAddress((t - Dups(t, p))[p.id := p])
  {
  }

  /** The counters run ahead by one for one group: the state while a peer is being added. */
  ghost predicate Ahead(groups: map<string, int>, outbound: Table, persistent: Table, g: string) {
    forall x :: Get(groups, x) == |InGroup(outbound, x)| + |InGroup(persistent, x)| + if x == g then 1 else 0
  }

  lemma AheadStart(groups: map<string, int>, a: Table, b: Table, g: string)
    requires GroupsExact(groups, a, b)
    ensures Ahead(Bump(groups, g, 1), a, b, g)
  {
    hide InGroup;
  }

  lemma AheadDrop(groups: map<string, int>, a: Table, b: Table, g: string, id: PeerId)
    requires Ahead(groups, a, b, g) && id in a && a[id].group == g
    ensures Ahead(Bump(groups, g, -1), a - {id}, b, g)
  {
    forall x ensures Get(Bump(groups, g, -1), x) == |InGroup(a - {id}, x)| + |InGroup(b, x)| + if x == g then 1 else 0 {
      InGroupRemove(a, id, x);
      hide InGroup;
    }
  }

  lemma AheadEnd(groups: map<string, int>, a: Table, b: Table, p: Peer)
    requires Ahead(groups, a, b, p.group) && p.id !in a
    ensures GroupsExact(groups, a[p.id := p], b)
  {
    forall g ensures Get(groups, g) == |InGroup(a[p.id := p], g)| + |InGroup(b, g)| {
      InGroupAdd(a, p, g);
      hide InGroup;
    }
  }

  lemma AheadSwap(groups: map<string, int>, a: Table, b: Table, g: string)
    ensures Ahead(groups, a, b, g) <==> Ahead(groups, b, a, g)
  {
  }

  /** The peers a new outbound peer replaces: those at its address. */
  function Dups(t: Table, sp: Peer): set<PeerId> {
    set id | id in t && t[id].addr == sp.addr
  }

  class PeerState {
    const groupOf: string -> string
    const maxPeers: nat
    var inboundPeers: Table
    var outboundPeers: Table
    var persistentPeers: Table
    var banned: map<string, int>
    var outboundGroups: map<string, int>
    var committee: Committees

    ghost predicate Tables()
      reads this
    {
      && Filed(groupOf, inboundPeers) && Filed(groupOf, outboundPeers) && Filed(groupOf, persistentPeers)
      && OnePerAddress(outboundPeers)
    }

    /** What the server's bookkeeping keeps true. */
    ghost predicate Valid()
      reads this
    {
      && Tables() && GroupsExact(outboundGroups, outboundPeers, persistentPeers)
      && |inboundPeers| <= maxPeers && |outboundPeers| + |persistentPeers| <= maxPeers
    }

    constructor (groupOf: string -> string, maxPeers: nat, members: set<nat>)
      ensures Valid() && inboundPeers == outboundPeers == persistentPeers == map[]
      ensures this.groupOf == groupOf && this.maxPeers == maxPeers && committee.Keys == members
    {
      this.groupOf, this.maxPeers := groupOf, maxPeers;
      inboundPeers, outboundPeers, persistentPeers := map[], map[], map[];
      banned, outboundGroups := map[], map[];
      committee := map m | m in members :: [];
    }

    /** Takes a peer out of every committee list. */
    method RemovePeer(id: PeerId)
      modifies this`committee
      ensures committee == CommitteesWithout(old(committee), {id})
    {
      var todo := committee.Keys;
      while todo != {}
        invariant todo <= committee.Keys == old(committee).Keys
        invariant forall m :: m in committee ==> committee[m] == if m in todo then old(committee)[m] else Without(old(committee)[m], {id})
        decreases todo
      {
        var m :| m in todo;
        var peers := RemoveFromList(committee[m], id);
        committee := committee[m := peers];
        todo := todo - {m};
      }
    }

    /** Drops the outbound peers at the address of the new one. */
    method DropOutboundDups(sp: Peer)
      requires Tables() && sp.group == groupOf(sp.addr) && Ahead(outboundGroups, outboundPeers, persistentPeers, sp.group)
      modifies this`outboundPeers, this`outboundGroups, this`committee
      ensures outboundPeers == old(outboundPeers) - Dups(old(outboundPeers), sp)
      ensures Ahead(outboundGroups, outboundPeers, persistentPeers, sp.group)
      ensures committee == CommitteesWithout(old(committee), Dups(old(outboundPeers), sp))
    {
      hide Ahead, CommitteesWithout, OnePerAddress, InGroup, Get, Bump;
      ghost var gone := {};
      var todo := outboundPeers.Keys;
      CommitteesNone(committee);
      while todo != {}
        invariant gone == Dups(old(outboundPeers), sp) - todo && todo <= old(outboundPeers).Keys
        invariant outboundPeers == old(outboundPeers) - gone
        invariant Ahead(outboundGroups, outboundPeers, persistentPeers, sp.group)
        invariant committee == CommitteesWithout(old(committee), gone)
        decreases todo
      {
        var r :| r in todo;
        var dup := outboundPeers[r];
        if sp.addr == dup.addr {
          AheadDrop(outboundGroups, outboundPeers, persistentPeers, sp.group, r);
          outboundGroups := Bump(outboundGroups, sp.group, -1);
          outboundPeers := outboundPeers - {r};
          CommitteesTwice(old(committee), gone, {r});
          RemovePeer(dup.id);
          gone := gone + {r};
        }
        todo := todo - {r};
      }
      assert Dups(old(outboundPeers), sp) - todo == Dups(old(outboundPeers), sp);
    }

    /** Drops the persistent peers at the address of the new one that are connected. */
    method DropPersistentDups(sp: Peer, connected: set<PeerId>)
      requires Tables() && sp.group == groupOf(sp.addr) && Ahead(outboundGroups, outboundPeers, persistentPeers, sp.group)
      modifies this`persistentPeers, this`outboundGroups, this`committee
      ensures persistentPeers == old(persistentPeers) - Dups(old(persistentPeers), sp) * connected
      ensures Ahead(outboundGroups, outboundPeers, persistentPeers, sp.group)
      ensures committee == CommitteesWithout(old(committee), Dups(old(persistentPeers), sp) * connected)
    {
      hide Ahead, CommitteesWithout, OnePerAddress, InGroup, Get, Bump;
      ghost var gone := {};
      ghost var all := Dups(old(persistentPeers), sp) * connected;
      var todo := persistentPeers.Keys;
      CommitteesNone(committee);
      while todo != {}
        invariant gone == all - todo && todo <= old(persistentPeers).Keys
        invariant persistentPeers == old(persistentPeers) - gone
        invariant Ahead(outboundGroups, outboundPeers, persistentPeers, sp.group)
        invariant committee == CommitteesWithout(old(committee), gone)
        decreases todo
      {
        var r :| r in todo;
        var dup := persistentPeers[r];
        if sp.addr == dup.addr {
          if dup.id in connected {
            AheadSwap(outboundGroups, outboundPeers, persistentPeers, sp.group);
            AheadDrop(outboundGroups, persistentPeers, outboundPeers, sp.group, r);
            outboundGroups := Bump(outboundGroups, sp.group, -1);
            persistentPeers := persistentPeers - {r};
            AheadSwap(outboundGroups, persistentPeers, outboundPeers, sp.group);
            CommitteesTwice(old(committee), gone, {r});
            RemovePeer(dup.id);
            gone := gone + {r};
          }
        }
        todo := todo - {r};
      }
      assert all - todo == all;
    }

    /** A peer the server may be asked to add: its version is known and no table holds its id yet. */
    ghost predicate Addable(sp: Peer)
      reads this
    {
      && sp.group == groupOf(sp.addr) && sp.versionKnown && !(sp.inbound && sp.persistent)
      && sp.id !in inboundPeers && sp.id !in outboundPeers && sp.id !in persistentPeers
    }

    /** The committee member a new outbound peer connects for gains a connection. */
    method JoinCommittee(sp: Peer)
      modifies this`committee
      ensures committee == Joined(old(committee), sp)
    {
      if sp.connCommittee > 0 {
        if sp.miner in committee {
          committee := committee[sp.miner := committee[sp.miner] + [sp]];
        }
      }
    }

    method AddOutbound(sp: Peer)
      requires Valid() && Addable(sp) && |outboundPeers| + |persistentPeers| < maxPeers
      modifies this`outboundPeers, this`outboundGroups, this`committee
      ensures Valid()
      ensures outboundPeers == (old(outboundPeers) - Dups(old(outboundPeers), sp))[sp.id := sp]
      ensures Rejoined(old(committee), committee, Dups(old(outboundPeers), sp), sp)
    {
      hide Ahead, GroupsExact, CommitteesWithout, Joined, Rejoined, Get, Bump, Filed, OnePerAddress, Dups, InGroup;
      AheadStart(outboundGroups, outboundPeers, persistentPeers, sp.group);
      outboundGroups := Bump(outboundGroups, sp.group, 1);
      DropOutboundDups(sp);
      FiledAfter(groupOf, old(outboundPeers), Dups(old(outboundPeers), sp), sp);
      OnePerAddressAfter(old(outboundPeers), sp);
      AheadEnd(outboundGroups, outboundPeers, persistentPeers, sp);
      SizeAfter(old(outboundPeers), Dups(old(outboundPeers), sp), sp);
      outboundPeers := outboundPeers[sp.id := sp];
      CommitteesAfter(old(committee), Dups(old(outboundPeers), sp), sp);
      JoinCommittee(sp);
    }

    method AddPersistent(sp: Peer, connected: set<PeerId>)
      requires Valid() && Addable(sp) && |outboundPeers| + |persistentPeers| < maxPeers
      modifies this`persistentPeers, this`outboundGroups, this`committee
      ensures Valid()
      ensures persistentPeers == (old(persistentPeers) - Dups(old(persistentPeers), sp) * connected)[sp.id := sp]
      ensures Rejoined(old(committee), committee, Dups(old(persistentPeers), sp) * connected, sp)
    {
      hide Ahead, GroupsExact, CommitteesWithout, Joined, Rejoined, Get, Bump, Filed, OnePerAddress, Dups, InGroup;
      AheadStart(outboundGroups, outboundPeers, persistentPeers, sp.group);
      outboundGroups := Bump(outboundGroups, sp.group, 1);
      DropPersistentDups(sp, connected);
      FiledAfter(groupOf, old(persistentPeers), Dups(old(persistentPeers), sp) * connected, sp);
      AheadSwap(outboundGroups, outboundPeers, persistentPeers, sp.group);
      AheadEnd(outboundGroups, persistentPeers, outboundPeers, sp);
      SizeAfter(old(persistentPeers), Dups(old(persistentPeers), sp) * connected, sp);
      persistentPeers := persistentPeers[sp.id := sp];
      ExactSwap(outboundGroups, persistentPeers, outboundPeers);
      CommitteesAfter(old(committee), Dups(old(persistentPeers), sp) * connected, sp);
      JoinCommittee(sp);
    }

    method AddInbound(sp: Peer)
      requires Valid() && Addable(sp) && |inboundPeers| < maxPeers
      modifies this`inboundPeers
      ensures Valid() && inboundPeers == old(inboundPeers)[sp.id := sp]
    {
      hide GroupsExact, OnePerAddress, Filed;
      SizeAfter(inboundPeers, {}, sp);
      FiledAfter(groupOf, inboundPeers, {}, sp);
      assert inboundPeers - {} == inboundPeers;
      inboundPeers := inboundPeers[sp.id := sp];
    }

    /** The checks before a peer is added: shutdown, host, ban list, room. */
    method Admit(sp: Peer, shutdown: bool, hostOk: bool, now: int) returns (ok: bool)
      modifies this`banned
      ensures ok <==>
                && !shutdown && hostOk
                && !(sp.host in old(banned) && sp.committee <= 0 && now < old(banned)[sp.host])
                && (if sp.inbound then |inboundPeers| else |outboundPeers| + |persistentPeers|) < maxPeers
      ensures banned == if !shutdown && hostOk && sp.host in old(banned) && sp.committee <= 0 && old(banned)[sp.host] <= now
                        then old(banned) - {sp.host} else old(banned)
    {
      if shutdown { return false; }
      if !hostOk { return false; }
      if sp.host in banned && sp.committee <= 0 {
        if now < banned[sp.host] { return false; }
        banned := banned - {sp.host};
      }
      var count := if sp.inbound then |inboundPeers| else |outboundPeers| + |persistentPeers|;
      return count < maxPeers;
    }

    /** A new peer. It is refused during shutdown, without a proper host, while its host is
        banned, and when the tables of its direction are full. */
    method HandleAddPeer(sp: Peer, shutdown: bool, hostOk: bool, now: int, connected: set<PeerId>) returns (ok: bool)
      requires Valid() && Addable(sp)
      modifies this
      ensures Valid()
      ensures ok <==>
                && !shutdown && hostOk
                && !(sp.host in old(banned) && sp.committee <= 0 && now < old(banned)[sp.host])
                && old(if sp.inbound then |inboundPeers| else |outboundPeers| + |persistentPeers|) < maxPeers
      ensures inboundPeers == if ok && sp.inbound then old(inboundPeers)[sp.id := sp] else old(inboundPeers)
      ensures outboundPeers == if ok && !sp.inbound && !sp.persistent
                               then (old(outboundPeers) - Dups(old(outboundPeers), sp))[sp.id := sp] else old(outboundPeers)
      ensures persistentPeers == if ok && sp.persistent
                                 then (old(persistentPeers) - Dups(old(persistentPeers), sp) * connected)[sp.id := sp]
                                 else old(persistentPeers)
      ensures ok && sp.persistent ==> Rejoined(old(committee), committee, Dups(old(persistentPeers), sp) * connected, sp)
      ensures ok && !sp.inbound && !sp.persistent ==> Rejoined(old(committee), committee, Dups(old(outboundPeers), sp), sp)
      ensures !ok || sp.inbound ==> committee == old(committee)
      ensures banned == if !shutdown && hostOk && sp.host in old(banned) && sp.committee <= 0 && old(banned)[sp.host] <= now
                        then old(banned) - {sp.host} else old(banned)
    {
      hide GroupsExact, Rejoined, OnePerAddress, Filed, Dups;
      ok := Admit(sp, shutdown, hostOk, now);
      if !ok { return; }
      if sp.inbound {
        AddInbound(sp);
      } else if sp.persistent {
        AddPersistent(sp, connected);
      } else {
        AddOutbound(sp);
      }
    }

    method DoneOutbound(sp: Peer)
      requires Valid() && (sp.id in outboundPeers ==> outboundPeers[sp.id] == sp)
      modifies this`outboundPeers, this`outboundGroups
      ensures Valid() && outboundPeers == old(outboundPeers) - {sp.id}
    {
      hide GroupsExact, Get, Bump, OnePerAddress;
      FiledLess(groupOf, outboundPeers, {sp.id});
      if sp.id in outboundPeers {
        assert sp.versionKnown;
        hide Filed;
        ExactRemove(outboundGroups, outboundPeers, persistentPeers, sp.id);
        if sp.versionKnown {
          outboundGroups := Bump(outboundGroups, sp.group, -1);
        }
        SizeBelow(outboundPeers, sp.id);
        outboundPeers := outboundPeers - {sp.id};
      } else {
        assert outboundPeers - {sp.id} == outboundPeers;
      }
    }

    method DonePersistent(sp: Peer)
      requires Valid() && (sp.id in persistentPeers ==> persistentPeers[sp.id] == sp)
      modifies this`persistentPeers, this`outboundGroups
      ensures Valid() && persistentPeers == old(persistentPeers) - {sp.id}
    {
      hide GroupsExact, Get, Bump, OnePerAddress;
      FiledLess(groupOf, persistentPeers, {sp.id});
      ExactSwap(outboundGroups, outboundPeers, persistentPeers);
      if sp.id in persistentPeers {
        assert sp.versionKnown;
        hide Filed;
        ExactRemove(outboundGroups, persistentPeers, outboundPeers, sp.id);
        if sp.versionKnown {
          outboundGroups := Bump(outboundGroups, sp.group, -1);
        }
        SizeBelow(persistentPeers, sp.id);
        persistentPeers := persistentPeers - {sp.id};
      } else {
        assert persistentPeers - {sp.id} == persistentPeers;
      }
      ExactSwap(outboundGroups, outboundPeers, persistentPeers);
    }

    method DoneInbound(sp: Peer)
      requires Valid()
      modifies this`inboundPeers
      ensures Valid() && inboundPeers == old(inboundPeers) - {sp.id}
    {
      hide GroupsExact, Filed, OnePerAddress;
      FiledLess(groupOf, inboundPeers, {sp.id});
      if sp.id in inboundPeers {
        SizeBelow(inboundPeers, sp.id);
        inboundPeers := inboundPeers - {sp.id};
      } else {
        assert inboundPeers - {sp.id} == inboundPeers;
      }
    }

    /** A peer is gone, listed or not. A listed peer has a known version, so its group's counter is always
        brought down with it. */
    method HandleDonePeer(sp: Peer)
      requires Valid() && !(sp.inbound && sp.persistent)
      requires sp.id in outboundPeers ==> outboundPeers[sp.id] == sp
      requires sp.id in persistentPeers ==> persistentPeers[sp.id] == sp
      modifies this`inboundPeers, this`outboundPeers, this`persistentPeers, this`outboundGroups, this`committee
      ensures Valid()
      ensures committee == CommitteesWithout(old(committee), {sp.id})
      ensures Left(old(committee), committee, sp.id)
      ensures inboundPeers == if sp.inbound then old(inboundPeers) - {sp.id} else old(inboundPeers)
      ensures persistentPeers == if sp.persistent then old(persistentPeers) - {sp.id} else old(persistentPeers)
      ensures outboundPeers == if !sp.inbound && !sp.persistent then old(outboundPeers) - {sp.id} else old(outboundPeers)
    {
      hide GroupsExact, CommitteesWithout, Left, Filed, OnePerAddress;
      CommitteesLose(committee, sp.id);
      RemovePeer(sp.id);
      if sp.persistent {
        DonePersistent(sp);
      } else if sp.inbound {
        DoneInbound(sp);
      } else {
        DoneOutbound(sp);
      }
    }

    /** Removes one matching persistent peer, if any. */
    method RemoveNode(cmp: Peer -> bool) returns (found: bool)
      requires Valid()
      modifies this`persistentPeers, this`outboundGroups
      ensures Valid() && found == Matches(old(persistentPeers), cmp)
      ensures OneLess(old(persistentPeers), persistentPeers, cmp)
    {
      hide GroupsExact, Get, Bump, Filed, OnePerAddress;
      var r := FindMatch(persistentPeers, cmp);
      if r.None? { return false; }
      var id := r.value;
      ExactSwap(outboundGroups, outboundPeers, persistentPeers);
      ExactRemove(outboundGroups, persistentPeers, outboundPeers, id);
      outboundGroups := Bump(outboundGroups, persistentPeers[id].group, -1);
      SizeBelow(persistentPeers, id);
      FiledLess(groupOf, persistentPeers, {id});
      persistentPeers := persistentPeers - {id};
      ExactSwap(outboundGroups, outboundPeers, persistentPeers);
      return true;
    }

    /** Disconnects outbound peers one by one until none matches. */
    method DisconnectOutbound(cmp: Peer -> bool) returns (found: bool)
      requires Valid()
      modifies this`outboundPeers, this`outboundGroups
      ensures Valid() && found == Matches(old(outboundPeers), cmp)
      ensures outboundPeers == Unmatched(old(outboundPeers), cmp)
    {
      hide GroupsExact, Get, Bump, Filed, OnePerAddress, Unmatched, Matches;
      var again := true;
      found := false;
      while again
        invariant Valid() && Unmatched(outboundPeers, cmp) == Unmatched(old(outboundPeers), cmp)
        invariant if found then Matches(old(outboundPeers), cmp) else outboundPeers == old(outboundPeers)
        invariant !again ==> !Matches(outboundPeers, cmp)
        decreases |outboundPeers|, again
      {
        var o := FindMatch(outboundPeers, cmp);
        again := o.Some?;
        if o.Some? {
          var id := o.value;
          MatchFound(outboundPeers, cmp, id);
          ExactRemove(outboundGroups, outboundPeers, persistentPeers, id);
          outboundGroups := Bump(outboundGroups, outboundPeers[id].group, -1);
          SizeBelow(outboundPeers, id);
          FiledLess(groupOf, outboundPeers, {id});
          outboundPeers := outboundPeers - {id};
          found := true;
        }
      }
      NoneMatch(outboundPeers, cmp);
    }

    /** Disconnects one matching inbound peer, or else every matching outbound peer. */
    method DisconnectNode(cmp: Peer -> bool) returns (found: bool)
      requires Valid()
      modifies this`inboundPeers, this`outboundPeers, this`outboundGroups
      ensures Valid() && found == (Matches(old(inboundPeers), cmp) || Matches(old(outboundPeers), cmp))
      ensures OneLess(old(inboundPeers), inboundPeers, cmp)
      ensures outboundPeers == if Matches(old(inboundPeers), cmp) then old(outboundPeers)
                               else Unmatched(old(outboundPeers), cmp)
    {
      hide GroupsExact, Get, Bump, Filed, OnePerAddress;
      var r := FindMatch(inboundPeers, cmp);
      if r.Some? {
        SizeBelow(inboundPeers, r.value);
        FiledLess(groupOf, inboundPeers, {r.value});
        inboundPeers := inboundPeers - {r.value};
        return true;
      }
      found := DisconnectOutbound(cmp);
    }

    /** Every listed peer is the one that goes by its id, and was added before. */
    ghost predicate Known(peerOf: PeerId -> Peer, added: set<PeerId>)
      reads this
    {
      From(inboundPeers, peerOf, added) && From(outboundPeers, peerOf, added) && From(persistentPeers, peerOf, added)
    }

    method ServeAdd(m: Message, ghost peerOf: PeerId -> Peer, ghost added: set<PeerId>)
      requires m.AddPeer? && m.sp.id !in added
      requires Valid() && Known(peerOf, added) && Proper(m, groupOf, peerOf)
      modifies this
      ensures Valid() && Known(peerOf, Adds(added, m))
    {
      assert Addable(m.sp);
      FromAdd(inboundPeers, peerOf, added, {}, m);
      assert inboundPeers - {} == inboundPeers;
      FromAdd(outboundPeers, peerOf, added, Dups(outboundPeers, m.sp), m);
      FromAdd(persistentPeers, peerOf, added, Dups(persistentPeers, m.sp) * m.connected, m);
      hide Valid, Addable, From, Rejoined, Dups;
      var ok := HandleAddPeer(m.sp, m.shutdown, m.hostOk, m.now, m.connected);
    }

    method ServeDone(m: Message, ghost peerOf: PeerId -> Peer, ghost added: set<PeerId>)
      requires m.DonePeer?
      requires Valid() && Known(peerOf, added) && Proper(m, groupOf, peerOf)
      modifies this
      ensures Valid() && Known(peerOf, Adds(added, m))
    {
      FromLess(inboundPeers, peerOf, added, {m.sp.id});
      FromLess(outboundPeers, peerOf, added, {m.sp.id});
      FromLess(persistentPeers, peerOf, added, {m.sp.id});
      assert m.sp.id in outboundPeers ==> outboundPeers[m.sp.id] == m.sp;
      assert m.sp.id in persistentPeers ==> persistentPeers[m.sp.id] == m.sp;
      hide Valid, From, CommitteesWithout;
      HandleDonePeer(m.sp);
    }

    method ServeQuery(m: Message, ghost peerOf: PeerId -> Peer, ghost added: set<PeerId>)
      requires m.Remove? || m.Disconnect?
      requires Valid() && Known(peerOf, added)
      modifies this
      ensures Valid() && Known(peerOf, Adds(added, m))
    {
      hide Valid, From, OneLess, Matches, Unmatched;
      if m.Remove? {
        var found := RemoveNode(m.cmp);
        OneLessFrom(old(persistentPeers), persistentPeers, peerOf, added, m.cmp);
      } else {
        UnmatchedFrom(outboundPeers, peerOf, added, m.cmp);
        var found := DisconnectNode(m.cmp);
        OneLessFrom(old(inboundPeers), inboundPeers, peerOf, added, m.cmp);
      }
    }

    /** Handles one message to the server. */
    method Serve(m: Message, ghost peerOf: PeerId -> Peer, ghost added: set<PeerId>)
      requires Valid() && Known(peerOf, added) && Proper(m, groupOf, peerOf)
      requires m.AddPeer? ==> m.sp.id !in added
      modifies this
      ensures Valid() && Known(peerOf, Adds(added, m))
    {
      hide Valid, Known, Proper;
      match m
      case AddPeer(_, _, _, _, _) => ServeAdd(m, peerOf, added);
      case DonePeer(_) => ServeDone(m, peerOf, added);
      case Remove(_) => ServeQuery(m, peerOf, added);
      case Disconnect(_) => ServeQuery(m, peerOf, added);
    }

    /** The server's loop: after any sequence of messages the tables and group counters agree. No two peers are added
        under one id; peers that go before their version is known may come in any number. */
    method ServeAll(ms: seq<Message>, ghost peerOf: PeerId -> Peer)
      requires Valid() && Known(peerOf, {})
      requires forall i :: 0 <= i < |ms| ==> Proper(ms[i], groupOf, peerOf)
      requires forall i, j :: 0 <= i < j < |ms| && ms[i].AddPeer? && ms[j].AddPeer? ==> ms[i].sp.id != ms[j].sp.id
      modifies this
      ensures Valid()
    {
      ghost var added := {};
      hide Valid, Known, Proper;
      for i := 0 to |ms|
        invariant Valid() && Known(peerOf, added)
        invariant forall id :: id in added ==> exists j :: 0 <= j < i && ms[j].AddPeer? && ms[j].sp.id == id
      {
        Serve(ms[i], peerOf, added);
        added := Adds(added, ms[i]);
      }
    }
  }

  /** A message to the server's loop. */
  datatype Message =
    | AddPeer(sp: Peer, shutdown: bool, hostOk: bool, now: int, connected: set<PeerId>)
    | DonePeer(sp: Peer)
    | Remove(cmp: Peer -> bool)
    | Disconnect(cmp: Peer -> bool)

  const NO_ID := PeerId(0)

  /** A peer gets an id of its own when its version arrives, and is only then added. Until then it has none, like any
      number of others. */
  ghost predicate Proper(m: Message, groupOf: string -> string, peerOf: PeerId -> Peer) {
    m.AddPeer? || m.DonePeer? ==>
      && (if m.sp.versionKnown then m.sp == peerOf(m.sp.id) && m.sp.id != NO_ID else m.sp.id == NO_ID)
      && !(m.sp.inbound && m.sp.persistent)
      && (m.AddPeer? ==> m.sp.group == groupOf(m.sp.addr) && m.sp.versionKnown)
  }

  ghost function Adds(added: set<PeerId>, m: Message): set<PeerId> {
    if m.AddPeer? then added + {m.sp.id} else added
  }

  ghost predicate From(t: Table, peerOf: PeerId -> Peer, added: set<PeerId>) {
    forall id :: id in t ==> id in added && id != NO_ID && t[id] == peerOf(id)
  }

  lemma FromLess(t: Table, peerOf: PeerId -> Peer, added: set<PeerId>, gone: set<PeerId>)
    requires From(t, peerOf, added)
    ensures From(t - gone, peerOf, added)
  {
  }

  lemma FromAdd(t: Table, peerOf: PeerId -> Peer, added: set<PeerId>, gone: set<PeerId>, m: Message)
    requires From(t, peerOf, added) && m.AddPeer? && m.sp == peerOf(m.sp.id) && m.sp.id != NO_ID
    ensures From(t, peerOf, Adds(added, m)) && From((t - gone)[m.sp.id := m.sp], peerOf, Adds(added, m))
  {
  }

  lemma OneLessFrom(t: Table, t': Table, peerOf: PeerId -> Peer, added: set<PeerId>, cmp: Peer -> bool)
    requires From(t, peerOf, added) && OneLess(t, t', cmp)
    ensures From(t', peerOf, added)
  {
  }

  lemma UnmatchedFrom(t: Table, peerOf: PeerId -> Peer, added: set<PeerId>, cmp: Peer -> bool)
    requires From(t, peerOf, added)
    ensures From(Unmatched(t, cmp), peerOf, added)
  {
  }

  function Joined(cs: Committees, sp: Peer): Committees {
    if sp.connCommittee > 0 && sp.miner in cs then cs[sp.miner := cs[sp.miner] + [sp]] else cs
  }

  /** Every list loses the peer and nobody else. */
  ghost predicate Left(cs: Committees, cs': Committees, id: PeerId) {
    && cs'.Keys == cs.Keys
    && forall m :: m in cs && m in cs' ==> forall p :: p in cs'[m] <==> p in cs[m] && p.id != id
  }

  lemma CommitteesLose(cs: Committees, id: PeerId)
    ensures Left(cs, CommitteesWithout(cs, {id}), id)
  {
    var cs' := CommitteesWithout(cs, {id});
    assert cs'.Keys == cs.Keys;
    forall m | m in cs' ensures forall p :: p in cs'[m] <==> p in cs[m] && p.id != id {
      WithoutKeeps(cs[m], {id});
    }
  }

  /** Every list loses the peers that go, and the list of the new peer's miner gains it at the end. */
  ghost predicate Rejoined(cs: Committees, cs': Committees, gone: set<PeerId>, sp: Peer) {
    && cs'.Keys == cs.Keys
    && forall m :: m in cs && m in cs' ==>
         cs'[m] == Without(cs[m], gone) + if sp.connCommittee > 0 && m == sp.miner then [sp] else []
  }

  lemma CommitteesAfter(cs: Committees, gone: set<PeerId>, sp: Peer)
    ensures Rejoined(cs, Joined(CommitteesWithout(cs, gone), sp), gone, sp)
  {
    var cs' := Joined(CommitteesWithout(cs, gone), sp);
    assert cs'.Keys == cs.Keys;
  }

  predicate Matches(t: Table, cmp: Peer -> bool) {
    exists id :: id in t && cmp(t[id])
  }

  /** t' is t without one matching peer if there is one, else t. */
  ghost predicate OneLess(t: Table, t': Table, cmp: Peer -> bool) {
    if Matches(t, cmp) then exists id :: id in t && cmp(t[id]) && t' == t - {id} else t' == t
  }

  /** The first match in whatever order the table is visited. */
  method FindMatch(t: Table, cmp: Peer -> bool) returns (r: Option<PeerId>)
    ensures r.Some? ==> r.value in t && cmp(t[r.value])
    ensures r.None? ==> !Matches(t, cmp)
  {
    var todo := t.Keys;
    while todo != {}
      invariant todo <= t.Keys && forall id :: id in t && id !in todo ==> !cmp(t[id])
      decreases todo
    {
      var id :| id in todo;
      if cmp(t[id]) { return Some(id); }
      todo := todo - {id};
    }
    return None;
  }

  function Unmatched(t: Table, cmp: Peer -> bool): Table {
    map id | id in t && !cmp(t[id]) :: t[id]
  }

  lemma MatchFound(t: Table, cmp: Peer -> bool, id: PeerId)
    requires id in t && cmp(t[id])
    ensures Matches(t, cmp) && Unmatched(t - {id}, cmp) == Unmatched(t, cmp)
  {
  }

  lemma NoneMatch(t: Table, cmp: Peer -> bool)
    requires !Matches(t, cmp)
    ensures Unmatched(t, cmp) == t
  {
    assert forall id :: id in t ==> !cmp(t[id]);
  }

  lemma SizeAfter(t: Table, gone: set<PeerId>, p: Peer)
    ensures |(t - gone)[p.id := p]| <= |t| + 1
  {
    var t' := (t - gone)[p.id := p];
    assert |t'| == |t'.Keys| && |t| == |t.Keys|;
    assert t'.Keys <= t.Keys + {p.id};
    assert t.Keys + {p.id} == t'.Keys + (t.Keys + {p.id} - t'.Keys);
  }

  lemma SizeBelow(t: Table, id: PeerId)
    requires id in t
    ensures |t - {id}| == |t| - 1
  {
    assert (t - {id}).Keys == t.Keys - {id};
    assert |t - {id}| == |(t - {id}).Keys| && |t| == |t.Keys|;
  }
}
