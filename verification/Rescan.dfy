/** Rescanning old blocks for a client: which outpoints end up unspent and which notifications
    are sent. */
module Rescan {
  import opened ChainScan

  /** The client hears at most two things about a transaction. */
  datatype Note = Redeeming(tx: Tx) | Received(tx: Tx)

  datatype Keys = Keys(fallbacks: set<string>, pubKeyHashes: set<Bytes>, scriptHashes: set<Bytes>,
                       compressedPubKeys: set<Bytes>, uncompressedPubKeys: set<Bytes>)
  {
    /** Whether an address is one the client asked about. A public key of unknown length is
        skipped; one whose hash was asked for is included. */
    predicate Wants(a: Address) {
      match a
      case PubKeyHash(h) => h in pubKeyHashes
      case ScriptHash(h) => h in scriptHashes
      case PubKey(s, pkh) =>
        if |s| == 33 then s in compressedPubKeys || pkh in pubKeyHashes
        else if |s| == 65 then s in uncompressedPubKeys || pkh in pubKeyHashes
        else false
      case OtherAddress(s) => s in fallbacks
    }

    predicate Hits(out: Output) {
      !out.separator && exists i :: 0 <= i < |out.addrs| && Wants(out.addrs[i])
    }
  }

  /** The notifications for one transaction, given what was unspent before it. */
  ghost function Notes(keys: Keys, tx: Tx, unspent: set<OutPoint>): seq<Note> {
    (if Spends(tx) * unspent != {} then [Redeeming(tx)] else [])
    + (if Creates(tx, keys.Hits) != {} then [Received(tx)] else [])
  }

  ghost function AllNotes(keys: Keys, txs: seq<Tx>, unspent: set<OutPoint>): seq<Note> {
    if txs == [] then []
    else
      var front := txs[..|txs| - 1];
      AllNotes(keys, front, unspent)
      + Notes(keys, txs[|txs| - 1], FollowAll(front, keys.Hits, unspent))
  }

  class RescanKeys {
    const keys: Keys
    var unspent: set<OutPoint>

    constructor (keys: Keys, unspent: set<OutPoint>)
      ensures this.keys == keys && this.unspent == unspent
    {
      this.keys, this.unspent := keys, unspent;
    }

    /** The inputs of a transaction: watched ones are dropped, the first is reported. */
    method ScanInputs(tx: Tx) returns (ntfns: seq<Note>)
      modifies this`unspent
      ensures unspent == old(unspent) - Spends(tx)
      ensures ntfns == if Spends(tx) * old(unspent) != {} then [Redeeming(tx)] else []
    {
      ntfns := [];
      var spentNotified := false;
      if !tx.crossChain {
        for i := 0 to |tx.ins|
          invariant unspent == old(unspent) - SpendsUpTo(tx, i)
          invariant spentNotified == (SpendsUpTo(tx, i) * old(unspent) != {})
          invariant ntfns == if spentNotified then [Redeeming(tx)] else []
        {
          SpendsNext(tx, i);
          var op := tx.ins[i];
          if op.hash == ZERO_HASH { continue; }
          if op in unspent {
            unspent := unspent - {op};
            assert op in SpendsUpTo(tx, i + 1) * old(unspent);
            if spentNotified { continue; }
            ntfns := ntfns + [Redeeming(tx)];
            spentNotified := true;
          }
        }
      }
    }

    /** The outputs of a transaction: those paying to a wanted address are watched from now on,
        the first is reported. */
    method ScanOutputs(tx: Tx) returns (ntfns: seq<Note>)
      modifies this`unspent
      ensures unspent == old(unspent) + Creates(tx, keys.Hits)
      ensures ntfns == if Creates(tx, keys.Hits) != {} then [Received(tx)] else []
    {
      ntfns := [];
      var recvNotified := false;
      for i := 0 to |tx.outs|
        invariant unspent == old(unspent) + CreatesUpTo(tx, keys.Hits, i)
        invariant recvNotified == (CreatesUpTo(tx, keys.Hits, i) != {})
        invariant ntfns == if recvNotified then [Received(tx)] else []
      {
        CreatesNext(tx, keys.Hits, i);
        var out := tx.outs[i];
        if out.separator { continue; }
        ghost var before := unspent;
        var op := OutPoint(tx.hash, i);
        for j := 0 to |out.addrs|
          invariant unspent == before + if exists k :: 0 <= k < j && keys.Wants(out.addrs[k]) then {op} else {}
          invariant recvNotified == (CreatesUpTo(tx, keys.Hits, i) != {} || exists k :: 0 <= k < j && keys.Wants(out.addrs[k]))
          invariant ntfns == if recvNotified then [Received(tx)] else []
        {
          if !keys.Wants(out.addrs[j]) { continue; }
          unspent := unspent + {op};
          if recvNotified { continue; }
          ntfns := ntfns + [Received(tx)];
          recvNotified := true;
        }
      }
    }

    /** One block, or any further run of transactions, of a rescan. */
    method RescanBlock(txs: seq<Tx>) returns (ntfns: seq<Note>)
      modifies this`unspent
      ensures unspent == FollowAll(txs, keys.Hits, old(unspent))
      ensures ntfns == AllNotes(keys, txs, old(unspent))
    {
      ntfns := [];
      for i := 0 to |txs|
        invariant unspent == FollowAll(txs[..i], keys.Hits, old(unspent))
        invariant ntfns == AllNotes(keys, txs[..i], old(unspent))
      {
        assert txs[..i + 1][..i] == txs[..i];
        ghost var before := unspent;
        var spent := ScanInputs(txs[i]);
        var received := ScanOutputs(txs[i]);
        assert ntfns + (spent + received) == AllNotes(keys, txs[..i + 1], old(unspent));
        ntfns := ntfns + spent + received;
      }
      assert txs[..|txs|] == txs;
    }

    /** A whole rescan: block after block. */
    method RescanBlocks(blocks: seq<seq<Tx>>) returns (ntfns: seq<Note>)
      modifies this`unspent
      ensures unspent == FollowAll(Flatten(blocks), keys.Hits, old(unspent))
      ensures ntfns == AllNotes(keys, Flatten(blocks), old(unspent))
    {
      ntfns := [];
      assert blocks[..0] == [];
      for i := 0 to |blocks|
        invariant unspent == FollowAll(Flatten(blocks[..i]), keys.Hits, old(unspent))
        invariant ntfns == AllNotes(keys, Flatten(blocks[..i]), old(unspent))
      {
        assert blocks[..i + 1][..i] == blocks[..i];
        FollowAllConcat(Flatten(blocks[..i]), blocks[i], keys.Hits, old(unspent));
        AllNotesConcat(keys, Flatten(blocks[..i]), blocks[i], old(unspent));
        var more := RescanBlock(blocks[i]);
        ntfns := ntfns + more;
      }
      assert blocks[..|blocks|] == blocks;
    }
  }

  function Flatten(blocks: seq<seq<Tx>>): seq<Tx> {
    if blocks == [] then [] else Flatten(blocks[..|blocks| - 1]) + blocks[|blocks| - 1]
  }

  lemma {:induction false} AllNotesConcat(keys: Keys, s: seq<Tx>, t: seq<Tx>, unspent: set<OutPoint>)
    ensures AllNotes(keys, s + t, unspent)
         == AllNotes(keys, s, unspent) + AllNotes(keys, t, FollowAll(s, keys.Hits, unspent))
  {
    hide Notes;
    if t == [] {
      assert s + t == s;
    } else {
      var n := |t| - 1;
      AllNotesConcat(keys, s, t[..n], unspent);
      FollowAllConcat(s, t[..n], keys.Hits, unspent);
      assert (s + t)[..|s + t| - 1] == s + t[..n];
    }
  }

  /** About one transaction: first that it redeems, if an input was unspent, then that it is received, if an output
      that is no separator has a wanted address. */
  lemma OneTxNotes(keys: Keys, tx: Tx, unspent: set<OutPoint>)
    ensures AllNotes(keys, [tx], unspent) ==
            (if exists op :: op in tx.ins && !tx.crossChain && op.hash != 0 && op in unspent then [Redeeming(tx)] else [])
            + (if exists i, j :: 0 <= i < |tx.outs| && 0 <= j < |tx.outs[i].addrs|
                                 && !tx.outs[i].separator && keys.Wants(tx.outs[i].addrs[j])
               then [Received(tx)] else [])
  {
    assert [tx][..0] == [];
    assert AllNotes(keys, [tx][..0], unspent) == [] && FollowAll([tx][..0], keys.Hits, unspent) == unspent;
    assert AllNotes(keys, [tx], unspent) == Notes(keys, tx, unspent);
    RedeemingIff(tx, unspent);
    ReceivedIff(keys, tx);
  }

  lemma RedeemingIff(tx: Tx, unspent: set<OutPoint>)
    ensures Spends(tx) * unspent != {} <==> exists op :: op in tx.ins && !tx.crossChain && op.hash != 0 && op in unspent
  {
    forall op ensures op in Spends(tx) <==> !tx.crossChain && op.hash != 0 && op in tx.ins {
      SpendsAre(tx, op);
    }
    hide Spends;
    if op :| op in Spends(tx) * unspent {
      assert op in tx.ins;
    }
    if op :| op in tx.ins && !tx.crossChain && op.hash != 0 && op in unspent {
      assert op in Spends(tx) * unspent;
    }
  }

  lemma ReceivedIff(keys: Keys, tx: Tx)
    ensures Creates(tx, keys.Hits) != {} <==>
            exists i, j :: 0 <= i < |tx.outs| && 0 <= j < |tx.outs[i].addrs|
                           && !tx.outs[i].separator && keys.Wants(tx.outs[i].addrs[j])
  {
    hide Keys.Wants;
    if op :| op in Creates(tx, keys.Hits) {
      CreatesAre(tx, keys.Hits, op);
      assert keys.Hits(tx.outs[op.index]);
    }
    if i, j :| 0 <= i < |tx.outs| && 0 <= j < |tx.outs[i].addrs| && !tx.outs[i].separator && keys.Wants(tx.outs[i].addrs[j]) {
      assert keys.Hits(tx.outs[i]);
      CreatesAre(tx, keys.Hits, OutPoint(tx.hash, i));
    }
  }

  /** How many notes of one kind there are about a transaction. */
  function Count(ns: seq<Note>, n: Note): nat {
    if ns == [] then 0 else Count(ns[..|ns| - 1], n) + if ns[|ns| - 1] == n then 1 else 0
  }

  lemma {:induction false} CountConcat(s: seq<Note>, t: seq<Note>, n: Note)
    ensures Count(s + t, n) == Count(s, n) + Count(t, n)
  {
    if t == [] {
      assert s + t == s;
    } else {
      CountConcat(s, t[..|t| - 1], n);
      assert (s + t)[..|s + t| - 1] == s + t[..|t| - 1];
    }
  }

  function Occurrences(txs: seq<Tx>, tx: Tx): nat {
    if txs == [] then 0 else Occurrences(txs[..|txs| - 1], tx) + if txs[|txs| - 1] == tx then 1 else 0
  }

  lemma NotesCount(keys: Keys, tx: Tx, unspent: set<OutPoint>, n: Note)
    ensures Count(Notes(keys, tx, unspent), n) <= if n.tx == tx then 1 else 0
  {
    hide Spends, Creates;
    var r := if Spends(tx) * unspent != {} then [Redeeming(tx)] else [];
    var c := if Creates(tx, keys.Hits) != {} then [Received(tx)] else [];
    CountConcat(r, c, n);
    assert r != [] ==> r[..|r| - 1] == [];
    assert c != [] ==> c[..|c| - 1] == [];
  }

  /** However often its inputs and outputs match, each scanned transaction is reported at most
      once as redeeming and at most once as received. */
  lemma {:induction false} AtMostOneNote(keys: Keys, txs: seq<Tx>, unspent: set<OutPoint>, n: Note)
    ensures Count(AllNotes(keys, txs, unspent), n) <= Occurrences(txs, n.tx)
  {
    if txs != [] {
      var m := |txs| - 1;
      AtMostOneNote(keys, txs[..m], unspent, n);
      var before := FollowAll(txs[..m], keys.Hits, unspent);
      NotesCount(keys, txs[m], before, n);
      CountConcat(AllNotes(keys, txs[..m], unspent), Notes(keys, txs[m], before), n);
    }
  }
}
