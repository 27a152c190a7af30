/** Answering a getblocks message: the rotation count at the first block, and the merge of
    ordinary and miner blocks into one inventory. */
module Inventory {
  import opened Options

  const POW_ROTATE := 2
  const MINER_ROTATE_FREQ := 20
  const MAX_BLOCKS_PER_MSG := 500

  // ------------------------------------------------------------ rotation count

  /** How many committee rotations lie behind the block at height h: a block found by work
      rotates twice, a rotation block states the number, other blocks leave it unchanged. */
  function Rotation(nonces: seq<int>, h: nat): int
    requires h < |nonces|
  {
    if h == 0 then 0
    else if nonces[h] > 0 then Rotation(nonces, h - 1) + POW_ROTATE
    else if nonces[h] <= -MINER_ROTATE_FREQ then -(nonces[h] + MINER_ROTATE_FREQ)
    else Rotation(nonces, h - 1)
  }

  /** The scan runs backward and stops at the last rotation block or at the first block. */
  method ScanRotation(nonces: seq<int>, h: nat) returns (rot: int)
    requires h < |nonces|
    ensures rot == Rotation(nonces, h)
  {
    var p := h as int;
    var r, d := -1, 0;
    while p >= 0 && r < 0
      invariant -1 <= p <= h && r >= -1
      invariant p == -1 ==> r >= 0
      invariant r < 0 ==> p >= 0 && Rotation(nonces, h) == Rotation(nonces, p) + d
      invariant r >= 0 ==> Rotation(nonces, h) == r + d
      decreases p + 1
    {
      if p == 0 {
        r := 0;
      } else if nonces[p] > 0 {
        d := d + POW_ROTATE;
      } else if nonces[p] <= -MINER_ROTATE_FREQ {
        r := -(nonces[p] + MINER_ROTATE_FREQ);
      }
      p := p - 1;
    }
    rot := r + d;
  }

  /** How the merge keeps its count up to date after sending a block. */
  function Advance(rot: int, nonce: int): int {
    if nonce > 0 then rot + POW_ROTATE
    else if nonce <= -MINER_ROTATE_FREQ then -(nonce + MINER_ROTATE_FREQ)
    else rot
  }

  /** The merge's count after sending the blocks at heights h to h + n - 1, starting from the scan at h. */
  function Tracked(nonces: seq<int>, h: nat, n: nat): int
    requires h + n <= |nonces| && h < |nonces|
  {
    if n == 0 then Rotation(nonces, h) else Advance(Tracked(nonces, h, n - 1), nonces[h + n - 1])
  }

  /** A rotation block among the blocks sent after the first. */
  ghost predicate RotatesWithin(nonces: seq<int>, h: nat, n: nat)
    requires h + n <= |nonces|
  {
    exists k :: h < k < h + n && nonces[k] <= -MINER_ROTATE_FREQ
  }

  /** What counting the first block a second time adds to the rotation count there. */
  function Again(nonces: seq<int>, h: nat): int
    requires h < |nonces|
  {
    Advance(Rotation(nonces, h), nonces[h]) - Rotation(nonces, h)
  }

  /** Above the first block of the chain that is two for a block found by work and nothing otherwise. */
  lemma AgainIs(nonces: seq<int>, h: nat)
    requires 0 < h < |nonces|
    ensures Again(nonces, h) == if nonces[h] > 0 then POW_ROTATE else 0
  {
  }

  /** The first block is counted by the scan and again when it is sent, until a rotation block is sent. */
  lemma {:induction false} TrackedIs(nonces: seq<int>, h: nat, n: nat)
    requires 0 < n && h + n <= |nonces|
    ensures Tracked(nonces, h, n) == Rotation(nonces, h + n - 1) + if RotatesWithin(nonces, h, n) then 0 else Again(nonces, h)
  {
    if n == 1 {
      assert Tracked(nonces, h, 0) == Rotation(nonces, h);
    } else {
      TrackedIs(nonces, h, n - 1);
      var k := h + n - 1;
      assert RotatesWithin(nonces, h, n) <==> RotatesWithin(nonces, h, n - 1) || nonces[k] <= -MINER_ROTATE_FREQ by {
        if nonces[k] <= -MINER_ROTATE_FREQ {
          assert h < k < h + n;
        }
      }
    }
  }

  // ----------------------------------------------------------------- the merge

  type Hash = nat

  datatype Inv = TxBlock(hash: Hash) | MinerBlock(hash: Hash)

  function TxPart(inv: seq<Inv>): seq<Hash> {
    if inv == [] then []
    else TxPart(inv[..|inv| - 1]) + if inv[|inv| - 1].TxBlock? then [inv[|inv| - 1].hash] else []
  }

  function MinerPart(inv: seq<Inv>): seq<Hash> {
    if inv == [] then []
    else MinerPart(inv[..|inv| - 1]) + if inv[|inv| - 1].MinerBlock? then [inv[|inv| - 1].hash] else []
  }

  lemma PartsLast(inv: seq<Inv>, e: Inv)
    ensures TxPart(inv + [e]) == TxPart(inv) + if e.TxBlock? then [e.hash] else []
    ensures MinerPart(inv + [e]) == MinerPart(inv) + if e.MinerBlock? then [e.hash] else []
  {
    assert (inv + [e])[..|inv|] == inv;
  }

  /** The two lists of hashes and what the chains answer about them. */
  datatype Lists = Lists(hashes: seq<Hash>, mhashes: seq<Hash>, headerNonce: Hash -> int, minerHeight: Hash -> Option<int>)

  /** The count once the first i ordinary blocks are sent: two more for a block found by work, the
      number a rotation block states, unchanged by other blocks. */
  ghost function Counted(lists: Lists, rot0: int, i: nat): int
    requires i <= |lists.hashes|
  {
    if i == 0 then rot0
    else
      var n := lists.headerNonce(lists.hashes[i - 1]);
      if n > 0 then Counted(lists, rot0, i - 1) + 2 else if n <= -20 then -n - 20 else Counted(lists, rot0, i - 1)
  }

  /** The nonce of the last of the first i ordinary blocks. */
  ghost function LastNonce(lists: Lists, nonce0: int, i: nat): int
    requires i <= |lists.hashes|
  {
    if i == 0 then nonce0 else lists.headerNonce(lists.hashes[i - 1])
  }

  /** The height compared with once j miner blocks are sent: that of the first one or else of the one sent last;
      none if it cannot be looked up or no miner block is left. */
  ghost function Compared(lists: Lists, j: nat): Option<int>
    requires j <= |lists.mhashes|
  {
    if j == |lists.mhashes| then None else lists.minerHeight(lists.mhashes[if j == 0 then 0 else j - 1])
  }

  /** With i ordinary and j miner blocks sent, a miner block goes next: one is left and either no ordinary block is,
      or its comparison height is known and a rotation is about to happen or the next one reaches that height. */
  ghost predicate MinerDue(lists: Lists, rot0: int, nonce0: int, i: nat, j: nat)
    requires i <= |lists.hashes| && j <= |lists.mhashes|
  {
    && j < |lists.mhashes|
    && (i == |lists.hashes|
        || (Compared(lists, j).Some?
            && (LastNonce(lists, nonce0, i) <= -18 || Counted(lists, rot0, i) + 1 >= Compared(lists, j).value)))
  }

  /** Every entry is a miner block exactly when one was due. */
  ghost predicate Ordered(lists: Lists, rot0: int, nonce0: int, inv: seq<Inv>) {
    forall m :: 0 <= m < |inv| ==>
      var i, j := |TxPart(inv[..m])|, |MinerPart(inv[..m])|;
      i <= |lists.hashes| && j <= |lists.mhashes| && (inv[m].MinerBlock? <==> MinerDue(lists, rot0, nonce0, i, j))
  }

  lemma CountedNext(lists: Lists, rot0: int, nonce0: int, i: nat)
    requires i < |lists.hashes|
    ensures var n := lists.headerNonce(lists.hashes[i]);
            Counted(lists, rot0, i + 1) == Advance(Counted(lists, rot0, i), n) && LastNonce(lists, nonce0, i + 1) == n
  {
  }

  lemma ComparedNext(lists: Lists, j: nat)
    requires j < |lists.mhashes|
    ensures Compared(lists, j + 1) == if j + 1 < |lists.mhashes| then lists.minerHeight(lists.mhashes[j]) else None
  {
  }

  lemma OrderedMore(lists: Lists, rot0: int, nonce0: int, inv: seq<Inv>, e: Inv)
    requires Ordered(lists, rot0, nonce0, inv)
    requires |TxPart(inv)| <= |lists.hashes| && |MinerPart(inv)| <= |lists.mhashes|
    requires e.MinerBlock? <==> MinerDue(lists, rot0, nonce0, |TxPart(inv)|, |MinerPart(inv)|)
    ensures Ordered(lists, rot0, nonce0, inv + [e])
  {
    hide TxPart, MinerPart, MinerDue;
    forall m | 0 <= m < |inv| + 1 ensures (inv + [e])[..m] == inv[..m] {
    }
    assert inv[..|inv|] == inv;
  }

  /** The merge of the two hash lists. The block lookups may answer anything or fail. */
  method Merge(lists: Lists, rot0: int, nonce0: int)
    returns (inv: seq<Inv>, i: nat, j: nat, continueHash: Option<Hash>, mcontinueHash: Option<Hash>)
    ensures i <= |lists.hashes| && j <= |lists.mhashes|
    ensures TxPart(inv) == lists.hashes[..i] && MinerPart(inv) == lists.mhashes[..j]
    ensures |inv| == i + j == Min(|lists.hashes| + |lists.mhashes|, MAX_BLOCKS_PER_MSG)
    ensures continueHash == if i == 0 || i == |lists.hashes| then None else Some(lists.hashes[i - 1])
    ensures mcontinueHash == if j == 0 || j == |lists.mhashes| then None else Some(lists.mhashes[j - 1])
    ensures Ordered(lists, rot0, nonce0, inv)
  {
    hide TxPart, MinerPart, Ordered, Counted, LastNonce, Compared;
    var hashes, mhashes := lists.hashes, lists.mhashes;
    var m := 0;
    var rot, nonce := rot0, nonce0;
    var mblock: Option<int> := None;
    continueHash, mcontinueHash := None, None;
    if |mhashes| > 0 {
      mblock := lists.minerHeight(mhashes[0]);
    }
    inv, i, j := [], 0, 0;
    PartsNone();
    OrderedNone(lists, rot0, nonce0);
    AtStart(lists, rot0, nonce0);
    while i < |hashes| || j < |mhashes|
      invariant i <= |hashes| && j <= |mhashes| && m == |inv| == i + j <= MAX_BLOCKS_PER_MSG
      invariant TxPart(inv) == hashes[..i] && MinerPart(inv) == mhashes[..j]
      invariant continueHash == if i == 0 || i == |hashes| then None else Some(hashes[i - 1])
      invariant mcontinueHash == if j == 0 || j == |mhashes| then None else Some(mhashes[j - 1])
      invariant Ordered(lists, rot0, nonce0, inv) && mblock == Compared(lists, j)
      invariant i < |hashes| ==> rot == Counted(lists, rot0, i) && nonce == LastNonce(lists, nonce0, i)
      decreases |hashes| + |mhashes| - i - j
    {
      if m == MAX_BLOCKS_PER_MSG { break; }
      NoneLeft(lists, j);
      if i < |hashes| && (mblock.None? || (nonce > 2 - MINER_ROTATE_FREQ && rot + 1 < mblock.value)) {
        var th := hashes[i];
        PartsLast(inv, TxBlock(th));
        OrderedMore(lists, rot0, nonce0, inv, TxBlock(th));
        CountedNext(lists, rot0, nonce0, i);
        inv := inv + [TxBlock(th)];
        continueHash := Some(th);
        i := i + 1;
        if i < |hashes| {
          var n := lists.headerNonce(th);
          rot := Advance(rot, n);
          nonce := n;
        } else {
          continueHash := None;
        }
      } else {
        var th := mhashes[j];
        PartsLast(inv, MinerBlock(th));
        OrderedMore(lists, rot0, nonce0, inv, MinerBlock(th));
        ComparedNext(lists, j);
        inv := inv + [MinerBlock(th)];
        j := j + 1;
        mcontinueHash := Some(th);
        if j < |mhashes| {
          mblock := lists.minerHeight(th);
        } else {
          mblock := None;
          mcontinueHash := None;
        }
      }
      m := m + 1;
    }
  }

  function Min(a: int, b: int): int { if a < b then a else b }

  lemma NoneLeft(lists: Lists, j: nat)
    requires j <= |lists.mhashes|
    ensures Compared(lists, j).Some? ==> j < |lists.mhashes|
  {
  }

  lemma AtStart(lists: Lists, rot0: int, nonce0: int)
    ensures Counted(lists, rot0, 0) == rot0 && LastNonce(lists, nonce0, 0) == nonce0
    ensures Compared(lists, 0) == if lists.mhashes == [] then None else lists.minerHeight(lists.mhashes[0])
  {
  }

  lemma OrderedNone(lists: Lists, rot0: int, nonce0: int)
    ensures Ordered(lists, rot0, nonce0, [])
  {
  }

  lemma PartsNone()
    ensures TxPart([]) == [] && MinerPart([]) == []
  {
  }

  // ------------------------------------------- the rotation count of the merge

  /** The hashes are those of the blocks from height h on, with their nonces. */
  ghost predicate OnChain(lists: Lists, nonces: seq<int>, h: nat) {
    && h + |lists.hashes| <= |nonces|
    && forall i :: 0 <= i < |lists.hashes| ==> lists.headerNonce(lists.hashes[i]) == nonces[h + i]
  }

  /** On the chain the count of the merge is the tracked one. */
  lemma {:induction false} CountedIsTracked(lists: Lists, nonces: seq<int>, h: nat, i: nat)
    requires OnChain(lists, nonces, h) && i <= |lists.hashes| && lists.hashes != []
    ensures Counted(lists, Rotation(nonces, h), i) == Tracked(nonces, h, i)
  {
    if i > 0 {
      CountedIsTracked(lists, nonces, h, i - 1);
    }
  }

  /** While the merge runs, its rotation count is the true one of the last ordinary block sent, plus what the first
      block adds when counted a second time, unless a rotation block was sent since. So above the first block of
      the chain it is wrong if and only if the first block sent was found by work and no rotation block followed. */
  lemma TrackedIff(lists: Lists, nonces: seq<int>, h: nat, i: nat)
    requires OnChain(lists, nonces, h) && 0 < i < |lists.hashes|
    ensures var count := Counted(lists, Rotation(nonces, h), i);
            && count == Rotation(nonces, h + i - 1) + (if RotatesWithin(nonces, h, i) then 0 else Again(nonces, h))
            && (0 < h ==> (count != Rotation(nonces, h + i - 1) <==> nonces[h] > 0 && !RotatesWithin(nonces, h, i)))
  {
    CountedIsTracked(lists, nonces, h, i);
    hide Tracked, Rotation, Again;
    TrackedIs(nonces, h, i);
    if 0 < h {
      AgainIs(nonces, h);
    }
  }

  /** Answers a request whose ordinary blocks start at height h. */
  method AnswerGetBlocks(lists: Lists, nonces: seq<int>, h: nat)
    returns (inv: seq<Inv>, i: nat, j: nat, continueHash: Option<Hash>, mcontinueHash: Option<Hash>)
    requires OnChain(lists, nonces, h)
    ensures i <= |lists.hashes| && j <= |lists.mhashes|
    ensures TxPart(inv) == lists.hashes[..i] && MinerPart(inv) == lists.mhashes[..j]
    ensures |inv| == i + j == Min(|lists.hashes| + |lists.mhashes|, MAX_BLOCKS_PER_MSG)
    ensures continueHash == if i == 0 || i == |lists.hashes| then None else Some(lists.hashes[i - 1])
    ensures mcontinueHash == if j == 0 || j == |lists.mhashes| then None else Some(lists.mhashes[j - 1])
    ensures lists.hashes != [] ==>
              var n := lists.headerNonce(lists.hashes[0]);
              Ordered(lists, Rotation(nonces, h), if n < 0 then n else -1, inv)
  {
    hide TxPart, MinerPart, Rotation, Ordered;
    var rot, nonce := 0, -1;
    if |lists.hashes| > 0 {
      rot := ScanRotation(nonces, h);
      if lists.headerNonce(lists.hashes[0]) < 0 {
        nonce := lists.headerNonce(lists.hashes[0]);
      }
    }
    inv, i, j, continueHash, mcontinueHash := Merge(lists, rot, nonce);
  }

  /** A block found by work followed by an ordinary one, and a miner block of height 4: after the first block the
      count is 4 where the true one is 2, so the miner block goes before the second block and not after it. */
  lemma CountedTwice(a: Hash, b: Hash, m: Hash)
    requires a != b
    ensures var nonces := [0, 5, -1];
            var lists := Lists([a, b], [m], x => if x == a then 5 else -1, _ => Some(4));
            && OnChain(lists, nonces, 1)
            && Counted(lists, Rotation(nonces, 1), 1) == 4 && Rotation(nonces, 1) == 2
            && MinerDue(lists, Rotation(nonces, 1), -1, 1, 0)
            && Compared(lists, 0) == Some(4) && LastNonce(lists, -1, 1) > -18 && Rotation(nonces, 1) + 1 < 4
  {
    var nonces := [0, 5, -1];
    var lists := Lists([a, b], [m], x => if x == a then 5 else -1, _ => Some(4));
    assert Rotation(nonces, 0) == 0;
    assert Rotation(nonces, 1) == 2;
    assert Counted(lists, 2, 0) == 2;
  }
}
