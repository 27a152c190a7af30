/** What a client asks for by address strings: live watching files the strings as given, a rescan decodes them; and
    live watching follows pool transactions, a rescan only blocks. When the two see the same outputs, and what follows
    for the outpoints they end up with. */
module LiveAndRescan {
  import opened Options
  import opened ChainScan
  import opened Rescan
  import opened WatchIndex
  import opened WatchRuns

  // ------------------------------------------------------------ address strings

  predicate IsByte(x: int) { 0 <= x < 256 }

  predicate AllBytes(s: Bytes) { forall i :: 0 <= i < |s| ==> IsByte(s[i]) }

  predicate IsHash(h: Bytes) { |h| == 20 && AllBytes(h) }

  datatype Kind = P2PKH | P2SH | Contract | MultiSig | Unknown

  /** The encodings the code relies on: base58 with a checksum, hexadecimal, public keys, and what the first byte of
      an address stands for. The four bytes at the end are those of the node's own network. */
  datatype Codec = Codec(
    checkEncode: (int, Bytes) -> string,
    checkDecode: string -> Option<(int, Bytes)>,
    hexDecode: string -> Option<Bytes>,
    parsePubKey: Bytes -> Option<(Bytes, Bytes)>,      // the key serialized, and its hash
    hash160: Bytes -> Bytes,
    kind: int -> Kind,
    pubKeyHashId: int, scriptHashId: int, contractId: int, multiSigId: int)
  {
    /** Encodings with a checksum can be read back, and do not have the length of a public key in hexadecimal. */
    ghost predicate Sound() {
      && (forall id, h :: IsByte(id) && IsHash(h) ==> checkDecode(checkEncode(id, h)) == Some((id, h)))
      && (forall id, h :: IsByte(id) && IsHash(h) ==> |checkEncode(id, h)| != 66 && |checkEncode(id, h)| != 130)
      && (forall s :: checkDecode(s).Some? ==> IsByte(checkDecode(s).value.0) && AllBytes(checkDecode(s).value.1))
      && (forall s :: hexDecode(s).Some? ==> AllBytes(hexDecode(s).value))
      && (forall b :: IsHash(hash160(b)))
      && IsByte(pubKeyHashId) && IsByte(scriptHashId) && IsByte(contractId) && IsByte(multiSigId)
      && kind(pubKeyHashId) == P2PKH && kind(scriptHashId) == P2SH
      && kind(contractId) == Contract && kind(multiSigId) == MultiSig
    }

    function Encode(a: Address): string {
      match a
      case PubKeyHash(h) => checkEncode(pubKeyHashId, h)
      case ScriptHash(h) => checkEncode(scriptHashId, h)
      case PubKey(_, pkh) => checkEncode(pubKeyHashId, pkh)
      case OtherAddress(s) => s
    }

    function OfKind(id: int, h: Bytes): Option<Address> {
      if |h| != 20 then None
      else
        match kind(id)
        case P2PKH => Some(PubKeyHash(h))
        case P2SH => Some(ScriptHash(h))
        case Contract => Some(OtherAddress(checkEncode(id, h)))
        case MultiSig => Some(OtherAddress(checkEncode(id, h)))
        case Unknown => None
    }

    /** Reading an address string: a public key in hexadecimal, else base58 with a checksum, else the bytes in
        hexadecimal. The network an address is for is not looked at. */
    function Decode(s: string): Option<Address> {
      if |s| == 130 || |s| == 66 then
        match hexDecode(s)
        case None => None
        case Some(b) =>
          match parsePubKey(b)
          case None => None
          case Some((key, pkh)) => Some(PubKey(key, pkh))
      else
        match checkDecode(s)
        case Some((id, h)) => OfKind(id, h)
        case None =>
          match hexDecode(s)
          case None => None
          case Some(b) => if b == [] then None else OfKind(b[0], b[1..])
    }

    /** The address found in a script that pays to script hash h. The bytes of the script are hashed once more. */
    function PaidScriptHash(h: Bytes): Address { ScriptHash(hash160(h)) }

    /** The addresses found in output scripts: hashes and contracts of the node's own network, never public keys. */
    ghost predicate Extracted(a: Address) {
      match a
      case PubKeyHash(h) => IsHash(h)
      case ScriptHash(_) => exists h :: IsHash(h) && a == PaidScriptHash(h)
      case PubKey(_, _) => false
      case OtherAddress(s) =>
        match checkDecode(s)
        case None => false
        case Some((id, h)) => IsHash(h) && (id == contractId || id == multiSigId) && s == checkEncode(id, h)
    }

    ghost predicate Extractable(out: Output) {
      (out.bad ==> out.addrs == []) && forall i :: 0 <= i < |out.addrs| ==> Extracted(out.addrs[i])
    }

    /** A string decodes to a public key exactly when it is 66 or 130 hexadecimal digits of one. */
    lemma DecodesToKey(s: string, key: Bytes, pkh: Bytes)
      ensures Decode(s) == Some(PubKey(key, pkh)) <==>
              |s| in {66, 130} && hexDecode(s).Some? && parsePubKey(hexDecode(s).value) == Some((key, pkh))
    {
    }

    /** The bytes h behind an identifier, in base58 with a checksum or, failing that, in hexadecimal. */
    ghost predicate Holds(s: string, id: int, h: Bytes) {
      checkDecode(s) == Some((id, h)) || (checkDecode(s).None? && hexDecode(s) == Some([id] + h))
    }

    /** A string of another length decodes to a hash exactly when it holds twenty bytes behind an identifier of that kind. */
    lemma DecodesToHash(s: string, h: Bytes)
      ensures Decode(s) == Some(PubKeyHash(h)) <==>
              |s| !in {66, 130} && |h| == 20 && exists id :: kind(id) == P2PKH && Holds(s, id, h)
      ensures Decode(s) == Some(ScriptHash(h)) <==>
              |s| !in {66, 130} && |h| == 20 && exists id :: kind(id) == P2SH && Holds(s, id, h)
    {
      if checkDecode(s).Some? {
        assert Holds(s, checkDecode(s).value.0, checkDecode(s).value.1);
      } else if hexDecode(s).Some? && hexDecode(s).value != [] {
        var b := hexDecode(s).value;
        assert b == [b[0]] + b[1..];
        assert Holds(s, b[0], b[1..]);
      }
    }

    lemma RoundTrip(a: Address)
      requires Sound() && Extracted(a)
      ensures Decode(Encode(a)) == Some(a)
    {
    }
  }

  ghost predicate AllExtractable(codec: Codec, txs: seq<Tx>) {
    forall t, i :: 0 <= t < |txs| && 0 <= i < |txs[t].outs| ==> codec.Extractable(txs[t].outs[i])
  }

  // ---------------------------------------------------------- the rescan's lookups

  /** A string a rescan can use: it decodes, and a public key has a known length. */
  predicate Usable(codec: Codec, s: string) {
    var a := codec.Decode(s);
    a.Some? && (a.value.PubKey? ==> |a.value.serialized| == 33 || |a.value.serialized| == 65)
  }

  ghost predicate AsksKey(codec: Codec, ss: seq<string>, k: Bytes) {
    exists s :: s in ss && codec.Decode(s).Some? && codec.Decode(s).value.PubKey? && codec.Decode(s).value.serialized == k
  }

  lemma AsksMore(codec: Codec, ss: seq<string>, s: string, k: Bytes)
    ensures AsksKey(codec, ss + [s], k) <==>
            AsksKey(codec, ss, k) ||
            (codec.Decode(s).Some? && codec.Decode(s).value.PubKey? && codec.Decode(s).value.serialized == k)
  {
    hide Codec.Decode;
    assert forall t :: t in ss + [s] <==> t in ss || t == s;
    assert s in ss + [s];
  }

  /** The lookups hold what the strings decode to; of other kinds of addresses, the string itself. */
  ghost predicate LookupsFor(codec: Codec, ss: seq<string>, keys: Keys) {
    && (forall k :: k in keys.compressedPubKeys <==> |k| == 33 && AsksKey(codec, ss, k))
    && (forall k :: k in keys.uncompressedPubKeys <==> |k| == 65 && AsksKey(codec, ss, k))
    && (forall h :: h in keys.pubKeyHashes <==> exists s :: s in ss && codec.Decode(s) == Some(PubKeyHash(h)))
    && (forall h :: h in keys.scriptHashes <==> exists s :: s in ss && codec.Decode(s) == Some(ScriptHash(h)))
    && (forall s :: s in keys.fallbacks <==> s in ss && codec.Decode(s).Some? && codec.Decode(s).value.OtherAddress?)
  }

  const NO_KEYS := Keys({}, {}, {}, {}, {})

  /** One string more. */
  function Added(codec: Codec, keys: Keys, s: string): Keys
    requires Usable(codec, s)
  {
    match codec.Decode(s).value
    case PubKeyHash(h) => keys.(pubKeyHashes := keys.pubKeyHashes + {h})
    case ScriptHash(h) => keys.(scriptHashes := keys.scriptHashes + {h})
    case PubKey(k, _) =>
      if |k| == 33 then keys.(compressedPubKeys := keys.compressedPubKeys + {k})
      else keys.(uncompressedPubKeys := keys.uncompressedPubKeys + {k})
    case OtherAddress(_) => keys.(fallbacks := keys.fallbacks + {s})
  }

  lemma NoLookups(codec: Codec, ss: seq<string>)
    requires ss == []
    ensures LookupsFor(codec, ss, NO_KEYS)
  {
    hide Codec.Decode;
  }

  lemma LookupsMore(codec: Codec, ss: seq<string>, keys: Keys, s: string)
    requires LookupsFor(codec, ss, keys) && Usable(codec, s)
    ensures LookupsFor(codec, ss + [s], Added(codec, keys, s))
  {
    hide Codec.Decode;
    var keys' := Added(codec, keys, s);
    forall k
      ensures k in keys'.compressedPubKeys <==> |k| == 33 && AsksKey(codec, ss + [s], k)
      ensures k in keys'.uncompressedPubKeys <==> |k| == 65 && AsksKey(codec, ss + [s], k)
    {
      AsksMore(codec, ss, s, k);
      hide AsksKey;
    }
    hide AsksKey;
    assert forall t :: t in ss + [s] <==> t in ss || t == s;
    forall h ensures h in keys'.pubKeyHashes <==> exists t :: t in ss + [s] && codec.Decode(t) == Some(PubKeyHash(h)) {
      if h in keys'.pubKeyHashes && h !in keys.pubKeyHashes {
        assert s in ss + [s] && codec.Decode(s) == Some(PubKeyHash(h));
      }
    }
    forall h ensures h in keys'.scriptHashes <==> exists t :: t in ss + [s] && codec.Decode(t) == Some(ScriptHash(h)) {
      if h in keys'.scriptHashes && h !in keys.scriptHashes {
        assert s in ss + [s] && codec.Decode(s) == Some(ScriptHash(h));
      }
    }
  }

  /** Builds the lookups of a rescan. */
  method BuildLookups(codec: Codec, ss: seq<string>) returns (r: Option<Keys>)
    ensures r.Some? <==>
            forall s :: s in ss ==>
              && codec.Decode(s).Some?
              && (codec.Decode(s).value.PubKey? ==> |codec.Decode(s).value.serialized| in {33, 65})
    ensures r.Some? ==> LookupsFor(codec, ss, r.value)
  {
    hide LookupsFor, Added, Codec.Decode;
    var keys := NO_KEYS;
    NoLookups(codec, ss[..0]);
    for i := 0 to |ss|
      invariant forall k :: 0 <= k < i ==> Usable(codec, ss[k])
      invariant LookupsFor(codec, ss[..i], keys)
    {
      assert ss[i] in ss;
      if !Usable(codec, ss[i]) {
        return None;
      }
      LookupsMore(codec, ss[..i], keys, ss[i]);
      assert ss[..i + 1] == ss[..i] + [ss[i]];
      keys := Added(codec, keys, ss[i]);
    }
    assert ss[..|ss|] == ss;
    return Some(keys);
  }

  // ---------------------------------------------------- which outputs are seen

  /** A string for a hash that scripts can pay to. */
  ghost predicate ForHash(codec: Codec, s: string) {
    var a := codec.Decode(s);
    a.Some? && (a.value.PubKeyHash? || a.value.ScriptHash?) && codec.Extracted(a.value)
  }

  /** Each such hash asked for is also asked for by the string the node itself would write for it. */
  ghost predicate Canonical(codec: Codec, ss: seq<string>) {
    forall s :: s in ss && ForHash(codec, s) ==> codec.Encode(codec.Decode(s).value) in ss
  }

  ghost function Strings(ss: seq<string>): set<string> {
    set s | s in ss
  }

  /** What live watching by the strings sees. */
  ghost function LiveHit(codec: Codec, ss: seq<string>): Output -> bool {
    Hit(codec.Encode, Strings(ss))
  }

  /** Live watching wants an address when its string was given, a rescan when some string decodes to it. */
  lemma WantsIs(codec: Codec, ss: seq<string>, keys: Keys, a: Address)
    requires codec.Sound() && LookupsFor(codec, ss, keys) && codec.Extracted(a)
    ensures codec.Encode(a) in ss ==> keys.Wants(a)
    ensures a.OtherAddress? ==> (keys.Wants(a) <==> codec.Encode(a) in ss)
    ensures !a.OtherAddress? ==> (keys.Wants(a) <==> exists s :: s in ss && codec.Decode(s) == Some(a))
  {
    codec.RoundTrip(a);
    hide Codec.Decode, Codec.Sound;
  }

  /** What a rescan wants, whatever the address: a hash some string decodes to, another address whose very string was
      given, and a public key of known length if some string decodes to it or to its hash. */
  lemma WantsAsked(codec: Codec, ss: seq<string>, keys: Keys, a: Address)
    requires LookupsFor(codec, ss, keys)
    ensures a.PubKeyHash? || a.ScriptHash? ==> (keys.Wants(a) <==> exists s :: s in ss && codec.Decode(s) == Some(a))
    ensures a.OtherAddress? ==>
              (keys.Wants(a) <==>
               a.encoded in ss && codec.Decode(a.encoded).Some? && codec.Decode(a.encoded).value.OtherAddress?)
    ensures a.PubKey? ==>
              (keys.Wants(a) <==>
               && |a.serialized| in {33, 65}
               && (AsksKey(codec, ss, a.serialized) || exists s :: s in ss && codec.Decode(s) == Some(PubKeyHash(a.pkh))))
  {
    hide Codec.Decode, AsksKey;
  }

  lemma WantsSame(codec: Codec, ss: seq<string>, keys: Keys, a: Address)
    requires codec.Sound() && LookupsFor(codec, ss, keys) && codec.Extracted(a) && Canonical(codec, ss)
    ensures keys.Wants(a) <==> codec.Encode(a) in ss
  {
    hide Codec.Decode, Codec.Sound, LookupsFor, Keys.Wants, Codec.Encode;
    WantsIs(codec, ss, keys, a);
    if keys.Wants(a) && !a.OtherAddress? {
      var s :| s in ss && codec.Decode(s) == Some(a);
      ExtractedIsHash(codec, a);
      hide Codec.Extracted;
      assert ForHash(codec, s);
    }
  }

  lemma ExtractedIsHash(codec: Codec, a: Address)
    requires codec.Extracted(a) && !a.OtherAddress?
    ensures a.PubKeyHash? || a.ScriptHash?
  {
  }

  /** Whatever live watching sees, a rescan sees. */
  lemma LiveIsRescanned(codec: Codec, ss: seq<string>, keys: Keys, out: Output)
    requires codec.Sound() && LookupsFor(codec, ss, keys) && codec.Extractable(out)
    ensures LiveHit(codec, ss)(out) ==> keys.Hits(out)
  {
    hide Codec.Decode, Codec.Sound, LookupsFor, Keys.Wants, Codec.Encode, Codec.Extracted;
    if LiveHit(codec, ss)(out) {
      var j :| 0 <= j < |out.addrs| && codec.Encode(out.addrs[j]) in Strings(ss);
      WantsIs(codec, ss, keys, out.addrs[j]);
    }
  }

  lemma SeesSame(codec: Codec, ss: seq<string>, keys: Keys, out: Output)
    requires codec.Sound() && LookupsFor(codec, ss, keys) && codec.Extractable(out) && Canonical(codec, ss)
    ensures LiveHit(codec, ss)(out) <==> keys.Hits(out)
  {
    LiveIsRescanned(codec, ss, keys, out);
    hide Codec.Decode, Codec.Sound, LookupsFor, Keys.Wants, Codec.Encode, Codec.Extracted, Canonical;
    if keys.Hits(out) {
      var j :| 0 <= j < |out.addrs| && keys.Wants(out.addrs[j]);
      WantsSame(codec, ss, keys, out.addrs[j]);
    }
  }

  /** A transaction with one output to one address. */
  function Paying(a: Address): Tx { Tx(1, false, [], [Output(false, false, [a])]) }

  lemma PayingCreates(a: Address, hit: Output -> bool)
    ensures Creates(Paying(a), hit) == if hit(Output(false, false, [a])) then {OutPoint(1, 0)} else {}
  {
  }

  lemma PayingIs(a: Address, hit: Output -> bool)
    ensures FollowAll([Paying(a)], hit, {}) == if hit(Output(false, false, [a])) then {OutPoint(1, 0)} else {}
  {
    var tx := Paying(a);
    assert [tx][..0] == [];
    assert FollowAll([tx][..0], hit, {}) == {};
    assert Spends(tx) == {};
    PayingCreates(a, hit);
  }

  /** A string whose hash is not also asked for in the node's own form: a payment to the hash is found by a rescan and
      missed live. */
  lemma Missed(codec: Codec, ss: seq<string>, keys: Keys, s: string)
    requires codec.Sound() && LookupsFor(codec, ss, keys)
    requires s in ss && ForHash(codec, s) && codec.Encode(codec.Decode(s).value) !in ss
    ensures var txs := [Paying(codec.Decode(s).value)];
            && AllExtractable(codec, txs)
            && FollowAll(txs, LiveHit(codec, ss), {}) == {}
            && FollowAll(txs, keys.Hits, {}) == {OutPoint(1, 0)}
  {
    hide Codec.Decode, Codec.Sound, LookupsFor, Keys.Wants, Codec.Encode, Codec.Extracted, FollowAll;
    var a := codec.Decode(s).value;
    WantsIs(codec, ss, keys, a);
    var out := Output(false, false, [a]);
    assert out.addrs[0] == a;
    assert keys.Hits(out) && !LiveHit(codec, ss)(out);
    PayingIs(a, keys.Hits);
    PayingIs(a, LiveHit(codec, ss));
  }

  // -------------------------------------------------- which outpoints are followed

  lemma Agree(codec: Codec, ss: seq<string>, keys: Keys, txs: seq<Tx>, unspent: set<OutPoint>)
    requires codec.Sound() && LookupsFor(codec, ss, keys) && Canonical(codec, ss) && AllExtractable(codec, txs)
    ensures FollowAll(txs, LiveHit(codec, ss), unspent) == FollowAll(txs, keys.Hits, unspent)
  {
    hide Codec.Sound, LookupsFor, Keys.Hits, FollowAll, Codec.Extractable, Canonical, LiveHit;
    forall t, i | 0 <= t < |txs| && 0 <= i < |txs[t].outs|
      ensures LiveHit(codec, ss)(txs[t].outs[i]) == keys.Hits(txs[t].outs[i])
    {
      SeesSame(codec, ss, keys, txs[t].outs[i]);
    }
    SameHits(txs, LiveHit(codec, ss), keys.Hits, unspent);
  }

  /** By the same strings, live watching and a rescan follow the same outpoints through the transactions of all blocks
      if and only if the strings are canonical. */
  lemma AgreeIff(codec: Codec, ss: seq<string>, keys: Keys)
    requires codec.Sound() && LookupsFor(codec, ss, keys)
    ensures Canonical(codec, ss) <==>
            forall txs, unspent :: AllExtractable(codec, txs) ==>
              FollowAll(txs, LiveHit(codec, ss), unspent) == FollowAll(txs, keys.Hits, unspent)
  {
    hide Codec.Sound, LookupsFor, Keys.Hits, FollowAll, Codec.Extractable, LiveHit;
    if Canonical(codec, ss) {
      hide Canonical, Codec.Decode, Codec.Encode;
      forall txs, unspent | AllExtractable(codec, txs)
        ensures FollowAll(txs, LiveHit(codec, ss), unspent) == FollowAll(txs, keys.Hits, unspent)
      {
        Agree(codec, ss, keys, txs, unspent);
      }
    } else {
      var s :| s in ss && ForHash(codec, s) && codec.Encode(codec.Decode(s).value) !in ss;
      hide Canonical, Codec.Decode, Codec.Encode;
      Missed(codec, ss, keys, s);
    }
  }

  // ------------------------------------------------------------- over whole runs

  /** Every outpoint that the pool has left is one that the blocks leave as well. */
  ghost predicate PoolConfirmed(es: seq<Event>, hit: Output -> bool, unspent: set<OutPoint>) {
    forall op :: PooledAndKept(es, hit, op) ==> op in FollowAll(Mined(es), hit, unspent)
  }

  /** A client that asks by canonical strings and lives through any events without asking anew ends with the outpoints
      that a rescan of the blocks leaves, and with those that the pool has left. So the two are equal if and only if the
      blocks leave those as well. */
  lemma WatchingIsRescanning(codec: Codec, c: ClientId, ss: seq<string>, keys: Keys, unspent: set<OutPoint>, es: seq<Event>)
    requires codec.Sound() && LookupsFor(codec, ss, keys) && Canonical(codec, ss)
    requires Quiet(c, es) && AllExtractable(codec, Mined(es))
    ensures var hit := LiveHit(codec, ss);
            var live := SeenAll(codec.Encode, c, View(Strings(ss), unspent), es).watched;
            var rescanned := FollowAll(Mined(es), keys.Hits, unspent);
            && (forall op :: op in live <==> op in rescanned || PooledAndKept(es, hit, op))
            && (live == rescanned <==> PoolConfirmed(es, hit, unspent))
  {
    hide Codec.Sound, LookupsFor, Keys.Hits, FollowAll, AllExtractable, Canonical, SeenAll, Mined, PooledAndKept, Quiet, Hit, Codec.Encode;
    Agree(codec, ss, keys, Mined(es), unspent);
    var v := View(Strings(ss), unspent);
    forall op
      ensures op in SeenAll(codec.Encode, c, v, es).watched <==>
              op in FollowAll(Mined(es), keys.Hits, unspent) || PooledAndKept(es, LiveHit(codec, ss), op)
    {
      LiveExactly(codec.Encode, c, v, es, op);
    }
  }

  /** Live watching and a rescan agree after the run es. */
  ghost predicate Agrees(codec: Codec, c: ClientId, ss: seq<string>, keys: Keys, unspent: set<OutPoint>, es: seq<Event>) {
    SeenAll(codec.Encode, c, View(Strings(ss), unspent), es).watched == FollowAll(Mined(es), keys.Hits, unspent)
  }

  lemma OneBlock(encode: Address -> string, c: ClientId, v: View, txs: seq<Tx>, hit: Output -> bool)
    ensures Mined([Block(txs)]) == txs
    ensures SeenAll(encode, c, v, [Block(txs)]).watched == FollowAll(txs, Hit(encode, v.asks), v.watched)
    ensures PoolConfirmed([Block(txs)], hit, v.watched)
  {
    var es := [Block(txs)];
    assert es[..0] == [];
    assert Mined(es[..0]) == [] && SeenAll(encode, c, v, es[..0]) == v;
    assert !es[0].Pool?;
  }

  /** The exact condition over all runs: the strings are canonical if and only if live watching and a rescan agree after
      just those runs whose blocks leave all that the pool has left. */
  lemma AgreesIff(codec: Codec, c: ClientId, ss: seq<string>, keys: Keys)
    requires codec.Sound() && LookupsFor(codec, ss, keys)
    ensures Canonical(codec, ss) <==>
            forall es, unspent :: Quiet(c, es) && AllExtractable(codec, Mined(es)) ==>
              (Agrees(codec, c, ss, keys, unspent, es) <==> PoolConfirmed(es, LiveHit(codec, ss), unspent))
  {
    hide Codec.Sound, LookupsFor, Keys.Hits, FollowAll, Codec.Extractable, Mined, SeenAll, PoolConfirmed, Hit;
    if Canonical(codec, ss) {
      hide Canonical, Codec.Decode, Codec.Encode;
      forall es, unspent | Quiet(c, es) && AllExtractable(codec, Mined(es))
        ensures Agrees(codec, c, ss, keys, unspent, es) <==> PoolConfirmed(es, LiveHit(codec, ss), unspent)
      {
        WatchingIsRescanning(codec, c, ss, keys, unspent, es);
      }
    } else {
      var s :| s in ss && ForHash(codec, s) && codec.Encode(codec.Decode(s).value) !in ss;
      var txs := [Paying(codec.Decode(s).value)];
      hide Canonical, Codec.Decode, Codec.Encode;
      Missed(codec, ss, keys, s);
      OneBlock(codec.Encode, c, View(Strings(ss), {}), txs, LiveHit(codec, ss));
      assert Quiet(c, [Block(txs)]);
      assert !Agrees(codec, c, ss, keys, {}, [Block(txs)]);
    }
  }

  /** Enough for that is that every pool transaction that pays the client is mined afterwards. */
  lemma MinedIsConfirmed(es: seq<Event>, hit: Output -> bool, unspent: set<OutPoint>)
    requires forall i :: 0 <= i < |es| && es[i].Pool? && Creates(es[i].tx, hit) != {} ==> es[i].tx in Mined(es[i + 1..])
    ensures PoolConfirmed(es, hit, unspent)
  {
    forall op | PooledAndKept(es, hit, op) ensures op in FollowAll(Mined(es), hit, unspent) {
      var i :| 0 <= i < |es| && PooledAt(es, hit, op, i);
      var later := Mined(es[i + 1..]);
      var j :| 0 <= j < |later| && later[j] == es[i].tx;
      MinedSplit(es, i + 1);
      var before := Mined(es[..i + 1]);
      FollowAllConcat(before, later, hit, unspent);
      FollowAllExactly(later, hit, FollowAll(before, hit, unspent), op);
      assert op in Creates(later[j], hit) && UnspentFrom(later, j + 1, op);
    }
  }

  lemma {:induction false} MinedSplit(es: seq<Event>, k: nat)
    requires k <= |es|
    ensures Mined(es) == Mined(es[..k]) + Mined(es[k..])
  {
    if k == |es| {
      assert es[..k] == es && es[k..] == [];
    } else {
      var n := |es| - 1;
      MinedSplit(es[..n], k);
      assert es[..n][..k] == es[..k] && es[..n][k..] == es[k..][..n - k];
      assert es[k..][n - k] == es[n];
    }
  }

  /** A client asks for one hash by its canonical string, a pool transaction pays it and no block includes the
      transaction: the client ends up watching an outpoint that a rescan does not find. */
  lemma NeverMined(codec: Codec, c: ClientId, h: Bytes, keys: Keys)
    requires codec.Sound() && IsHash(h) && LookupsFor(codec, [codec.Encode(PubKeyHash(h))], keys)
    ensures var ss := [codec.Encode(PubKeyHash(h))];
            var es := [Pool(Paying(PubKeyHash(h)))];
            && Canonical(codec, ss)
            && SeenAll(codec.Encode, c, View(Strings(ss), {}), es).watched == {OutPoint(1, 0)}
            && FollowAll(Mined(es), keys.Hits, {}) == {}
  {
    var a := PubKeyHash(h);
    var ss, es := [codec.Encode(a)], [Pool(Paying(a))];
    codec.RoundTrip(a);
    assert codec.Encode(a) in ss;
    hide Codec.Decode, Codec.Sound, LookupsFor, Codec.Encode, Codec.Extracted, Keys.Hits;
    var out := Output(false, false, [a]);
    assert out.addrs[0] == a && LiveHit(codec, ss)(out);
    PayingCreates(a, LiveHit(codec, ss));
    assert es[..0] == [];
    assert SeenAll(codec.Encode, c, View(Strings(ss), {}), es[..0]) == View(Strings(ss), {});
    assert Mined(es[..0]) == [];
    assert Mined(es) == [];
  }

  // ------------------------------------------------------------- the hand-over

  /** How a rescan hands over: the client asks for the outpoints found, in any order, and for the strings. */
  ghost function HandingOver(c: ClientId, found: seq<OutPoint>, ss: seq<string>): seq<Event> {
    [AddOps(c, found), AddAddrs(c, ss)]
  }

  lemma HandedOver(encode: Address -> string, c: ClientId, v: View, found: seq<OutPoint>, ss: seq<string>)
    ensures SeenAll(encode, c, v, HandingOver(c, found, ss)) ==
            View(v.asks + Strings(ss), v.watched + set op | op in found)
  {
    var es := HandingOver(c, found, ss);
    assert es[..1] == [AddOps(c, found)] && es[..1][..0] == [];
    assert SeenAll(encode, c, v, es[..1][..0]) == v;
    assert SeenAll(encode, c, v, es[..1]) == Seen(encode, c, v, AddOps(c, found));
  }

  lemma {:induction false} SeenConcat(encode: Address -> string, c: ClientId, v: View, s: seq<Event>, t: seq<Event>)
    ensures SeenAll(encode, c, v, s + t) == SeenAll(encode, c, SeenAll(encode, c, v, s), t)
  {
    if t == [] {
      assert s + t == s;
    } else {
      var n := |t| - 1;
      SeenConcat(encode, c, v, s, t[..n]);
      assert (s + t)[..|s + t| - 1] == s + t[..n];
    }
  }

  lemma HitAdds(encode: Address -> string, asks: set<string>, more: set<string>)
    ensures forall out :: Hit(encode, asks + more)(out) <==> Hit(encode, asks)(out) || Hit(encode, more)(out)
  {
  }

  lemma PooledAdds(es: seq<Event>, h: Output -> bool, h1: Output -> bool, h2: Output -> bool, op: OutPoint)
    requires forall out :: h(out) <==> h1(out) || h2(out)
    ensures PooledAndKept(es, h, op) <==> PooledAndKept(es, h1, op) || PooledAndKept(es, h2, op)
  {
    forall i | 0 <= i < |es| ensures PooledAt(es, h, op, i) <==> PooledAt(es, h1, op, i) || PooledAt(es, h2, op, i) {
      if es[i].Pool? {
        CreatesAdds(es[i].tx, h, h1, h2);
      }
      hide Creates, Mined, UnspentFrom;
    }
    hide PooledAt;
  }

  /** A rescan hands over to live watching, for a client that may watch other things already. Afterwards it watches
      exactly what it would have watched without the rescan, what the rescan would have found had it gone on over the
      blocks that follow, and what the pool has left by the strings. */
  lemma HandOver(codec: Codec, c: ClientId, v: View, ss: seq<string>, keys: Keys, scanned: seq<Tx>, unspent: set<OutPoint>,
                 found: seq<OutPoint>, es: seq<Event>, op: OutPoint)
    requires codec.Sound() && LookupsFor(codec, ss, keys) && Canonical(codec, ss)
    requires Quiet(c, es) && AllExtractable(codec, Mined(es))
    requires (set o | o in found) == FollowAll(scanned, keys.Hits, unspent)
    ensures op in SeenAll(codec.Encode, c, v, HandingOver(c, found, ss) + es).watched <==>
            || op in SeenAll(codec.Encode, c, v, es).watched
            || op in FollowAll(scanned + Mined(es), keys.Hits, unspent)
            || PooledAndKept(es, LiveHit(codec, ss), op)
  {
    hide Codec.Sound, LookupsFor, Keys.Hits, FollowAll, AllExtractable, Canonical, SeenAll, Mined, PooledAndKept, Quiet, Hit,
         HandingOver, Codec.Encode, Strings;
    var encode := codec.Encode;
    var f := FollowAll(scanned, keys.Hits, unspent);
    var v' := View(v.asks + Strings(ss), v.watched + f);
    SeenConcat(encode, c, v, HandingOver(c, found, ss), es);
    HandedOver(encode, c, v, found, ss);
    LiveExactly(encode, c, v', es, op);
    LiveExactly(encode, c, v, es, op);
    HitAdds(encode, v.asks, Strings(ss));
    FollowAllAdds(Mined(es), Hit(encode, v'.asks), Hit(encode, v.asks), Hit(encode, Strings(ss)), v.watched, f);
    PooledAdds(es, Hit(encode, v'.asks), Hit(encode, v.asks), Hit(encode, Strings(ss)), op);
    Agree(codec, ss, keys, Mined(es), f);
    FollowAllConcat(scanned, Mined(es), keys.Hits, unspent);
  }

  // --------------------------------------------------- strings that miss something

  /** The bytes of a pay-to-hash address in hexadecimal are a string that is not canonical on its own. */
  lemma HexExample(codec: Codec, s: string, h: Bytes)
    requires codec.Sound() && IsHash(h)
    requires |s| == 42 && codec.checkDecode(s) == None && codec.hexDecode(s) == Some([codec.pubKeyHashId] + h)
    ensures codec.Decode(s) == Some(PubKeyHash(h)) && !Canonical(codec, [s])
  {
    assert ([codec.pubKeyHashId] + h)[1..] == h;
    assert codec.checkDecode(codec.checkEncode(codec.pubKeyHashId, h)).Some?;
    assert s in [s] && ForHash(codec, s);
  }

  /** Nor is an address of another network. */
  lemma OtherNetworkExample(codec: Codec, id: int, h: Bytes)
    requires codec.Sound() && IsHash(h) && IsByte(id) && id != codec.pubKeyHashId && codec.kind(id) == P2PKH
    ensures var s := codec.checkEncode(id, h); codec.Decode(s) == Some(PubKeyHash(h)) && !Canonical(codec, [s])
  {
    var s := codec.checkEncode(id, h);
    assert codec.checkDecode(codec.checkEncode(codec.pubKeyHashId, h)) == Some((codec.pubKeyHashId, h));
    assert s in [s] && ForHash(codec, s);
  }

  lemma ScriptHashString(codec: Codec, h: Bytes)
    requires codec.Sound() && IsHash(h)
    ensures codec.Decode(codec.Encode(ScriptHash(h))) == Some(ScriptHash(h))
    ensures codec.Extracted(codec.PaidScriptHash(h))
    ensures codec.Encode(codec.PaidScriptHash(h)) == codec.Encode(ScriptHash(h)) <==> codec.hash160(h) == h
  {
    assert codec.checkDecode(codec.Encode(ScriptHash(h))) == Some((codec.scriptHashId, h));
    assert codec.checkDecode(codec.Encode(codec.PaidScriptHash(h))) == Some((codec.scriptHashId, codec.hash160(h)));
  }

  /** An output to a script hash that is asked for by its own string is seen, live or in a rescan, if and only if the
      hash is the hash of itself; for the script's bytes are hashed once more before they are looked up. */
  lemma ScriptHashUnseen(codec: Codec, h: Bytes, keys: Keys)
    requires codec.Sound() && IsHash(h) && LookupsFor(codec, [codec.Encode(ScriptHash(h))], keys)
    ensures var out := Output(false, false, [codec.PaidScriptHash(h)]);
            && codec.Extractable(out)
            && (keys.Hits(out) <==> codec.hash160(h) == h)
            && (LiveHit(codec, [codec.Encode(ScriptHash(h))])(out) <==> codec.hash160(h) == h)
  {
    hide Codec.Sound, LookupsFor, Keys.Wants, Codec.Decode, Codec.Encode, Codec.Extracted;
    var s := codec.Encode(ScriptHash(h));
    var a := codec.PaidScriptHash(h);
    var out := Output(false, false, [a]);
    assert out.addrs[0] == a;
    ScriptHashString(codec, h);
    WantsIs(codec, [s], keys, a);
  }
}
