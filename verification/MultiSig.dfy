/** Multi-signature scripts: the signers' scripts are cut into pushes, serialized by the script builder
    and read back by the scanner for pushed data. */
module MultiSig {
  import opened Options

  const PUSH := 0x56
  const SIGNTEXT := 0x4a
  const SIG_HASH_NONE := 2

  type Bytes = seq<nat>

  datatype Inst = Inst(op: nat, param: Bytes)

  /** The concatenation of f over a sequence. */
  ghost function FlatMap<S, T>(s: seq<S>, f: S -> seq<T>): seq<T> {
    if s == [] then [] else FlatMap(s[..|s| - 1], f) + f(s[|s| - 1])
  }

  lemma FlatMapMore<S, T>(s: seq<S>, x: S, f: S -> seq<T>)
    ensures FlatMap(s + [x], f) == FlatMap(s, f) + f(x)
  {
    assert (s + [x])[..|s|] == s;
  }

  lemma Associates<T>(a: seq<T>, b: seq<T>, c: seq<T>)
    ensures (a + b) + c == a + (b + c)
  {
  }

  lemma {:induction false} FlatMapConcat<S, T>(a: seq<S>, b: seq<S>, f: S -> seq<T>)
    ensures FlatMap(a + b, f) == FlatMap(a, f) + FlatMap(b, f)
  {
    if b == [] {
      assert a + b == a;
    } else {
      var n := |b| - 1;
      FlatMapConcat(a, b[..n], f);
      assert (a + b)[..|a + b| - 1] == a + b[..n];
      Associates(FlatMap(a, f), FlatMap(b[..n], f), f(b[n]));
    }
  }

  lemma FlatMapOne<S, T>(x: S, f: S -> seq<T>)
    ensures FlatMap([x], f) == f(x)
  {
    assert [x][..0] == [];
  }

  function Self<T>(): seq<T> -> seq<T> { (s: seq<T>) => s }

  ghost function Flat<T>(ss: seq<seq<T>>): seq<T> {
    FlatMap(ss, Self<T>())
  }

  // ----- Serializing and scanning -----

  /** What the builder writes for an instruction: a push gets its real length, a signature text one byte. */
  function Fixed(i: Inst): (r: Inst)
    requires i.param != []
    ensures r.param != []
  {
    if i.op == PUSH then i.(param := [(|i.param| - 1) % 256] + i.param[1..])
    else if i.op == SIGNTEXT then i.(param := i.param[..1])
    else i
  }

  function Raw(i: Inst): Bytes { [i.op] + i.param }

  ghost function Serialized(code: seq<Inst>): Bytes {
    FlatMap(code, Raw)
  }

  /** The data pushed by a script, None where the scanner would not come to an end or leave the script. */
  function Scan(s: Bytes): Option<seq<Bytes>>
    decreases |s|
  {
    if s == [] then Some([])
    else if s[0] == PUSH then
      if |s| < 2 || |s| < 2 + s[1] then None
      else
        var rest := Scan(s[2 + s[1]..]);
        if rest.None? then None else Some([s[2..2 + s[1]]] + rest.value)
    else if s[0] == SIGNTEXT then
      if |s| < 2 then Some([]) else Scan(s[2..])
    else None
  }

  /** The scanner's loop: where it stands and what it has found, or that it ran off the script. */
  datatype Scanner = At(p: nat, res: seq<Bytes>) | Crashed

  /** One round of the loop. On any other opcode nothing changes. */
  function Round(s: Bytes, c: Scanner): Scanner {
    if c.Crashed? || c.p >= |s| then c
    else if s[c.p] == PUSH then
      if c.p + 1 < |s| && c.p + 2 + s[c.p + 1] <= |s| then
        At(c.p + 2 + s[c.p + 1], c.res + [s[c.p + 2..c.p + 2 + s[c.p + 1]]])
      else Crashed
    else if s[c.p] == SIGNTEXT then At(c.p + 2, c.res)
    else c
  }

  ghost function Rounds(s: Bytes, c: Scanner, n: nat): Scanner
    decreases n
  {
    if n == 0 then c else Rounds(s, Round(s, c), n - 1)
  }

  ghost predicate Finished(s: Bytes, c: Scanner) {
    c.At? && c.p >= |s|
  }

  ghost predicate Ends(s: Bytes, c: Scanner) {
    exists n: nat :: Finished(s, Rounds(s, c, n))
  }

  lemma ScanPush(s: Bytes, p: nat)
    requires p < |s| && s[p] == PUSH
    ensures Scan(s[p..]) ==
            if p + 1 < |s| && p + 2 + s[p + 1] <= |s| then
              var rest := Scan(s[p + 2 + s[p + 1]..]);
              if rest.None? then None else Some([s[p + 2..p + 2 + s[p + 1]]] + rest.value)
            else None
  {
    var rest := s[p..];
    if p + 1 < |s| && p + 2 + s[p + 1] <= |s| {
      assert rest[2 + rest[1]..] == s[p + 2 + s[p + 1]..];
      assert rest[2..2 + rest[1]] == s[p + 2..p + 2 + s[p + 1]];
    }
  }

  lemma ScanSign(s: Bytes, p: nat)
    requires p < |s| && s[p] != PUSH
    ensures Scan(s[p..]) ==
            if s[p] != SIGNTEXT then None else if p + 2 <= |s| then Scan(s[p + 2..]) else Some([])
  {
    if p + 2 <= |s| {
      assert s[p..][2..] == s[p + 2..];
    }
  }

  lemma ScanEnd(s: Bytes)
    ensures Scan(s[|s|..]) == Some([])
  {
  }

  /** What the scanner will have found in the end: what it has, and what Scan gives for the rest. */
  ghost function Outcome(s: Bytes, c: Scanner): Option<seq<Bytes>> {
    if c.Crashed? then None
    else if c.p > |s| then Some(c.res)
    else if Scan(s[c.p..]).None? then None
    else Some(c.res + Scan(s[c.p..]).value)
  }

  /** A round does not change that, and moves on unless there is nothing to find. */
  lemma RoundKeeps(s: Bytes, c: Scanner)
    ensures Outcome(s, Round(s, c)) == Outcome(s, c)
    ensures Outcome(s, c).Some? && c.p < |s| ==> Round(s, c).At? && Round(s, c).p > c.p
  {
    hide Scan;
    if c.At? && c.p < |s| {
      if s[c.p] == PUSH {
        ScanPush(s, c.p);
        var q := c.p + 2 + if c.p + 1 < |s| then s[c.p + 1] else 0;
        if c.p + 1 < |s| && q <= |s| && Scan(s[q..]).Some? {
          Associates(c.res, [s[c.p + 2..q]], Scan(s[q..]).value);
        }
      } else {
        ScanSign(s, c.p);
        assert c.res + [] == c.res;
      }
    }
  }

  lemma FinishedOutcome(s: Bytes, c: Scanner)
    requires Finished(s, c)
    ensures Outcome(s, c) == Some(c.res)
  {
    hide Scan;
    ScanEnd(s);
    assert c.res + [] == c.res;
  }

  lemma {:induction false} ScanRuns(s: Bytes, c: Scanner) returns (n: nat)
    requires Outcome(s, c).Some?
    ensures Finished(s, Rounds(s, c, n)) && Rounds(s, c, n).res == Outcome(s, c).value
    decreases |s| - c.p
  {
    if c.p >= |s| {
      FinishedOutcome(s, c);
      n := 0;
    } else {
      RoundKeeps(s, c);
      hide Round, Outcome;
      var m := ScanRuns(s, Round(s, c));
      n := m + 1;
    }
  }

  lemma {:induction false} RoundsKeep(s: Bytes, c: Scanner, n: nat)
    ensures Outcome(s, Rounds(s, c, n)) == Outcome(s, c)
    decreases n
  {
    hide Round, Outcome;
    if n > 0 {
      RoundKeeps(s, c);
      RoundsKeep(s, Round(s, c), n - 1);
    }
  }

  lemma OutcomeAtStart(s: Bytes)
    ensures Outcome(s, At(0, [])) == Scan(s)
  {
    assert s[0..] == s;
    hide Scan;
    if Scan(s).Some? {
      assert [] + Scan(s).value == Scan(s).value;
    }
  }

  /** The scanner comes to a normal end exactly on the scripts that Scan reads, and then has found what Scan gives. */
  lemma ScannerEndsIff(s: Bytes)
    ensures Ends(s, At(0, [])) <==> Scan(s).Some?
    ensures forall n: nat :: Finished(s, Rounds(s, At(0, []), n)) ==> Scan(s) == Some(Rounds(s, At(0, []), n).res)
  {
    hide Scan, Round, Outcome;
    OutcomeAtStart(s);
    if Scan(s).Some? {
      var n := ScanRuns(s, At(0, []));
    }
    forall n: nat | Finished(s, Rounds(s, At(0, []), n)) ensures Scan(s) == Some(Rounds(s, At(0, []), n).res) {
      RoundsKeep(s, At(0, []), n);
      FinishedOutcome(s, Rounds(s, At(0, []), n));
    }
  }

  /** The scanner, on the scripts for which it ends. */
  method PushedData(s: Bytes) returns (res: seq<Bytes>)
    requires Scan(s).Some?
    ensures res == Scan(s).value
  {
    hide Scan, Outcome;
    OutcomeAtStart(s);
    res := [];
    var p := 0;
    while p < |s|
      invariant 0 <= p && Outcome(s, At(p, res)) == Scan(s)
      decreases |s| - p
    {
      RoundKeeps(s, At(p, res));
      if s[p] == PUSH {
        res := res + [s[p + 2..p + 2 + s[p + 1]]];
        p := p + 2 + s[p + 1];
      } else {
        p := p + 2;
      }
    }
    FinishedOutcome(s, At(p, res));
  }

  /** On a script that starts with another opcode it turns round for ever. */
  lemma {:induction false} TurnsForEver(s: Bytes, n: nat)
    requires s != [] && s[0] != PUSH && s[0] != SIGNTEXT
    ensures Rounds(s, At(0, []), n) == At(0, [])
  {
    if n > 0 {
      TurnsForEver(s, n - 1);
    }
  }

  /** An instruction as serialized: a push that states its length, or a one byte signature text. */
  predicate Sound(i: Inst) {
    || (i.op == PUSH && i.param != [] && i.param[0] == |i.param| - 1)
    || (i.op == SIGNTEXT && |i.param| == 1)
  }

  function Data(i: Inst): seq<Bytes> {
    if i.op == PUSH && i.param != [] then [i.param[1..]] else []
  }

  ghost function AllData(code: seq<Inst>): seq<Bytes> {
    FlatMap(code, Data)
  }

  lemma ScanOne(i: Inst, rest: Bytes)
    requires Sound(i) && Scan(rest).Some?
    ensures Scan(Raw(i) + rest) == Some(Data(i) + Scan(rest).value)
  {
    var s := Raw(i) + rest;
    if i.op == PUSH {
      assert s[1] == |i.param| - 1;
      assert s[2..2 + s[1]] == i.param[1..];
      assert s[2 + s[1]..] == rest;
    } else {
      assert s[2..] == rest;
      assert Data(i) + Scan(rest).value == Scan(rest).value;
    }
  }

  ghost predicate AllSound(code: seq<Inst>) {
    forall k :: 0 <= k < |code| ==> Sound(code[k])
  }

  lemma {:induction false} ScanThen(code: seq<Inst>, tail: Bytes)
    requires AllSound(code) && Scan(tail).Some?
    ensures Scan(Serialized(code) + tail) == Some(AllData(code) + Scan(tail).value)
    decreases |code|
  {
    hide Scan, Sound;
    if code == [] {
      assert Serialized(code) + tail == tail;
      assert AllData(code) + Scan(tail).value == Scan(tail).value;
    } else {
      var i, rest := code[0], code[1..];
      ScanThen(rest, tail);
      assert code == [i] + rest;
      FlatMapConcat([i], rest, Raw);
      FlatMapConcat([i], rest, Data);
      FlatMapOne(i, Raw);
      FlatMapOne(i, Data);
      ScanOne(i, Serialized(rest) + tail);
      Associates(Raw(i), Serialized(rest), tail);
      Associates(Data(i), AllData(rest), Scan(tail).value);
    }
  }

  /** Scanning a serialized script gives back exactly the data of its pushes. */
  lemma ScanSerialized(code: seq<Inst>)
    requires AllSound(code)
    ensures Scan(Serialized(code)) == Some(AllData(code))
  {
    ScanThen(code, []);
    hide Scan, Serialized, AllData;
    assert Serialized(code) + [] == Serialized(code);
    ScanNothing();
    assert AllData(code) + [] == AllData(code);
  }

  lemma ScanNothing()
    ensures Scan([]) == Some([]) && Scan([SIGNTEXT]) == Some([])
  {
  }

  /** A script made of sound instructions, perhaps with the opcode of a signature text cut off behind it. */
  ghost predicate Written(s: Bytes, code: seq<Inst>) {
    AllSound(code) && (s == Serialized(code) || s == Serialized(code) + [SIGNTEXT])
  }

  lemma WrittenMore(i: Inst, s: Bytes, code: seq<Inst>)
    requires Sound(i) && Written(s, code)
    ensures Written(Raw(i) + s, [i] + code)
  {
    hide Sound, Raw;
    FlatMapConcat([i], code, Raw);
    FlatMapOne(i, Raw);
    Associates(Raw(i), Serialized(code), [SIGNTEXT]);
  }

  lemma {:induction false} ReadBack(s: Bytes) returns (code: seq<Inst>)
    requires Scan(s).Some?
    ensures Written(s, code)
    decreases |s|
  {
    if s == [] {
      code := [];
    } else if s == [SIGNTEXT] {
      code := [];
      assert Serialized(code) == [];
      assert s == Serialized(code) + [SIGNTEXT];
    } else {
      var n := 2 + if s[0] == PUSH then s[1] else 0;
      var i := Inst(s[0], s[1..n]);
      assert s == Raw(i) + s[n..];
      assert Sound(i) && Scan(s[n..]).Some?;
      hide Scan, Sound, Written;
      var rest := ReadBack(s[n..]);
      WrittenMore(i, s[n..], rest);
      code := [i] + rest;
    }
  }

  /** The scanner ends exactly on the scripts written by sound instructions, except that a signature text may be cut
      off at the end; and what it finds is what those instructions push. */
  lemma ScannerReads(s: Bytes)
    ensures Ends(s, At(0, [])) <==> exists code :: Written(s, code)
    ensures forall code :: Written(s, code) ==> Scan(s) == Some(AllData(code))
  {
    ScannerEndsIff(s);
    hide Ends;
    hide Scan, Sound, Serialized, AllData, AllSound;
    if Scan(s).Some? {
      var code := ReadBack(s);
    }
    forall code | Written(s, code) ensures Scan(s) == Some(AllData(code)) {
      ScanNothing();
      ScanSerialized(code);
      ScanThen(code, [SIGNTEXT]);
      assert AllData(code) + [] == AllData(code);
    }
  }

  // ----- The builder -----

  class ScriptBuilder {
    var script: seq<Inst>

    constructor ()
      ensures script == []
    {
      script := [];
    }

    method AddOp(op: nat, data: Bytes)
      modifies this
      ensures script == old(script) + [Inst(op, data)]
    {
      script := script + [Inst(op, data)];
    }

    method AddBytes(t: Bytes)
      requires script != []
      modifies this
      ensures |script| == |old(script)| && script[..|script| - 1] == old(script)[..|script| - 1]
      ensures script[|script| - 1] == Inst(old(script)[|script| - 1].op, old(script)[|script| - 1].param + t)
    {
      var n := |script| - 1;
      script := script[n := script[n].(param := script[n].param + t)];
    }

    /** Adds one push of data, stating the length modulo 256. */
    method AddPush(length: nat, data: Bytes)
      modifies this
      ensures script == old(script) + [Inst(PUSH, [length % 256] + data)]
    {
      AddOp(PUSH, [length % 256]);
      AddBytes(data);
      assert script == script[..|script| - 1] + [script[|script| - 1]];
    }

    /** Fixes every instruction in place and writes them out. */
    method Script() returns (r: Bytes)
      requires forall k :: 0 <= k < |script| ==> script[k].param != []
      modifies this
      ensures |script| == |old(script)|
      ensures forall k :: 0 <= k < |script| ==> old(script)[k].param != [] && script[k] == Fixed(old(script)[k])
      ensures forall k :: 0 <= k < |script| ==>
                var was := old(script)[k];
                && script[k].op == was.op && was.param != []
                && script[k].param == (if was.op == PUSH then [(|was.param| - 1) % 256] + was.param[1..]
                                       else if was.op == SIGNTEXT then [was.param[0]]
                                       else was.param)
      ensures r == Serialized(script)
    {
      for i := 0 to |script|
        invariant |script| == |old(script)|
        invariant forall k :: 0 <= k < i ==> script[k] == Fixed(old(script)[k])
        invariant forall k :: i <= k < |script| ==> script[k] == old(script)[k]
      {
        script := script[i := Fixed(script[i])];
      }
      ghost var fixed := script;
      r := [];
      for i := 0 to |script|
        invariant script == fixed
        invariant r == Serialized(fixed[..i])
      {
        assert fixed[..i + 1] == fixed[..i] + [fixed[i]];
        FlatMapMore(fixed[..i], fixed[i], Raw);
        r := r + ([script[i].op] + script[i].param);
      }
      assert fixed[..|fixed|] == fixed;
    }
  }

  // ----- Cutting a script into pushes -----

  /** The pushes of one signer's script: in order and complete, one push if it fits, and otherwise each of 26
      to 255 bytes. */
  ghost predicate Cut(pkh: Bytes, chunks: seq<Bytes>) {
    && Flat(chunks) == pkh
    && (|pkh| <= 255 ==> chunks == [pkh])
    && (|pkh| > 255 ==> forall k :: 0 <= k < |chunks| ==> 26 <= |chunks[k]| <= 255)
  }

  ghost function Pushes(chunks: seq<Bytes>): seq<Inst> {
    seq(|chunks|, k requires 0 <= k < |chunks| => Inst(PUSH, [|chunks[k]|] + chunks[k]))
  }

  /** The first i bytes of a long script, cut. */
  ghost predicate CutTo(pkh: Bytes, chunks: seq<Bytes>, i: nat) {
    i <= |pkh| && Flat(chunks) == pkh[..i] && forall k :: 0 <= k < |chunks| ==> 26 <= |chunks[k]| <= 255
  }

  lemma CutMore(pkh: Bytes, chunks: seq<Bytes>, i: nat, j: nat)
    requires CutTo(pkh, chunks, i) && i + 26 <= j <= i + 255 && j <= |pkh|
    ensures CutTo(pkh, chunks + [pkh[i..j]], j)
    ensures Pushes(chunks + [pkh[i..j]]) == Pushes(chunks) + [Inst(PUSH, [j - i] + pkh[i..j])]
  {
    FlatMapMore(chunks, pkh[i..j], Self());
    assert pkh[..j] == pkh[..i] + pkh[i..j];
  }

  /** Adds the push of bytes i to j. */
  method AddPiece(builder: ScriptBuilder, pkh: Bytes, ghost before: seq<Inst>, ghost chunks: seq<Bytes>, i: nat, j: nat)
    returns (ghost chunks': seq<Bytes>)
    requires CutTo(pkh, chunks, i) && i + 26 <= j <= i + 255 && j <= |pkh|
    requires builder.script == before + Pushes(chunks)
    modifies builder
    ensures CutTo(pkh, chunks', j) && builder.script == before + Pushes(chunks')
  {
    hide CutTo, Pushes;
    CutMore(pkh, chunks, i, j);
    builder.AddPush(j - i, pkh[i..j]);
    chunks' := chunks + [pkh[i..j]];
  }

  /** Adds the pushes of a script too long for one. */
  method AddLong(builder: ScriptBuilder, pkh: Bytes) returns (ghost chunks: seq<Bytes>)
    requires |pkh| > 255
    modifies builder
    ensures Cut(pkh, chunks)
    ensures builder.script == old(builder.script) + Pushes(chunks)
  {
    hide CutTo, Pushes, Cut;
    chunks := NoChunks(pkh);
    var k := |pkh|;
    var i := 0;
    ghost var before := builder.script;
    while i < k
      invariant 0 <= i <= k && (i < k ==> k - i >= 26)
      invariant CutTo(pkh, chunks, i) && builder.script == before + Pushes(chunks)
      decreases k - i
    {
      if k - i > 255 + 25 {
        chunks := AddPiece(builder, pkh, before, chunks, i, i + 255);
        i := i + 255;
      } else if k - i < 255 {
        chunks := AddPiece(builder, pkh, before, chunks, i, k);
        i := k;
      } else {
        var j := (k - i) / 2;
        if j == 25 {
          j := j + 1;
        }
        chunks := AddPiece(builder, pkh, before, chunks, i, i + j);
        chunks := AddPiece(builder, pkh, before, chunks, i + j, k);
        i := k;
      }
    }
    CutAll(pkh, chunks);
  }

  lemma CutAll(pkh: Bytes, chunks: seq<Bytes>)
    requires CutTo(pkh, chunks, |pkh|) && |pkh| > 255
    ensures Cut(pkh, chunks)
  {
    assert pkh[..|pkh|] == pkh;
  }

  lemma NoChunks(pkh: Bytes) returns (r: seq<Bytes>)
    ensures r == [] && Flat(r) == [] && Pushes(r) == [] && CutTo(pkh, r, 0)
  {
    r := [];
  }

  /** Adds the pushes of one signer's script. */
  method AddSigner(builder: ScriptBuilder, pkh: Bytes) returns (ghost chunks: seq<Bytes>)
    modifies builder
    ensures Cut(pkh, chunks)
    ensures builder.script == old(builder.script) + Pushes(chunks)
  {
    if |pkh| <= 255 {
      builder.AddPush(|pkh|, pkh);
      chunks := [pkh];
      FlatMapOne(pkh, Self());
    } else {
      chunks := AddLong(builder, pkh);
    }
  }

  // ----- The whole script -----

  function Word(n: nat): Bytes { [n % 256, n / 256 % 256] }

  lemma Words(m: nat, n: nat)
    ensures Word(m) + Word(n) == [m % 256, m / 256 % 256, n % 256, n / 256 % 256]
  {
  }

  /** A header: a push of the number of signers and of required signatures, of 16 bits each, then the signature text. */
  function Header(signers: nat, required: nat): seq<Inst> {
    [Inst(PUSH, [5] + Word(signers) + Word(required)), Inst(SIGNTEXT, [SIG_HASH_NONE])]
  }

  /** Every push has its real length once the builder is done, whatever was stated before. */
  lemma FixedIsSound(i: Inst)
    requires (i.op == PUSH && 1 <= |i.param| <= 256) || (i.op == SIGNTEXT && i.param != [])
    ensures Sound(Fixed(i)) && Data(Fixed(i)) == Data(i)
  {
  }

  lemma {:induction false} SameData(a: seq<Inst>, b: seq<Inst>)
    requires |a| == |b| && forall k :: 0 <= k < |a| ==> Data(a[k]) == Data(b[k])
    ensures AllData(a) == AllData(b)
  {
    if a != [] {
      SameData(a[..|a| - 1], b[..|b| - 1]);
    }
  }

  lemma {:induction false} PushesData(chunks: seq<Bytes>)
    ensures AllData(Pushes(chunks)) == chunks
  {
    if chunks != [] {
      var n := |chunks| - 1;
      PushesData(chunks[..n]);
      assert Pushes(chunks)[..n] == Pushes(chunks[..n]);
      assert Data(Pushes(chunks)[n]) == [chunks[n]];
      assert chunks == chunks[..n] + [chunks[n]];
    }
  }

  /** The instructions before they are fixed: pushes of at most 255 bytes and signature texts. */
  ghost predicate Fits(code: seq<Inst>) {
    forall k :: 0 <= k < |code| ==>
      (code[k].op == PUSH && 1 <= |code[k].param| <= 256) || (code[k].op == SIGNTEXT && code[k].param != [])
  }

  lemma FitsFixed(code: seq<Inst>, fixed: seq<Inst>)
    requires Fits(code) && |fixed| == |code|
    requires forall k :: 0 <= k < |code| ==> code[k].param != [] && fixed[k] == Fixed(code[k])
    ensures Scan(Serialized(fixed)) == Some(AllData(code))
  {
    hide Fixed, Sound, Data, AllData, Serialized, Scan;
    forall k | 0 <= k < |code| ensures Sound(fixed[k]) && Data(fixed[k]) == Data(code[k]) {
      FixedIsSound(code[k]);
    }
    assert AllSound(fixed);
    SameData(fixed, code);
    ScanSerialized(fixed);
  }

  lemma FitsPushes(pkh: Bytes, chunks: seq<Bytes>)
    requires Cut(pkh, chunks)
    ensures Fits(Pushes(chunks))
  {
    hide Flat;
  }

  lemma FitsConcat(a: seq<Inst>, b: seq<Inst>)
    requires Fits(a) && Fits(b)
    ensures Fits(a + b)
  {
  }

  /** One signer more: the pushes, the data they carry and the instructions. */
  lemma OneMore(scripts: seq<Bytes>, i: nat, all: seq<Bytes>, chunks: seq<Bytes>)
    requires i < |scripts| && Flat(all) == Flat(scripts[..i]) && Cut(scripts[i], chunks)
    ensures Flat(all + chunks) == Flat(scripts[..i + 1]) == Flat(scripts[..i]) + scripts[i]
    ensures Pushes(all + chunks) == Pushes(all) + Pushes(chunks)
  {
    FlatMapConcat(all, chunks, Self());
    assert scripts[..i + 1] == scripts[..i] + [scripts[i]];
    FlatMapMore(scripts[..i], scripts[i], Self());
  }

  lemma HeaderData(signers: nat, required: nat, all: seq<Bytes>, tail: Inst)
    requires tail.op == SIGNTEXT
    ensures AllData(Header(signers, required) + Pushes(all) + [tail]) == [Word(signers) + Word(required)] + all
  {
    var header := Header(signers, required);
    var i, j := header[0], header[1];
    assert header == [i] + [j];
    FlatMapConcat([i], [j], Data);
    FlatMapOne(i, Data);
    FlatMapOne(j, Data);
    FlatMapConcat(header, Pushes(all), Data);
    FlatMapMore(header + Pushes(all), tail, Data);
    PushesData(all);
    assert i.param[1..] == Word(signers) + Word(required);
  }

  function Piece(c: Bytes): Bytes { [0x56, |c|] + c }

  /** The bytes of the pushes. */
  ghost function Pieces(chunks: seq<Bytes>): Bytes {
    FlatMap(chunks, Piece)
  }

  lemma {:induction false} PushesBytes(chunks: seq<Bytes>)
    ensures Serialized(Pushes(chunks)) == Pieces(chunks)
  {
    if chunks != [] {
      var n := |chunks| - 1;
      PushesBytes(chunks[..n]);
      assert Pushes(chunks)[..n] == Pushes(chunks[..n]);
      assert Raw(Pushes(chunks)[n]) == [0x56, |chunks[n]|] + chunks[n];
    }
  }

  lemma HeaderFixed(signers: nat, required: nat)
    ensures var header := Header(signers, required);
            && Raw(Fixed(header[0])) == [0x56, 4, signers % 256, signers / 256 % 256, required % 256, required / 256 % 256]
            && Raw(Fixed(header[1])) == [0x4a, 2]
  {
  }

  lemma HeaderBytes(signers: nat, required: nat)
    ensures var header := Header(signers, required);
            Serialized([Fixed(header[0]), Fixed(header[1])]) ==
            [0x56, 4, signers % 256, signers / 256 % 256, required % 256, required / 256 % 256, 0x4a, 2]
  {
    hide Fixed, FlatMap, Raw;
    var header := Header(signers, required);
    var i, j := Fixed(header[0]), Fixed(header[1]);
    HeaderFixed(signers, required);
    FlatMapConcat([i], [j], Raw);
    FlatMapOne(i, Raw);
    FlatMapOne(j, Raw);
    assert [i, j] == [i] + [j];
  }

  lemma FixedPushes(chunks: seq<Bytes>, k: nat)
    requires k < |chunks| && |chunks[k]| <= 255
    ensures Pushes(chunks)[k].param != [] && Fixed(Pushes(chunks)[k]) == Pushes(chunks)[k]
  {
  }

  lemma FixedCode(signers: nat, required: nat, chunks: seq<Bytes>, code: seq<Inst>, fixed: seq<Inst>)
    requires code == Header(signers, required) + Pushes(chunks) + [Inst(SIGNTEXT, [SIG_HASH_NONE])] && Fits(code)
    requires |fixed| == |code| && forall k :: 0 <= k < |code| ==> code[k].param != [] && fixed[k] == Fixed(code[k])
    ensures var header := Header(signers, required);
            fixed == [Fixed(header[0]), Fixed(header[1])] + Pushes(chunks) + [Inst(SIGNTEXT, [SIG_HASH_NONE])]
  {
    hide Fixed;
    forall k | 0 <= k < |chunks| ensures fixed[2 + k] == Pushes(chunks)[k] {
      assert code[2 + k] == Pushes(chunks)[k];
      FixedPushes(chunks, k);
    }
    FixedText();
  }

  lemma FixedText()
    ensures Fixed(Inst(SIGNTEXT, [SIG_HASH_NONE])) == Inst(SIGNTEXT, [SIG_HASH_NONE])
  {
  }

  /** The script byte by byte: the header, one push after the other, and the signature text once more. */
  lemma ScriptBytes(signers: nat, required: nat, chunks: seq<Bytes>, code: seq<Inst>, fixed: seq<Inst>)
    requires code == Header(signers, required) + Pushes(chunks) + [Inst(SIGNTEXT, [SIG_HASH_NONE])] && Fits(code)
    requires |fixed| == |code| && forall k :: 0 <= k < |code| ==> code[k].param != [] && fixed[k] == Fixed(code[k])
    ensures Serialized(fixed) ==
            [0x56, 4, signers % 256, signers / 256 % 256, required % 256, required / 256 % 256, 0x4a, 2]
            + Pieces(chunks) + [0x4a, 2]
  {
    FixedCode(signers, required, chunks, code, fixed);
    var header, tail := Header(signers, required), Inst(SIGNTEXT, [SIG_HASH_NONE]);
    var start := [Fixed(header[0]), Fixed(header[1])];
    hide Fixed, Pushes, Pieces, Fits, FlatMap, Word;
    FlatMapConcat(start + Pushes(chunks), [tail], Raw);
    FlatMapConcat(start, Pushes(chunks), Raw);
    FlatMapOne(tail, Raw);
    HeaderBytes(signers, required);
    PushesBytes(chunks);
  }

  /** Builds the script for a set of signers. Scanning it gives back the header and, in order, pushes that join up
      to exactly the signers' scripts whose hash is the address. */
  method CreateMultiSigScript(scripts: seq<Bytes>, required: nat)
    returns (h: Bytes, script: Bytes, ghost chunks: seq<seq<Bytes>>)
    ensures h == Flat(scripts)
    ensures |chunks| == |scripts| && forall k :: 0 <= k < |scripts| ==> Cut(scripts[k], chunks[k])
    ensures Scan(script) ==
            Some([[|scripts| % 256, |scripts| / 256 % 256, required % 256, required / 256 % 256]] + Flat(chunks))
    ensures script ==
            [0x56, 4, |scripts| % 256, |scripts| / 256 % 256, required % 256, required / 256 % 256, 0x4a, 2]
            + Pieces(Flat(chunks)) + [0x4a, 2]
    ensures Flat(Flat(chunks)) == h
  {
    var builder := new ScriptBuilder();
    builder.AddOp(PUSH, [5]);
    builder.AddBytes(Word(|scripts|));
    builder.AddBytes(Word(required));
    builder.AddOp(SIGNTEXT, [SIG_HASH_NONE]);
    ghost var header := Header(|scripts|, required);
    assert builder.script == header;
    assert Fits(header);
    h, chunks := [], [];
    ghost var all := NoChunks([]);
    assert Flat(chunks) == all;
    assert scripts[..0] == [];
    hide Flat, Pushes, Header, Fits, Cut, Scan, AllData, Serialized, FlatMap, Word, Pieces, Fixed;
    for i := 0 to |scripts|
      invariant h == Flat(scripts[..i]) == Flat(all)
      invariant |chunks| == i && forall k :: 0 <= k < i ==> Cut(scripts[k], chunks[k])
      invariant Flat(chunks) == all
      invariant builder.script == header + Pushes(all) && Fits(builder.script)
    {
      h := h + scripts[i];
      ghost var more := AddSigner(builder, scripts[i]);
      OneMore(scripts, i, all, more);
      FitsPushes(scripts[i], more);
      FitsConcat(header + Pushes(all), Pushes(more));
      Associates(header, Pushes(all), Pushes(more));
      FlatMore(chunks, more);
      chunks := chunks + [more];
      all := all + more;
    }
    assert scripts[..|scripts|] == scripts;
    ghost var tail := Inst(SIGNTEXT, [SIG_HASH_NONE]);
    FitsTail(header + Pushes(all), tail);
    builder.AddOp(SIGNTEXT, [SIG_HASH_NONE]);
    ghost var code := builder.script;
    FitsParams(code);
    script := builder.Script();
    FitsFixed(code, builder.script);
    ScriptBytes(|scripts|, required, all, code, builder.script);
    HeaderData(|scripts|, required, all, tail);
    Words(|scripts|, required);
  }

  lemma FlatMore<T>(ss: seq<seq<T>>, s: seq<T>)
    ensures Flat(ss + [s]) == Flat(ss) + s
  {
    FlatMapMore(ss, s, Self());
  }

  lemma FitsTail(code: seq<Inst>, tail: Inst)
    requires Fits(code) && tail.op == SIGNTEXT && tail.param != []
    ensures Fits(code + [tail])
  {
  }

  lemma FitsParams(code: seq<Inst>)
    requires Fits(code)
    ensures forall k :: 0 <= k < |code| ==> code[k].param != []
  {
  }
}
