// What the block delta is for: the rebuilt file is the new file, and the delta is small.
module DeltaProofs {
  import opened Wrappers
  import opened Bytes
  import opened RollingSum
  import opened Delta

  // ---------------------------------------------------------------- what the ops say

  function OpLength(op: Op): nat {
    match op
    case Literal(data) => |data|
    case Copy(_, len) => len
  }

  // The ops, in order, account for every byte of `file`: literals carry the bytes found at
  // their place, copies stand for a range of the same length.
  ghost predicate Covers(file: seq<byte>, ops: seq<Op>) {
    if ops == [] then file == []
    else
      var n := OpLength(ops[0]);
      && 0 < n <= |file|
      && (ops[0].Literal? ==> ops[0].data == file[..n])
      && Covers(file[n..], ops[1..])
  }

  // Every copy is one whole block of the old file.
  ghost predicate CopiesBlocks(old_: seq<byte>, blockLen: nat, ops: seq<Op>) {
    forall op :: op in ops && op.Copy? ==> op.len == blockLen && op.offset + blockLen <= |old_|
  }

  // Every copied range of the old file is what the new file holds at that place.
  ghost predicate Faithful(old_: seq<byte>, file: seq<byte>, ops: seq<Op>)
    requires Covers(file, ops)
  {
    ops == [] ||
    var n := OpLength(ops[0]);
    && (ops[0].Copy? ==> ops[0].offset + n <= |old_| && old_[ops[0].offset..ops[0].offset + n] == file[..n])
    && Faithful(old_, file[n..], ops[1..])
  }

  // The old file has what the op copies; an empty copy may stand anywhere.
  predicate Reaches(old_: seq<byte>, op: Op) {
    op.Copy? && op.len > 0 ==> op.offset + op.len <= |old_|
  }

  predicate InRange(old_: seq<byte>, ops: seq<Op>) {
    forall op :: op in ops ==> Reaches(old_, op)
  }

  function MeaningOfOne(old_: seq<byte>, op: Op): seq<byte>
    requires Reaches(old_, op)
  {
    match op
    case Literal(data) => data
    case Copy(offset, len) => if len == 0 then [] else old_[offset..offset + len]
  }

  // The bytes the ops stand for, given the old file.
  function Meaning(old_: seq<byte>, ops: seq<Op>): seq<byte>
    requires InRange(old_, ops)
  {
    if ops == [] then [] else MeaningOfOne(old_, ops[0]) + Meaning(old_, ops[1..])
  }

  // Sums taken from `old_`, as the destination takes them.
  ghost predicate SumsFrom(strong: StrongHash, old_: seq<byte>, sums: BlockSums) {
    sums.blocks == SumsOf(strong, old_, sums.blockLen)
  }

  function Window(file: seq<byte>, from: nat, n: nat): seq<byte>
    requires from + n <= |file|
  {
    file[from..from + n]
  }

  // The k-th block of the old file.
  function Block(file: seq<byte>, k: nat, n: nat): seq<byte>
    requires k * n + n <= |file|
  {
    file[k * n..k * n + n]
  }

  // The low 16 bits of both sums agree, and the strong hashes do.
  ghost predicate SameChecksums(strong: StrongHash, u: seq<byte>, w: seq<byte>) {
    && PlainSum(u) % 0x1_0000 == PlainSum(w) % 0x1_0000
    && WeightedSum(u) % 0x1_0000 == WeightedSum(w) % 0x1_0000
    && strong(u) == strong(w)
  }

  lemma SameSumIff(strong: StrongHash, u: seq<byte>, w: seq<byte>)
    ensures SumOf(strong, u) == SumOf(strong, w) <==> SameChecksums(strong, u, w)
  {
    DigestHalves(u);
    DigestHalves(w);
  }

  // No window of the new file is mistaken for a block of the old one by both sums at once.
  ghost predicate CollisionFree(strong: StrongHash, old_: seq<byte>, new_: seq<byte>, n: nat) {
    forall k: nat, i: nat ::
      k * n + n <= |old_| && i + n <= |new_| && SameChecksums(strong, Block(old_, k, n), Window(new_, i, n))
      ==> Block(old_, k, n) == Window(new_, i, n)
  }

  // The strong hash by itself tells the blocks of the old file from the windows of the new one.
  ghost predicate HashTells(strong: StrongHash, old_: seq<byte>, new_: seq<byte>, n: nat) {
    forall k: nat, i: nat ::
      k * n + n <= |old_| && i + n <= |new_| && strong(Block(old_, k, n)) == strong(Window(new_, i, n))
      ==> Block(old_, k, n) == Window(new_, i, n)
  }

  // A window is matched with the first block of the old file that has its checksums, the strong
  // one included.
  lemma HitExactly(strong: StrongHash, old_: seq<byte>, new_: seq<byte>, sums: BlockSums, i: nat, k: nat)
    requires SumsFrom(strong, old_, sums) && sums.blockLen > 0 && i + sums.blockLen <= |new_|
    ensures var n := sums.blockLen;
      Hit(strong, new_, sums, i) == Some(k) <==>
        && k * n + n <= |old_| && SameChecksums(strong, Block(old_, k, n), Window(new_, i, n))
        && forall j: nat :: j < k && j * n + n <= |old_| ==>
             !SameChecksums(strong, Block(old_, j, n), Window(new_, i, n))
  {
    hide SumOf, SumsOf, SameChecksums;
    var n, w := sums.blockLen, Window(new_, i, sums.blockLen);
    forall j: nat ensures j < |sums.blocks| <==> j * n + n <= |old_|
      ensures j < |sums.blocks| ==>
        (sums.blocks[j] == SumOf(strong, w) <==> SameChecksums(strong, Block(old_, j, n), w))
    {
      if j < |sums.blocks| {
        SumsOfAt(strong, old_, n, j);
        SameSumIff(strong, Block(old_, j, n), w);
      }
      if j * n + n <= |old_| { SumsOfCovers(strong, old_, n, j); }
    }
    HitIsFound(strong, new_, sums, i);
  }

  lemma CoversPrepend(old_: seq<byte>, file: seq<byte>, lit: seq<byte>, ops: seq<Op>)
    requires Covers(file, ops)
    ensures Covers(lit + file, LiteralRun(lit) + ops)
    ensures Faithful(old_, file, ops) ==> Faithful(old_, lit + file, LiteralRun(lit) + ops)
  {
    if lit != [] {
      assert (LiteralRun(lit) + ops)[1..] == ops;
      assert (lit + file)[|lit|..] == file && (lit + file)[..|lit|] == lit;
    } else {
      assert LiteralRun(lit) + ops == ops && lit + file == file;
    }
  }

  lemma CoversCopy(old_: seq<byte>, file: seq<byte>, i: nat, n: nat, copy: Op, tail: seq<Op>)
    requires 0 < n && i + n <= |file| && copy.Copy? && copy.len == n && Covers(file[i + n..], tail)
    ensures Covers(file[i..], [copy] + tail)
    ensures && copy.offset + n <= |old_| && old_[copy.offset..copy.offset + n] == file[i..i + n]
            && Faithful(old_, file[i + n..], tail)
            ==> Faithful(old_, file[i..], [copy] + tail)
  {
    assert ([copy] + tail)[1..] == tail;
    assert file[i..][n..] == file[i + n..] && file[i..][..n] == file[i..i + n];
  }

  lemma CoversLiteral(old_: seq<byte>, file: seq<byte>)
    ensures Covers(file, LiteralRun(file)) && Faithful(old_, file, LiteralRun(file))
  {
    CoversPrepend(old_, [], file, []);
    assert file + [] == file && LiteralRun(file) + [] == LiteralRun(file);
  }

  // The scan, one window further.
  lemma ScanStep(strong: StrongHash, new_: seq<byte>, sums: BlockSums, lit: nat, i: nat)
    requires sums.blockLen > 0 && lit <= i && i + sums.blockLen <= |new_|
    ensures match Hit(strong, new_, sums, i)
      case Some(k) =>
        Scan(strong, new_, sums, lit, i)
        == LiteralRun(new_[lit..i]) + ([Copy(k * sums.blockLen, sums.blockLen)] + ScanFrom(strong, new_, sums,
          i + sums.blockLen))
      case None =>
        Scan(strong, new_, sums, lit, i)
        == if i + sums.blockLen >= |new_| then LiteralRun(new_[lit..]) else Scan(strong, new_, sums, lit, i + 1)
  {
    hide Hit, LiteralRun, ScanFrom;
  }

  lemma CoversHit(old_: seq<byte>, new_: seq<byte>, lit: nat, i: nat, n: nat, copy: Op, tail: seq<Op>)
    requires lit <= i && 0 < n && i + n <= |new_| && copy.Copy? && copy.len == n && Covers(new_[i + n..], tail)
    ensures Covers(new_[lit..], LiteralRun(new_[lit..i]) + ([copy] + tail))
    ensures && copy.offset + n <= |old_| && old_[copy.offset..copy.offset + n] == new_[i..i + n]
            && Faithful(old_, new_[i + n..], tail)
            ==> Faithful(old_, new_[lit..], LiteralRun(new_[lit..i]) + ([copy] + tail))
  {
    hide Covers, Faithful, LiteralRun;
    CoversCopy(old_, new_, i, n, copy, tail);
    CoversPrepend(old_, new_[i..], new_[lit..i], [copy] + tail);
    assert new_[lit..i] + new_[i..] == new_[lit..];
  }

  ghost predicate Truthful(strong: StrongHash, old_: seq<byte>, new_: seq<byte>, sums: BlockSums) {
    SumsFrom(strong, old_, sums) && CollisionFree(strong, old_, new_, sums.blockLen)
  }

  // What the scan emits from `lit` on, and, when no window collides, that its copies are true.
  lemma {:induction false} ScanCovers(strong: StrongHash, old_: seq<byte>, new_: seq<byte>, sums: BlockSums,
      lit: nat, i: nat)
    requires sums.blockLen > 0 && lit <= i && i + sums.blockLen <= |new_|
    ensures Covers(new_[lit..], Scan(strong, new_, sums, lit, i))
    ensures Truthful(strong, old_, new_, sums) ==> Faithful(old_, new_[lit..], Scan(strong, new_, sums, lit, i))
    decreases |new_| - i, 0
  {
    hide *;
    var n := sums.blockLen;
    ScanStep(strong, new_, sums, lit, i);
    match Hit(strong, new_, sums, i)
    case Some(k) =>
      ScanFromCovers(strong, old_, new_, sums, i + n);
      if Truthful(strong, old_, new_, sums) {
        HitIsTrue(strong, old_, new_, sums, i, k);
      }
      CoversHit(old_, new_, lit, i, n, Copy(k * n, n), ScanFrom(strong, new_, sums, i + n));
    case None =>
      if i + n >= |new_| {
        CoversLiteral(old_, new_[lit..]);
      } else {
        ScanCovers(strong, old_, new_, sums, lit, i + 1);
      }
  }

  lemma {:induction false} ScanFromCovers(strong: StrongHash, old_: seq<byte>, new_: seq<byte>, sums: BlockSums,
      next: nat)
    requires sums.blockLen > 0 && next <= |new_|
    ensures Covers(new_[next..], ScanFrom(strong, new_, sums, next))
    ensures Truthful(strong, old_, new_, sums) ==> Faithful(old_, new_[next..], ScanFrom(strong, new_, sums, next))
    decreases |new_| - next, 1
  {
    hide Scan, Covers, Faithful, Truthful;
    if next + sums.blockLen > |new_| {
      CoversLiteral(old_, new_[next..]);
    } else {
      ScanCovers(strong, old_, new_, sums, next, next);
    }
  }

  lemma HitIsTrue(strong: StrongHash, old_: seq<byte>, new_: seq<byte>, sums: BlockSums, i: nat, k: nat)
    requires sums.blockLen > 0 && i + sums.blockLen <= |new_| && Truthful(strong, old_, new_, sums)
    requires Hit(strong, new_, sums, i) == Some(k)
    ensures var from := k * sums.blockLen;
      from + sums.blockLen <= |old_| && old_[from..from + sums.blockLen] == new_[i..i + sums.blockLen]
  {
    hide SumOf, SumsOf, CollisionFree;
    var n := sums.blockLen;
    var from := k * n;
    SumsOfAt(strong, old_, n, k);
    NoCollisionAt(strong, old_, new_, n, k, i);
  }

  lemma NoCollisionAt(strong: StrongHash, old_: seq<byte>, new_: seq<byte>, n: nat, k: nat, i: nat)
    requires CollisionFree(strong, old_, new_, n) && k * n + n <= |old_| && i + n <= |new_|
    requires SumOf(strong, old_[k * n..k * n + n]) == SumOf(strong, new_[i..i + n])
    ensures old_[k * n..k * n + n] == new_[i..i + n]
  {
    hide SumOf, SameChecksums;
    SameSumIff(strong, Block(old_, k, n), Window(new_, i, n));
    assert Block(old_, k, n) == old_[k * n..k * n + n] && Window(new_, i, n) == new_[i..i + n];
  }

  lemma DeltaOpsCover(strong: StrongHash, old_: seq<byte>, new_: seq<byte>, sums: BlockSums)
    ensures Covers(new_, DeltaOps(strong, new_, sums))
    ensures SumsFrom(strong, old_, sums) && CollisionFree(strong, old_, new_, sums.blockLen) ==>
      Faithful(old_, new_, DeltaOps(strong, new_, sums))
  {
    hide SumsFrom, CollisionFree, Scan;
    if sums.blockLen == 0 || sums.blocks == [] || |new_| < sums.blockLen {
      CoversLiteral(old_, new_);
    } else {
      ScanCovers(strong, old_, new_, sums, 0, 0);
      assert new_[0..] == new_;
    }
  }

  lemma {:induction false} ScanCopiesBlocks(strong: StrongHash, old_: seq<byte>, new_: seq<byte>, sums: BlockSums,
      lit: nat, i: nat)
    requires sums.blockLen > 0 && lit <= i && i + sums.blockLen <= |new_| && SumsFrom(strong, old_, sums)
    ensures CopiesBlocks(old_, sums.blockLen, Scan(strong, new_, sums, lit, i))
    decreases |new_| - i
  {
    hide SumOf;
    var n := sums.blockLen;
    match Hit(strong, new_, sums, i)
    case Some(k) =>
      SumsOfAt(strong, old_, n, k);
      if i + n + n <= |new_| {
        ScanCopiesBlocks(strong, old_, new_, sums, i + n, i + n);
      }
    case None =>
      if i + n < |new_| {
        ScanCopiesBlocks(strong, old_, new_, sums, lit, i + 1);
      }
  }

  // ---------------------------------------------------------------- nothing is missed

  // Ops for the new file from `at` on: a copy takes the block its window hits, and no window that
  // begins inside a literal run hits any.
  ghost predicate Greedy(strong: StrongHash, new_: seq<byte>, sums: BlockSums, ops: seq<Op>, at: nat) {
    if ops == [] then true
    else
      && (match ops[0]
          case Literal(data) => MissesIn(strong, new_, sums, at, at + |data|)
          case Copy(offset, len) =>
            && at + sums.blockLen <= |new_| && len == sums.blockLen
            && exists k: nat :: Hit(strong, new_, sums, at) == Some(k) && offset == k * len)
      && Greedy(strong, new_, sums, ops[1..], at + OpLength(ops[0]))
  }

  ghost predicate MissesIn(strong: StrongHash, new_: seq<byte>, sums: BlockSums, from: nat, to: nat) {
    forall i :: from <= i < to && i + sums.blockLen <= |new_| ==> Hit(strong, new_, sums, i).None?
  }

  lemma GreedyRun(strong: StrongHash, new_: seq<byte>, sums: BlockSums, lit: nat, i: nat, tail: seq<Op>)
    requires lit <= i <= |new_| && MissesIn(strong, new_, sums, lit, i) && Greedy(strong, new_, sums, tail, i)
    ensures Greedy(strong, new_, sums, LiteralRun(new_[lit..i]) + tail, lit)
  {
    hide Hit, MissesIn;
    var run := LiteralRun(new_[lit..i]);
    assert run == [] ==> run + tail == tail;
    assert run != [] ==> (run + tail)[1..] == tail;
  }

  // The scan copies whatever it can: between the copies it passes over no window that some block
  // of the old file agrees with.
  lemma {:induction false} ScanIsGreedy(strong: StrongHash, new_: seq<byte>, sums: BlockSums, lit: nat, i: nat)
    requires sums.blockLen > 0 && lit <= i && i + sums.blockLen <= |new_| && MissesIn(strong, new_, sums, lit, i)
    ensures Greedy(strong, new_, sums, Scan(strong, new_, sums, lit, i), lit)
    decreases |new_| - i
  {
    hide Hit, LiteralRun, Scan;
    var n := sums.blockLen;
    ScanStep(strong, new_, sums, lit, i);
    match Hit(strong, new_, sums, i)
    case Some(k) =>
      var copy, tail := Copy(k * n, n), ScanFrom(strong, new_, sums, i + n);
      if i + n + n <= |new_| {
        ScanIsGreedy(strong, new_, sums, i + n, i + n);
      } else {
        LastRunIsGreedy(strong, new_, sums, i + n);
      }
      assert ([copy] + tail)[1..] == tail;
      GreedyRun(strong, new_, sums, lit, i, [copy] + tail);
    case None =>
      if i + n < |new_| {
        ScanIsGreedy(strong, new_, sums, lit, i + 1);
      } else {
        LastRunIsGreedy(strong, new_, sums, lit);
      }
  }

  lemma DeltaIsGreedy(strong: StrongHash, new_: seq<byte>, sums: BlockSums)
    requires sums.blockLen > 0
    ensures Greedy(strong, new_, sums, DeltaOps(strong, new_, sums), 0)
  {
    hide Scan, LiteralRun, Greedy;
    if sums.blocks == [] || |new_| < sums.blockLen {
      LastRunIsGreedy(strong, new_, sums, 0);
      assert new_[0..] == new_;
    } else {
      ScanIsGreedy(strong, new_, sums, 0, 0);
    }
  }

  lemma LastRunIsGreedy(strong: StrongHash, new_: seq<byte>, sums: BlockSums, lit: nat)
    requires lit <= |new_| && MissesIn(strong, new_, sums, lit, |new_|)
    ensures Greedy(strong, new_, sums, LiteralRun(new_[lit..]), lit)
  {
    hide Hit, MissesIn;
    assert new_[lit..|new_|] == new_[lit..];
    GreedyRun(strong, new_, sums, lit, |new_|, []);
    assert LiteralRun(new_[lit..]) + [] == LiteralRun(new_[lit..]);
  }

  // ---------------------------------------------------------------- encode, then apply

  // The ops fit their fields: what `as u32` and the 64-bit offsets need.
  ghost predicate FieldsFit(ops: seq<Op>) {
    forall op :: op in ops ==> OpLength(op) < 0x1_0000_0000 && (op.Copy? ==> op.offset < 0x1_0000_0000_0000_0000)
  }

  lemma FieldRoundTrip(n: nat)
    ensures n < U32 ==> FromLittleEndian(LittleEndian(n % U32, 4)) == n
    ensures n < U64 ==> FromLittleEndian(LittleEndian(n % U64, 8)) == n
  {
    hide LittleEndian, FromLittleEndian;
    FieldWidths();
    if n < U32 {
      LittleEndianRoundTrip(n, 4);
    }
    if n < U64 {
      LittleEndianRoundTrip(n, 8);
    }
  }

  lemma ApplyLiteral(old_: seq<byte>, data: seq<byte>, rest: seq<byte>)
    requires |data| < U32
    ensures Apply(old_, EncodeOp(Literal(data)) + rest) == Prepend(data, Apply(old_, rest))
  {
    hide LittleEndian, FromLittleEndian;
    var d := EncodeOp(Literal(data)) + rest;
    FieldRoundTrip(|data|);
    assert d[1..5] == LittleEndian(|data| % U32, 4);
    assert d[5..5 + |data|] == data && d[5 + |data|..] == rest;
  }

  lemma ApplyCopy(old_: seq<byte>, offset: nat, len: nat, rest: seq<byte>)
    requires len < U32 && offset < U64 && Reaches(old_, Copy(offset, len))
    ensures Apply(old_, EncodeOp(Copy(offset, len)) + rest)
         == Prepend(MeaningOfOne(old_, Copy(offset, len)), Apply(old_, rest))
  {
    hide LittleEndian, FromLittleEndian;
    var d := EncodeOp(Copy(offset, len)) + rest;
    FieldRoundTrip(offset);
    FieldRoundTrip(len);
    assert d[1..9] == LittleEndian(offset % U64, 8) && d[9..13] == LittleEndian(len % U32, 4);
    assert d[13..] == rest;
  }

  lemma ApplyOne(old_: seq<byte>, op: Op, rest: seq<byte>)
    requires OpLength(op) < U32 && Reaches(old_, op) && (op.Copy? ==> op.offset < U64)
    ensures Apply(old_, EncodeOp(op) + rest) == Prepend(MeaningOfOne(old_, op), Apply(old_, rest))
  {
    hide Apply, EncodeOp, Prepend;
    match op
    case Literal(data) => ApplyLiteral(old_, data, rest);
    case Copy(offset, len) => ApplyCopy(old_, offset, len, rest);
  }

  lemma {:induction false} ApplyBehind(old_: seq<byte>, ops: seq<Op>, tail: seq<byte>)
    requires FieldsFit(ops) && InRange(old_, ops)
    ensures Apply(old_, EncodeOps(ops) + tail) == Prepend(Meaning(old_, ops), Apply(old_, tail))
  {
    hide EncodeOp, Apply, MeaningOfOne;
    if ops == [] {
      PrependConcat([], [], Apply(old_, tail));
      assert EncodeOps(ops) + tail == tail;
    } else {
      var more := EncodeOps(ops[1..]) + tail;
      ApplyBehind(old_, ops[1..], tail);
      assert EncodeOps(ops) + tail == EncodeOp(ops[0]) + more;
      ApplyOne(old_, ops[0], more);
      PrependConcat(MeaningOfOne(old_, ops[0]), Meaning(old_, ops[1..]), Apply(old_, tail));
    }
  }

  lemma ApplyEncoded(old_: seq<byte>, ops: seq<Op>)
    requires FieldsFit(ops) && InRange(old_, ops)
    ensures Apply(old_, EncodeDelta(ops)) == Ok(Meaning(old_, ops))
  {
    ApplyBehind(old_, ops, [OP_END]);
    assert Apply(old_, [OP_END]) == Ok([]);
    assert Meaning(old_, ops) + [] == Meaning(old_, ops);
  }

  // ---------------------------------------------------------------- every stream, malformed or not

  // Where decoding ends, and with what: at an end tag, or at the first op that is cut short, runs
  // past the delta or past the old file, or has a tag of its own.
  ghost predicate Stops(old_: seq<byte>, tail: seq<byte>, r: Result<seq<byte>, DeltaError>) {
    match r
    case Ok(rest) => rest == [] && tail != [] && tail[0] == 2
    case Err(Truncated) => tail == [] || (tail[0] == 0 && |tail| < 5) || (tail[0] == 1 && |tail| < 13)
    case Err(LiteralOverrun) => |tail| >= 5 && tail[0] == 0 && 5 + FromLittleEndian(tail[1..5]) > |tail|
    case Err(ShortRead) =>
      && |tail| >= 13 && tail[0] == 1 && FromLittleEndian(tail[9..13]) > 0
      && FromLittleEndian(tail[1..9]) + FromLittleEndian(tail[9..13]) > |old_|
    case Err(UnknownOp(tag)) => tail != [] && tail[0] == tag && tag > 2
    case Err(Unreadable) => false
  }

  // `ops` stand at the front of the delta, and decoding ends right behind them with `r`.
  ghost predicate Reads(old_: seq<byte>, delta: seq<byte>, ops: seq<Op>, tail: seq<byte>,
      r: Result<seq<byte>, DeltaError>) {
    && delta == EncodeOps(ops) + tail && FieldsFit(ops) && InRange(old_, ops)
    && Stops(old_, tail, r)
  }

  lemma StopsMeans(old_: seq<byte>, tail: seq<byte>, r: Result<seq<byte>, DeltaError>)
    requires Stops(old_, tail, r)
    ensures Apply(old_, tail) == r
  {
    hide FromLittleEndian;
  }

  lemma OpRead(old_: seq<byte>, delta: seq<byte>) returns (op: Op, n: nat)
    requires forall r :: !Stops(old_, delta, r)
    ensures 0 < n <= |delta| && EncodeOp(op) == delta[..n] && FieldsFit([op]) && Reaches(old_, op)
  {
    hide LittleEndian, FromLittleEndian;
    FieldWidths();
    assert !Stops(old_, delta, Ok([])) && !Stops(old_, delta, Err(Truncated));
    assert !Stops(old_, delta, Err(UnknownOp(delta[0])));
    if delta[0] == OP_LITERAL {
      assert !Stops(old_, delta, Err(LiteralOverrun));
      FieldIsEncoded(delta[1..5]);
      n := 5 + FromLittleEndian(delta[1..5]);
      op := Literal(delta[5..n]);
      assert delta[..n] == [delta[0]] + delta[1..5] + delta[5..n];
    } else {
      assert !Stops(old_, delta, Err(ShortRead));
      FieldIsEncoded(delta[1..9]);
      FieldIsEncoded(delta[9..13]);
      n := 13;
      op := Copy(FromLittleEndian(delta[1..9]), FromLittleEndian(delta[9..13]));
      assert delta[..n] == [delta[0]] + delta[1..9] + delta[9..13];
    }
  }

  lemma {:induction false} SomeRead(old_: seq<byte>, delta: seq<byte>)
    returns (ops: seq<Op>, tail: seq<byte>, r: Result<seq<byte>, DeltaError>)
    ensures Reads(old_, delta, ops, tail, r)
    decreases |delta|
  {
    hide Stops, EncodeOp;
    if r' :| Stops(old_, delta, r') {
      ops, tail, r := [], delta, r';
      assert delta == EncodeOps(ops) + tail;
    } else {
      var op, n := OpRead(old_, delta);
      ops, tail, r := SomeRead(old_, delta[n..]);
      assert delta == delta[..n] + delta[n..] && ([op] + ops)[1..] == ops;
      assert EncodeOps([op] + ops) + tail == EncodeOp(op) + (EncodeOps(ops) + tail);
      assert op in [op];
      ops := [op] + ops;
    }
  }

  // What decoding makes of any bytes whatsoever: it reads the ops in front, and ends exactly where
  // and as `Stops` says.
  lemma ApplyExactly(old_: seq<byte>, delta: seq<byte>, result: Result<seq<byte>, DeltaError>)
    ensures Apply(old_, delta) == result <==>
      exists ops, tail, r :: Reads(old_, delta, ops, tail, r) && result == Prepend(Meaning(old_, ops), r)
  {
    hide Stops, Apply;
    forall ops, tail, r | Reads(old_, delta, ops, tail, r)
      ensures Apply(old_, delta) == Prepend(Meaning(old_, ops), r)
    {
      ApplyBehind(old_, ops, tail);
      StopsMeans(old_, tail, r);
    }
    var ops, tail, r := SomeRead(old_, delta);
  }

  lemma MeaningSplits(old_: seq<byte>, ops: seq<Op>)
    requires ops != [] && InRange(old_, ops)
    ensures InRange(old_, ops[1..]) && Reaches(old_, ops[0]) && |MeaningOfOne(old_, ops[0])| == OpLength(ops[0])
    ensures Meaning(old_, ops) == MeaningOfOne(old_, ops[0]) + Meaning(old_, ops[1..])
  {
    assert ops[0] in ops;
  }

  lemma SplitEqually(a: seq<byte>, b: seq<byte>, n: nat, rest: seq<byte>)
    requires n <= |b| && |a| == n
    ensures a + rest == b <==> a == b[..n] && rest == b[n..]
  {
    assert b == b[..n] + b[n..] && (a + rest)[..n] == a && (a + rest)[n..] == rest;
  }

  lemma {:induction false} MeaningOfCover(old_: seq<byte>, file: seq<byte>, ops: seq<Op>)
    requires Covers(file, ops) && InRange(old_, ops)
    ensures |Meaning(old_, ops)| == |file|
    ensures Meaning(old_, ops) == file <==> Faithful(old_, file, ops)
  {
    if ops != [] {
      hide Meaning, InRange, Reaches;
      var n := OpLength(ops[0]);
      MeaningSplits(old_, ops);
      MeaningOfCover(old_, file[n..], ops[1..]);
      SplitEqually(MeaningOfOne(old_, ops[0]), file, n, Meaning(old_, ops[1..]));
      assert ops[0].Copy? && ops[0].offset + n <= |old_| ==>
        MeaningOfOne(old_, ops[0]) == old_[ops[0].offset..ops[0].offset + n];
      if ops[0].Copy? { ReachesFar(old_, ops[0]); }
    }
  }

  lemma ReachesFar(old_: seq<byte>, op: Op)
    requires Reaches(old_, op) && op.Copy? && op.len > 0
    ensures op.offset + op.len <= |old_|
  {}

  lemma {:induction false} CoverBounds(file: seq<byte>, ops: seq<Op>)
    requires Covers(file, ops)
    ensures forall op :: op in ops ==> OpLength(op) <= |file|
  {
    if ops != [] {
      CoverBounds(file[OpLength(ops[0])..], ops[1..]);
    }
  }

  lemma DeltaOpsWellFormed(strong: StrongHash, old_: seq<byte>, new_: seq<byte>, sums: BlockSums)
    requires SumsFrom(strong, old_, sums) && |old_| < U64 && |new_| < U32
    ensures var ops := DeltaOps(strong, new_, sums);
      Covers(new_, ops) && CopiesBlocks(old_, sums.blockLen, ops) && FieldsFit(ops) && InRange(old_, ops)
  {
    var ops := DeltaOps(strong, new_, sums);
    DeltaOpsCover(strong, old_, new_, sums);
    CoverBounds(new_, ops);
    if sums.blockLen != 0 && sums.blocks != [] && |new_| >= sums.blockLen {
      ScanCopiesBlocks(strong, old_, new_, sums, 0, 0);
    }
  }

  // For every strong hash, collisions included: applying the delta succeeds and writes a
  // file of the right length, which is the new file exactly when no copy is a false match.
  lemma DeltaRoundTripExact(strong: StrongHash, old_: seq<byte>, new_: seq<byte>, sums: BlockSums)
    requires SumsFrom(strong, old_, sums) && |old_| < U64 && |new_| < U32
    ensures var ops, r := DeltaOps(strong, new_, sums), Apply(old_, EncodeDelta(DeltaOps(strong, new_, sums)));
      && r.Ok? && |r.value| == |new_|
      && Covers(new_, ops)
      && (r.value == new_ <==> Faithful(old_, new_, ops))
  {
    DeltaOpsWellFormed(strong, old_, new_, sums);
    ApplyEncoded(old_, DeltaOps(strong, new_, sums));
    MeaningOfCover(old_, new_, DeltaOps(strong, new_, sums));
  }

  lemma DeltaRoundTrip(strong: StrongHash, old_: seq<byte>, new_: seq<byte>, sums: BlockSums)
    requires SumsFrom(strong, old_, sums) && |old_| < U64 && |new_| < U32
    requires CollisionFree(strong, old_, new_, sums.blockLen)
    ensures Apply(old_, EncodeDelta(DeltaOps(strong, new_, sums))) == Ok(new_)
  {
    DeltaRoundTripExact(strong, old_, new_, sums);
    DeltaOpsCover(strong, old_, new_, sums);
  }

  // So a strong hash that tells blocks from windows is enough, whatever the weak sums do.
  lemma DeltaRoundTripByHash(strong: StrongHash, old_: seq<byte>, new_: seq<byte>, sums: BlockSums)
    requires SumsFrom(strong, old_, sums) && |old_| < U64 && |new_| < U32
    requires HashTells(strong, old_, new_, sums.blockLen)
    ensures Apply(old_, EncodeDelta(DeltaOps(strong, new_, sums))) == Ok(new_)
  {
    hide *;
    assert CollisionFree(strong, old_, new_, sums.blockLen) by {
      HashIsEnough(strong, old_, new_, sums.blockLen);
    }
    DeltaRoundTrip(strong, old_, new_, sums);
  }

  lemma HashIsEnough(strong: StrongHash, old_: seq<byte>, new_: seq<byte>, n: nat)
    requires HashTells(strong, old_, new_, n)
    ensures CollisionFree(strong, old_, new_, n)
  {}

  // The whole exchange: the destination sums its file through a reader of any fragmentation,
  // the source builds the delta, the destination applies it to its own file.
  method Transfer(strong: StrongHash, basis: Reader, old_: BasisFile, new_: seq<byte>, root: nat)
    returns (r: Option<seq<byte>>)
    requires basis.Valid() && basis.pos == 0 && !basis.failed && !old_.failed && basis.data == old_.data
    requires |old_.data| < U64 && |new_| < U32
    requires CollisionFree(strong, old_.data, new_, BlockLenFor(|old_.data|, root))
    modifies basis`pos, basis`failed, old_`pos, old_`failed
    ensures r == if basis.failed || old_.failed then None else Some(new_)
  {
    var blockLen := BlockLenFor(|old_.data|, root);
    var ok, blocks := ComputeBlockSumsFromReader(strong, basis, blockLen);
    if !ok {
      return None;
    }
    var sums := BlockSums(blockLen, blocks);
    var delta := BuildDelta(strong, new_, sums);
    var rebuilt := ApplyDelta(old_, delta);
    DeltaRoundTrip(strong, old_.data, new_, sums);
    r := if rebuilt.Ok? then Some(rebuilt.value) else None;
  }

  // ---------------------------------------------------------------- the 2^32 limit is sharp

  // Without an old file only literals can produce bytes, and every literal costs five more.
  lemma {:induction false} ApplyOutputBound(delta: seq<byte>)
    ensures Apply([], delta).Ok? ==> |Apply([], delta).value| + 1 <= |delta|
    ensures Apply([], delta).Ok? && Apply([], delta).value != [] ==> |Apply([], delta).value| + 6 <= |delta|
    decreases |delta|
  {
    if delta != [] && delta[0] == OP_LITERAL && |delta| >= 5 {
      var end := 5 + FromLittleEndian(delta[1..5]);
      if end <= |delta| {
        ApplyOutputBound(delta[end..]);
      }
    } else if delta != [] && delta[0] == OP_COPY && |delta| >= 13 {
      ApplyOutputBound(delta[13..]);
    }
  }

  // With nothing to copy from, the round trip holds exactly for files below 4 GiB: the length
  // cast of a longer literal is not undone.
  lemma EmptyBasisRoundTripIff(strong: StrongHash, new_: seq<byte>, blockLen: nat)
    requires blockLen > 0
    ensures Apply([], EncodeDelta(DeltaOps(strong, new_, BlockSums(blockLen, [])))) == Ok(new_) <==> |new_| < U32
  {
    var ops := DeltaOps(strong, new_, BlockSums(blockLen, []));
    if |new_| < U32 {
      CoversLiteral([], new_);
      ApplyEncoded([], ops);
      MeaningOfCover([], new_, ops);
    } else {
      EncodeOne(Literal(new_));
      var delta := EncodeDelta(ops);
      var kept := |new_| % U32;
      FieldWidths();
      LittleEndianRoundTrip(kept, 4);
      assert delta[1..5] == LittleEndian(kept, 4);
      var r := Apply([], delta[5 + kept..]);
      ApplyOutputBound(delta[5 + kept..]);
      assert Apply([], delta) == Prepend(delta[5..5 + kept], r);
    }
  }

  // ---------------------------------------------------------------- size and conservation

  function LiteralBytes(ops: seq<Op>): nat {
    if ops == [] then 0 else (if ops[0].Literal? then |ops[0].data| else 0) + LiteralBytes(ops[1..])
  }

  function CopiedBytes(ops: seq<Op>): nat {
    if ops == [] then 0 else (if ops[0].Copy? then ops[0].len else 0) + CopiedBytes(ops[1..])
  }

  function Literals(ops: seq<Op>): nat {
    if ops == [] then 0 else (if ops[0].Literal? then 1 else 0) + Literals(ops[1..])
  }

  function Copies(ops: seq<Op>): nat {
    if ops == [] then 0 else (if ops[0].Copy? then 1 else 0) + Copies(ops[1..])
  }

  lemma {:induction false} BytesConserved(file: seq<byte>, ops: seq<Op>)
    requires Covers(file, ops)
    ensures LiteralBytes(ops) + CopiedBytes(ops) == |file|
  {
    if ops != [] {
      BytesConserved(file[OpLength(ops[0])..], ops[1..]);
    }
  }

  lemma {:induction false} EncodedSize(ops: seq<Op>)
    ensures |EncodeOps(ops)| == LiteralBytes(ops) + 5 * Literals(ops) + 13 * Copies(ops)
  {
    if ops != [] {
      EncodedSize(ops[1..]);
    }
  }

  lemma {:induction false} CopiedByBlocks(blockLen: nat, ops: seq<Op>)
    requires forall op :: op in ops && op.Copy? ==> op.len == blockLen
    ensures CopiedBytes(ops) == blockLen * Copies(ops)
  {
    if ops != [] {
      CopiedByBlocks(blockLen, ops[1..]);
    }
  }

  lemma {:induction false} LiteralsConcat(xs: seq<Op>, ys: seq<Op>)
    ensures Literals(xs + ys) == Literals(xs) + Literals(ys)
    ensures Copies(xs + ys) == Copies(xs) + Copies(ys)
    ensures LiteralBytes(xs + ys) == LiteralBytes(xs) + LiteralBytes(ys)
  {
    if xs == [] {
      assert xs + ys == ys;
    } else {
      assert (xs + ys)[1..] == xs[1..] + ys;
      LiteralsConcat(xs[1..], ys);
    }
  }

  // A literal run is always closed by a copy, or is the last op.
  lemma {:induction false} ScanAlternates(strong: StrongHash, new_: seq<byte>, sums: BlockSums, lit: nat, i: nat)
    requires sums.blockLen > 0 && lit <= i && i + sums.blockLen <= |new_|
    ensures Literals(Scan(strong, new_, sums, lit, i)) <= Copies(Scan(strong, new_, sums, lit, i)) + 1
    decreases |new_| - i
  {
    hide Hit;
    var n := sums.blockLen;
    match Hit(strong, new_, sums, i)
    case Some(k) =>
      var run, copy, tail := LiteralRun(new_[lit..i]), [Copy(k * n, n)], ScanFrom(strong, new_, sums, i + n);
      if i + n + n <= |new_| {
        ScanAlternates(strong, new_, sums, i + n, i + n);
      }
      LiteralsConcat(run, copy + tail);
      LiteralsConcat(copy, tail);
    case None =>
      if i + n < |new_| {
        ScanAlternates(strong, new_, sums, lit, i + 1);
      }
  }

  // Each copy pays for itself once a block is at least 18 bytes; in general the encoding
  // outgrows the new file by at most 6 bytes and 18 - blockLen bytes a copy.
  lemma DeltaSize(strong: StrongHash, old_: seq<byte>, new_: seq<byte>, sums: BlockSums)
    requires SumsFrom(strong, old_, sums) && |old_| < U64 && |new_| < U32
    ensures var ops := DeltaOps(strong, new_, sums);
      && LiteralBytes(ops) + CopiedBytes(ops) == |new_|
      && CopiedBytes(ops) == sums.blockLen * Copies(ops)
      && |EncodeDelta(ops)| <= |new_| + 6 + (18 - sums.blockLen) * Copies(ops)
      && (sums.blockLen >= 18 ==> |EncodeDelta(ops)| <= |new_| + 6)
  {
    hide *;
    var ops := DeltaOps(strong, new_, sums);
    assert CopiedBytes(ops) == sums.blockLen * Copies(ops) && LiteralBytes(ops) + CopiedBytes(ops) == |new_| by {
      DeltaOpsConserve(strong, old_, new_, sums);
    }
    DeltaOpsAlternate(strong, new_, sums);
    EncodedDeltaSize(ops);
    assert (18 - sums.blockLen) * Copies(ops) == 18 * Copies(ops) - sums.blockLen * Copies(ops);
    if sums.blockLen >= 18 {
      assert (18 - sums.blockLen) * Copies(ops) <= 0;
    }
  }

  lemma DeltaOpsConserve(strong: StrongHash, old_: seq<byte>, new_: seq<byte>, sums: BlockSums)
    requires SumsFrom(strong, old_, sums) && |old_| < U64 && |new_| < U32
    ensures var ops := DeltaOps(strong, new_, sums);
      LiteralBytes(ops) + CopiedBytes(ops) == |new_| && CopiedBytes(ops) == sums.blockLen * Copies(ops)
  {
    hide DeltaOps, SumsFrom;
    DeltaOpsWellFormed(strong, old_, new_, sums);
    BytesConserved(new_, DeltaOps(strong, new_, sums));
    CopiedByBlocks(sums.blockLen, DeltaOps(strong, new_, sums));
  }

  lemma DeltaOpsAlternate(strong: StrongHash, new_: seq<byte>, sums: BlockSums)
    ensures Literals(DeltaOps(strong, new_, sums)) <= Copies(DeltaOps(strong, new_, sums)) + 1
  {
    if sums.blockLen != 0 && sums.blocks != [] && |new_| >= sums.blockLen {
      ScanAlternates(strong, new_, sums, 0, 0);
    }
  }

  lemma EncodedDeltaSize(ops: seq<Op>)
    ensures |EncodeDelta(ops)| == LiteralBytes(ops) + 5 * Literals(ops) + 13 * Copies(ops) + 1
  {
    EncodedSize(ops);
  }

  lemma {:induction false} ScanOfSame(strong: StrongHash, file: seq<byte>, sums: BlockSums, k: nat)
    requires sums.blockLen > 0 && k * sums.blockLen + sums.blockLen <= |file| && SumsFrom(strong, file, sums)
    ensures LiteralBytes(Scan(strong, file, sums, k * sums.blockLen, k * sums.blockLen)) == |file| % sums.blockLen
    decreases |file| - k * sums.blockLen
  {
    hide Scan, Hit, SumsFrom, LiteralBytes, LiteralRun;
    var n, i := sums.blockLen, k * sums.blockLen;
    var hit := SameHit(strong, file, sums, k);
    ScanStep(strong, file, sums, i, i);
    var next := (k + 1) * n;
    assert next == i + n;
    var copy, tail := [Copy(hit * n, n)], ScanFrom(strong, file, sums, next);
    NoLiterals(file, i, hit * n, n);
    assert LiteralRun(file[i..i]) + (copy + tail) == copy + tail;
    LiteralsConcat(copy, tail);
    if next + n > |file| {
      Remainder(|file|, n, k + 1);
      LiteralsOfRun(file[next..]);
    } else {
      ScanOfSame(strong, file, sums, k + 1);
    }
  }

  lemma SameHit(strong: StrongHash, file: seq<byte>, sums: BlockSums, k: nat) returns (hit: nat)
    requires sums.blockLen > 0 && k * sums.blockLen + sums.blockLen <= |file| && SumsFrom(strong, file, sums)
    ensures Hit(strong, file, sums, k * sums.blockLen) == Some(hit)
  {
    var n, i := sums.blockLen, k * sums.blockLen;
    SumsOfCovers(strong, file, n, k);
    SumsOfAt(strong, file, n, k);
    assert sums.blocks[k] == SumOf(strong, file[i..i + n]);
    hit := Hit(strong, file, sums, i).value;
  }

  lemma NoLiterals(file: seq<byte>, i: nat, offset: nat, len: nat)
    requires i <= |file|
    ensures LiteralRun(file[i..i]) == [] && LiteralBytes([Copy(offset, len)]) == 0
  {}

  lemma LiteralsOfRun(data: seq<byte>)
    ensures LiteralBytes(LiteralRun(data)) == |data|
  {}

  lemma Remainder(x: nat, n: nat, q: nat)
    requires n > 0 && q * n <= x < q * n + n
    ensures x % n == x - q * n
  {
    var d := x / n;
    if d < q {
      Multiple(q - d, n);
    } else if d > q {
      Multiple(d - q, n);
    }
    assert (d - q) * n == d * n - q * n;
  }

  lemma Multiple(m: nat, n: nat)
    requires m > 0
    ensures m * n >= n
  {
    assert m * n == (m - 1) * n + n;
  }

  // An unchanged file costs only its short tail, whatever the strong hash does.
  lemma UnchangedFileLiterals(strong: StrongHash, file: seq<byte>, sums: BlockSums)
    requires sums.blockLen > 0 && SumsFrom(strong, file, sums)
    ensures LiteralBytes(DeltaOps(strong, file, sums)) == |file| % sums.blockLen
  {
    if |file| < sums.blockLen {
      Remainder(|file|, sums.blockLen, 0);
    } else {
      ScanOfSame(strong, file, sums, 0);
      SumsOfCovers(strong, file, sums.blockLen, 0);
    }
  }
}
