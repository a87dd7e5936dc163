// The rsync-style block delta of src/core/sync/delta.rs.
module Delta {
  import opened Wrappers
  import opened Bytes
  import opened RollingSum

  // The truncated blake3 of the source, of which nothing is assumed but that it is a function.
  type StrongHash = seq<byte> -> seq<byte>

  datatype BlockSum = BlockSum(weak: nat, strong: seq<byte>)

  datatype BlockSums = BlockSums(blockLen: nat, blocks: seq<BlockSum>)

  datatype Op = Literal(data: seq<byte>) | Copy(offset: nat, len: nat)

  datatype DeltaError = Truncated | LiteralOverrun | ShortRead | UnknownOp(tag: byte) | Unreadable

  const OP_LITERAL: byte := 0
  const OP_COPY: byte := 1
  const OP_END: byte := 2

  const BLOCK_SIZE := 700
  const MAX_BLOCK_SIZE := 131072

  // `root` stands for the truncated floating-point square root of `len`.
  function BlockLenFor(len: nat, root: nat): (r: nat)
    ensures BLOCK_SIZE <= r <= MAX_BLOCK_SIZE
  {
    if len <= BLOCK_SIZE * BLOCK_SIZE then BLOCK_SIZE
    else
      var rounded := root - root % 8;
      if rounded < BLOCK_SIZE then BLOCK_SIZE else if rounded > MAX_BLOCK_SIZE then MAX_BLOCK_SIZE else rounded
  }

  // Between the bounds, the block length is the greatest multiple of 8 up to the square root; in
  // general the file has no more blocks than keep it at the root's order, or than the bounds allow.
  lemma BlockLenNearRoot(len: nat, root: nat)
    requires root * root <= len < (root + 1) * (root + 1)
    ensures var n := BlockLenFor(len, root);
      && 700 <= n <= 131072
      && (n > 700 ==> n % 8 == 0 && n * n <= len)
      && (n < 131072 ==> len < (n + 8) * (n + 8))
  {
    var n := BlockLenFor(len, root);
    if n > BLOCK_SIZE {
      Squares(n, root);
    }
    if n < MAX_BLOCK_SIZE && len > BLOCK_SIZE * BLOCK_SIZE {
      Squares(root + 1, n + 8);
    }
  }

  lemma Squares(a: nat, b: nat)
    requires a <= b
    ensures a * a <= b * b
  {
    assert b * b - a * a == (b - a) * (b + a);
  }

  // ---------------------------------------------------------------- block sums

  function SumOf(strong: StrongHash, block: seq<byte>): BlockSum {
    BlockSum(Digest(block), strong(block))
  }

  // One sum per full block of `data`, the short tail left out.
  function SumsOf(strong: StrongHash, data: seq<byte>, blockLen: nat): seq<BlockSum>
    decreases |data|
  {
    if blockLen == 0 || |data| < blockLen then []
    else [SumOf(strong, data[..blockLen])] + SumsOf(strong, data[blockLen..], blockLen)
  }

  lemma {:induction false} SumsOfAt(strong: StrongHash, data: seq<byte>, blockLen: nat, k: nat)
    requires k < |SumsOf(strong, data, blockLen)|
    ensures k * blockLen + blockLen <= |data|
    ensures SumsOf(strong, data, blockLen)[k] == SumOf(strong, data[k * blockLen..k * blockLen + blockLen])
    decreases k
  {
    if k > 0 {
      var rest := data[blockLen..];
      SumsOfAt(strong, rest, blockLen, k - 1);
      var from := (k - 1) * blockLen;
      assert k * blockLen == from + blockLen;
      assert rest[from..from + blockLen] == data[from + blockLen..from + blockLen + blockLen];
    }
  }

  lemma {:induction false} SumsOfCovers(strong: StrongHash, data: seq<byte>, blockLen: nat, k: nat)
    requires k * blockLen + blockLen <= |data| && blockLen > 0
    ensures k < |SumsOf(strong, data, blockLen)|
    decreases k
  {
    if k > 0 {
      assert (k - 1) * blockLen + blockLen == k * blockLen;
      SumsOfCovers(strong, data[blockLen..], blockLen, k - 1);
    }
  }

  method NewRolling(window: seq<byte>) returns (r: Rolling)
    requires |window| < U32
    ensures fresh(r) && r.Represents(window)
  {
    r := new Rolling(window);
  }

  method ComputeSum(strong: StrongHash, block: seq<byte>) returns (s: BlockSum)
    requires |block| < U32
    ensures s == SumOf(strong, block)
  {
    var roll := new Rolling(block);
    var weak := roll.DigestOf(block);
    s := BlockSum(weak, strong(block));
  }

  method ComputeBlockSums(strong: StrongHash, data: seq<byte>, blockLen: nat) returns (blocks: seq<BlockSum>)
    requires blockLen < U32
    ensures blocks == SumsOf(strong, data, blockLen)
  {
    blocks := [];
    if blockLen == 0 {
      return;
    }
    var offset := 0;
    while offset + blockLen <= |data|
      invariant 0 <= offset <= |data|
      invariant blocks + SumsOf(strong, data[offset..], blockLen) == SumsOf(strong, data, blockLen)
    {
      var rest := data[offset..];
      assert rest[..blockLen] == data[offset..offset + blockLen];
      assert rest[blockLen..] == data[offset + blockLen..];
      var sum := ComputeSum(strong, data[offset..offset + blockLen]);
      blocks := blocks + [sum];
      offset := offset + blockLen;
    }
  }

  // A byte source that hands out its data in fragments of any size, and may fail at any read.
  class Reader {
    const data: seq<byte>
    var pos: nat
    var failed: bool

    ghost predicate Valid()
      reads this
    {
      pos <= |data|
    }

    constructor (data: seq<byte>)
      ensures Valid() && this.data == data && pos == 0 && !failed
    {
      this.data, pos, failed := data, 0, false;
    }

    // Fills some of buf[from..]; zero bytes mean end of data.
    method Read(buf: array<byte>, from: nat) returns (ok: bool, n: nat)
      requires Valid() && from < buf.Length
      modifies this`pos, this`failed, buf
      ensures Valid()
      ensures ok ==> failed == old(failed) && pos == old(pos) + n && from + n <= buf.Length
      ensures ok ==> (n == 0 <==> old(pos) == |data|)
      ensures ok ==> buf[..from] == old(buf[..from]) && buf[from..from + n] == data[old(pos)..pos]
      ensures !ok ==> failed
    {
      n := 0;
      if * {
        failed := true;
        return false, 0;
      }
      ok := true;
      if pos < |data| {
        n :| 1 <= n && from + n <= buf.Length && pos + n <= |data|;
        forall k | 0 <= k < n {
          buf[from + k] := data[pos + k];
        }
        assert buf[from..from + n] == data[pos..pos + n];
        pos := pos + n;
      }
    }
  }

  // Reads until `buf` is full or the data ends.
  method FillBlock(reader: Reader, buf: array<byte>) returns (ok: bool, filled: nat)
    requires reader.Valid() && !reader.failed
    modifies reader`pos, reader`failed, buf
    ensures reader.Valid() && (ok <==> !reader.failed)
    ensures ok ==> reader.pos == old(reader.pos) + filled && filled <= buf.Length
    ensures ok ==> buf[..filled] == reader.data[old(reader.pos)..reader.pos]
    ensures ok && filled < buf.Length ==> reader.pos == |reader.data|
  {
    ok, filled := true, 0;
    while filled < buf.Length
      invariant 0 <= filled <= buf.Length && reader.Valid() && !reader.failed
      invariant reader.pos == old(reader.pos) + filled
      invariant buf[..filled] == reader.data[old(reader.pos)..reader.pos]
    {
      var read, n := reader.Read(buf, filled);
      if !read {
        return false, filled;
      }
      if n == 0 {
        break;
      }
      ghost var start := old(reader.pos);
      assert reader.data[start..start + filled + n]
          == reader.data[start..start + filled] + reader.data[start + filled..start + filled + n];
      assert buf[..filled + n] == buf[..filled] + buf[filled..filled + n];
      filled := filled + n;
    }
  }

  lemma SumsOfNext(strong: StrongHash, data: seq<byte>, blockLen: nat, start: nat)
    requires 0 < blockLen && start + blockLen <= |data|
    ensures SumsOf(strong, data[start..], blockLen)
         == [SumOf(strong, data[start..start + blockLen])] + SumsOf(strong, data[start + blockLen..], blockLen)
  {
    hide SumOf;
    assert data[start..][..blockLen] == data[start..start + blockLen];
    assert data[start..][blockLen..] == data[start + blockLen..];
  }

  // The streaming form: whatever the fragments, it is the slice form.
  method ComputeBlockSumsFromReader(strong: StrongHash, reader: Reader, blockLen: nat)
    returns (ok: bool, blocks: seq<BlockSum>)
    requires reader.Valid() && reader.pos == 0 && !reader.failed && blockLen < U32
    modifies reader`pos, reader`failed
    ensures ok <==> !reader.failed
    ensures ok ==> blocks == SumsOf(strong, reader.data, blockLen)
  {
    hide SumOf;
    ok, blocks := true, [];
    if blockLen == 0 {
      return;
    }
    var data := reader.data;
    assert data[0..] == data;
    var buf := new byte[blockLen];
    while true
      invariant reader.Valid() && !reader.failed && fresh(buf) && buf.Length == blockLen
      invariant blocks + SumsOf(strong, data[reader.pos..], blockLen) == SumsOf(strong, data, blockLen)
      decreases |data| - reader.pos
    {
      ghost var start := reader.pos;
      var read, filled := FillBlock(reader, buf);
      if !read {
        return false, blocks;
      }
      if filled < blockLen {
        break;
      }
      assert buf[..] == data[start..start + blockLen];
      SumsOfNext(strong, data, blockLen, start);
      var sum := ComputeSum(strong, buf[..]);
      blocks := blocks + [sum];
    }
  }

  // ---------------------------------------------------------------- the scan

  // The least block agreeing with the window in both sums.
  function FindBlock(blocks: seq<BlockSum>, sum: BlockSum, from: nat): (r: Option<nat>)
    requires from <= |blocks|
    ensures r.Some? ==> from <= r.value < |blocks| && blocks[r.value] == sum
    ensures r.Some? ==> forall j :: from <= j < r.value ==> blocks[j] != sum
    ensures r.None? ==> forall j :: from <= j < |blocks| ==> blocks[j] != sum
    decreases |blocks| - from
  {
    if from == |blocks| then None
    else if blocks[from] == sum then Some(from)
    else FindBlock(blocks, sum, from + 1)
  }

  function LiteralRun(data: seq<byte>): seq<Op> {
    if data == [] then [] else [Literal(data)]
  }

  // The greedy scan, with the checksum of each window recomputed from scratch and the
  // blocks searched in order: no rolling state and no lookup table.
  function Scan(strong: StrongHash, new_: seq<byte>, sums: BlockSums, lit: nat, i: nat): seq<Op>
    requires sums.blockLen > 0 && lit <= i && i + sums.blockLen <= |new_|
    decreases |new_| - i, 0
  {
    match Hit(strong, new_, sums, i)
    case Some(k) =>
      LiteralRun(new_[lit..i]) + ([Copy(k * sums.blockLen, sums.blockLen)] + ScanFrom(strong, new_, sums,
        i + sums.blockLen))
    case None =>
      if i + sums.blockLen >= |new_| then LiteralRun(new_[lit..]) else Scan(strong, new_, sums, lit, i + 1)
  }

  // The scan resumed behind a copy.
  function ScanFrom(strong: StrongHash, new_: seq<byte>, sums: BlockSums, next: nat): seq<Op>
    requires 0 < sums.blockLen && next <= |new_|
    decreases |new_| - next, 1
  {
    if next + sums.blockLen > |new_| then LiteralRun(new_[next..]) else Scan(strong, new_, sums, next, next)
  }

  // The block found for the window at `i`.
  function Hit(strong: StrongHash, new_: seq<byte>, sums: BlockSums, i: nat): Option<nat>
    requires i + sums.blockLen <= |new_|
  {
    FindBlock(sums.blocks, SumOf(strong, new_[i..i + sums.blockLen]), 0)
  }

  function DeltaOps(strong: StrongHash, new_: seq<byte>, sums: BlockSums): seq<Op> {
    if sums.blockLen == 0 || sums.blocks == [] || |new_| < sums.blockLen then LiteralRun(new_)
    else Scan(strong, new_, sums, 0, 0)
  }

  // ---------------------------------------------------------------- the encoding

  // Both lengths and the offset are cast to their field's width.
  function EncodeOp(op: Op): seq<byte> {
    match op
    case Literal(data) => [OP_LITERAL] + LittleEndian(|data| % U32, 4) + data
    case Copy(offset, len) => [OP_COPY] + LittleEndian(offset % U64, 8) + LittleEndian(len % U32, 4)
  }

  function EncodeOps(ops: seq<Op>): seq<byte> {
    if ops == [] then [] else EncodeOp(ops[0]) + EncodeOps(ops[1..])
  }

  function EncodeDelta(ops: seq<Op>): seq<byte> {
    EncodeOps(ops) + [OP_END]
  }

  lemma {:induction false} EncodeOpsConcat(xs: seq<Op>, ys: seq<Op>)
    ensures EncodeOps(xs + ys) == EncodeOps(xs) + EncodeOps(ys)
  {
    if xs == [] {
      assert xs + ys == ys;
    } else {
      assert (xs + ys)[1..] == xs[1..] + ys;
      EncodeOpsConcat(xs[1..], ys);
    }
  }

  lemma EncodeOne(op: Op)
    ensures EncodeOps([op]) == EncodeOp(op)
  {
    assert EncodeOps([op]) == EncodeOp(op) + EncodeOps([]);
  }

  method EmitLiteral(out: seq<byte>, data: seq<byte>) returns (out': seq<byte>)
    ensures out' == out + EncodeOps(LiteralRun(data))
  {
    if data == [] {
      return out;
    }
    EncodeOne(Literal(data));
    out' := out + [OP_LITERAL];
    out' := out' + LittleEndian(|data| % U32, 4);
    out' := out' + data;
  }

  method EmitCopy(out: seq<byte>, offset: nat, len: nat) returns (out': seq<byte>)
    ensures out' == out + EncodeOps([Copy(offset, len)])
  {
    EncodeOne(Copy(offset, len));
    out' := out + [OP_COPY];
    out' := out' + LittleEndian(offset % U64, 8);
    out' := out' + LittleEndian(len % U32, 4);
  }

  // The lookup table of the scan: the blocks below `n` with a given weak sum, in order.
  function Bucket(blocks: seq<BlockSum>, n: nat, weak: nat): (r: seq<nat>)
    requires n <= |blocks|
    ensures forall x :: 0 <= x < |r| ==> r[x] < n && blocks[r[x]].weak == weak
    ensures forall x, y :: 0 <= x < y < |r| ==> r[x] < r[y]
    ensures forall k: nat :: k < n && blocks[k].weak == weak ==> k in r
  {
    if n == 0 then []
    else if blocks[n - 1].weak == weak then Bucket(blocks, n - 1, weak) + [n - 1]
    else Bucket(blocks, n - 1, weak)
  }

  function Candidates(table: map<nat, seq<nat>>, weak: nat): seq<nat> {
    if weak in table then table[weak] else []
  }

  ghost predicate IsWeakMap(table: map<nat, seq<nat>>, blocks: seq<BlockSum>, n: nat)
    requires n <= |blocks|
  {
    forall weak: nat :: Candidates(table, weak) == Bucket(blocks, n, weak)
  }

  lemma WeakMapExtends(table: map<nat, seq<nat>>, blocks: seq<BlockSum>, n: nat)
    requires n < |blocks| && IsWeakMap(table, blocks, n)
    ensures var weak := blocks[n].weak;
      IsWeakMap(table[weak := Candidates(table, weak) + [n]], blocks, n + 1)
  {
    var weak := blocks[n].weak;
    var after := table[weak := Candidates(table, weak) + [n]];
    forall w: nat ensures Candidates(after, w) == Bucket(blocks, n + 1, w) {
      assert Candidates(table, w) == Bucket(blocks, n, w);
    }
  }

  method BuildWeakMap(blocks: seq<BlockSum>) returns (table: map<nat, seq<nat>>)
    ensures IsWeakMap(table, blocks, |blocks|)
  {
    hide Bucket, IsWeakMap;
    table := map[];
    var idx := 0;
    NoBlocks(blocks);
    while idx < |blocks|
      invariant 0 <= idx <= |blocks| && IsWeakMap(table, blocks, idx)
    {
      var weak := blocks[idx].weak;
      WeakMapExtends(table, blocks, idx);
      table := table[weak := Candidates(table, weak) + [idx]];
      idx := idx + 1;
    }
  }

  lemma NoBlocks(blocks: seq<BlockSum>)
    ensures IsWeakMap(map[], blocks, 0)
  {}

  // Two-stage lookup: candidates by the rolled weak sum, then the strong hash.
  method Lookup(strong: StrongHash, blocks: seq<BlockSum>, table: map<nat, seq<nat>>, weak: nat, window: seq<byte>)
    returns (matched: Option<nat>)
    requires IsWeakMap(table, blocks, |blocks|) && weak == Digest(window)
    ensures matched == FindBlock(blocks, SumOf(strong, window), 0)
  {
    matched := None;
    ghost var sum := SumOf(strong, window);
    ghost var bucket := Bucket(blocks, |blocks|, weak);
    assert Candidates(table, weak) == bucket;
    if weak in table {
      var candidates, hash := table[weak], strong(window);
      var c := 0;
      while c < |candidates|
        invariant 0 <= c <= |candidates| && matched == None
        invariant forall d :: 0 <= d < c ==> blocks[candidates[d]] != sum
      {
        assert candidates[c] in bucket;
        if blocks[candidates[c]].strong == hash {
          matched := Some(candidates[c]);
          forall j | 0 <= j < candidates[c] && blocks[j].weak == weak
            ensures blocks[j] != sum
          {
            assert j in bucket;
          }
          return;
        }
        c := c + 1;
      }
    }
    forall j | 0 <= j < |blocks| && blocks[j].weak == weak
      ensures blocks[j] != sum
    {
      assert j in bucket;
    }
  }

  // The bytes still to be emitted when the window stands at `i` and `lit` is the first byte
  // not yet covered by an op.
  ghost function Pending(strong: StrongHash, new_: seq<byte>, sums: BlockSums, lit: nat, i: nat): seq<byte>
    requires sums.blockLen > 0 && lit <= i <= |new_|
  {
    EncodeOps(if i + sums.blockLen <= |new_| then Scan(strong, new_, sums, lit, i) else LiteralRun(new_[lit..]))
  }

  lemma PendingAfterHit(strong: StrongHash, new_: seq<byte>, sums: BlockSums, lit: nat, i: nat, k: nat)
    requires sums.blockLen > 0 && lit <= i && i + sums.blockLen <= |new_|
    requires Hit(strong, new_, sums, i) == Some(k)
    ensures Pending(strong, new_, sums, lit, i)
         == EncodeOps(LiteralRun(new_[lit..i])) + EncodeOps([Copy(k * sums.blockLen, sums.blockLen)])
            + Pending(strong, new_, sums, i + sums.blockLen, i + sums.blockLen)
  {
    hide Hit, EncodeOps, LiteralRun;
    var run, copy, tail :=
      LiteralRun(new_[lit..i]), [Copy(k * sums.blockLen, sums.blockLen)], ScanFrom(strong, new_, sums,
        i + sums.blockLen);
    EncodeOpsConcat(run, copy + tail);
    EncodeOpsConcat(copy, tail);
  }

  lemma PendingAfterMiss(strong: StrongHash, new_: seq<byte>, sums: BlockSums, lit: nat, i: nat)
    requires sums.blockLen > 0 && lit <= i && i + sums.blockLen <= |new_|
    requires Hit(strong, new_, sums, i).None?
    ensures Pending(strong, new_, sums, lit, i)
         == if i + sums.blockLen >= |new_| then EncodeOps(LiteralRun(new_[lit..]))
            else Pending(strong, new_, sums, lit, i + 1)
  {
    hide Hit, EncodeOps, LiteralRun;
  }

  lemma HitIsFound(strong: StrongHash, new_: seq<byte>, sums: BlockSums, i: nat)
    requires i + sums.blockLen <= |new_|
    ensures Hit(strong, new_, sums, i) == FindBlock(sums.blocks, SumOf(strong, new_[i..i + sums.blockLen]), 0)
  {}

  lemma PendingAtEnd(strong: StrongHash, new_: seq<byte>, sums: BlockSums, lit: nat, i: nat)
    requires sums.blockLen > 0 && lit <= i <= |new_| < i + sums.blockLen
    ensures Pending(strong, new_, sums, lit, i) == EncodeOps(LiteralRun(new_[lit..]))
  {}

  // The fast form (rolled checksum, lookup table, bytes appended as it goes) is the simple one.
  method BuildDelta(strong: StrongHash, new_: seq<byte>, sums: BlockSums) returns (out: seq<byte>)
    requires sums.blockLen < U32
    ensures out == EncodeDelta(DeltaOps(strong, new_, sums))
  {
    var blockLen := sums.blockLen;
    out := [];
    if blockLen == 0 || |sums.blocks| == 0 || |new_| < blockLen {
      out := EmitLiteral(out, new_);
    } else {
      out := EncodeScan(strong, new_, sums);
    }
    out := out + [OP_END];
  }

  method EncodeScan(strong: StrongHash, new_: seq<byte>, sums: BlockSums) returns (out: seq<byte>)
    requires 0 < sums.blockLen < U32 && sums.blockLen <= |new_|
    ensures out == Pending(strong, new_, sums, 0, 0)
  {
    hide *;
    var blockLen := sums.blockLen;
    var table := BuildWeakMap(sums.blocks);
    out := [];
    var i, lit := 0, 0;
    var roll := NewRolling(new_[0..blockLen]);
    while true
      invariant 0 <= lit <= i && i + blockLen <= |new_| && fresh(roll)
      invariant roll.Represents(new_[i..i + blockLen])
      invariant out + Pending(strong, new_, sums, lit, i) == Pending(strong, new_, sums, 0, 0)
      decreases |new_| - i
    {
      var weak := roll.DigestOf(new_[i..i + blockLen]);
      var matched := Lookup(strong, sums.blocks, table, weak, new_[i..i + blockLen]);
      assert matched == Hit(strong, new_, sums, i) by {
        HitIsFound(strong, new_, sums, i);
      }
      if matched.Some? {
        PendingAfterHit(strong, new_, sums, lit, i, matched.value);
        out := EmitLiteral(out, new_[lit..i]);
        out := EmitCopy(out, matched.value * blockLen, blockLen);
        i := i + blockLen;
        lit := i;
        if i + blockLen > |new_| {
          PendingAtEnd(strong, new_, sums, lit, i);
          break;
        }
        roll := NewRolling(new_[i..i + blockLen]);
      } else {
        PendingAfterMiss(strong, new_, sums, lit, i);
        if i + blockLen >= |new_| {
          break;
        }
        roll.Roll(new_[i], new_[i + blockLen], new_[i..i + blockLen]);
        assert new_[i..i + blockLen][1..] + [new_[i + blockLen]] == new_[i + 1..i + 1 + blockLen];
        i := i + 1;
      }
    }
    out := EmitLiteral(out, new_[lit..]);
  }

  // ---------------------------------------------------------------- the decoder

  function Prepend(data: seq<byte>, r: Result<seq<byte>, DeltaError>): Result<seq<byte>, DeltaError> {
    match r
    case Ok(rest) => Ok(data + rest)
    case Err(e) => Err(e)
  }

  lemma PrependConcat(xs: seq<byte>, ys: seq<byte>, r: Result<seq<byte>, DeltaError>)
    ensures Prepend([], r) == r
    ensures Prepend(xs, Prepend(ys, r)) == Prepend(xs + ys, r)
  {
    if r.Ok? {
      assert [] + r.value == r.value;
      assert xs + (ys + r.value) == xs + ys + r.value;
    }
  }

  lemma SliceOfSuffix(s: seq<byte>, from: nat, lo: nat, hi: nat)
    requires lo <= hi && from + hi <= |s|
    ensures s[from..][lo..hi] == s[from + lo..from + hi]
    ensures s[from..][hi..] == s[from + hi..]
  {}

  // The file an encoded delta stands for, given the old file.
  function Apply(old_: seq<byte>, delta: seq<byte>): Result<seq<byte>, DeltaError>
    decreases |delta|
  {
    if delta == [] then Err(Truncated)
    else if delta[0] == OP_LITERAL then
      if |delta| < 5 then Err(Truncated)
      else
        var end := 5 + FromLittleEndian(delta[1..5]);
        if end > |delta| then Err(LiteralOverrun) else Prepend(delta[5..end], Apply(old_, delta[end..]))
    else if delta[0] == OP_COPY then
      if |delta| < 13 then Err(Truncated)
      else
        var offset, len := FromLittleEndian(delta[1..9]), FromLittleEndian(delta[9..13]);
        if len > 0 && offset + len > |old_| then Err(ShortRead)
        else Prepend(if len == 0 then [] else old_[offset..offset + len], Apply(old_, delta[13..]))
    else if delta[0] == OP_END then Ok([])
    else Err(UnknownOp(delta[0]))
  }

  // The basis file: a position that may be set anywhere, and reads that must be filled.
  class BasisFile {
    const data: seq<byte>
    var pos: nat
    var failed: bool

    constructor (data: seq<byte>)
      ensures this.data == data && !failed
    {
      this.data, pos, failed := data, 0, false;
    }

    method Seek(to: nat) returns (ok: bool)
      requires !failed
      modifies this`pos, this`failed
      ensures (ok <==> !failed) && (ok ==> pos == to)
    {
      failed := *;
      ok, pos := !failed, to;
    }

    method ReadExact(n: nat) returns (ok: bool, bytes: seq<byte>)
      requires n > 0 && !failed
      modifies this`pos, this`failed
      ensures ok <==> !failed && old(pos) + n <= |data|
      ensures ok ==> pos == old(pos) + n && bytes == data[old(pos)..pos]
    {
      failed := *;
      ok, bytes := !failed && pos + n <= |data|, [];
      if ok {
        bytes := data[pos..pos + n];
        pos := pos + n;
      }
    }
  }

  const COPY_BUFFER := 65536

  method CopyRange(old_: BasisFile, offset: nat, len: nat) returns (ok: bool, copied: seq<byte>)
    requires !old_.failed
    modifies old_`pos, old_`failed
    ensures ok <==> !old_.failed && (len == 0 || offset + len <= |old_.data|)
    ensures ok ==> copied == if len == 0 then [] else old_.data[offset..offset + len]
  {
    copied := [];
    ok := old_.Seek(offset);
    if !ok {
      return;
    }
    var remaining := len;
    while remaining > 0
      invariant 0 <= remaining <= len && old_.pos == offset + (len - remaining) && !old_.failed
      invariant remaining < len ==> old_.pos <= |old_.data|
      invariant copied == if remaining == len then [] else old_.data[offset..old_.pos]
    {
      var take := if remaining < COPY_BUFFER then remaining else COPY_BUFFER;
      var filled, bytes := old_.ReadExact(take);
      if !filled {
        return false, copied;
      }
      copied := copied + bytes;
      remaining := remaining - take;
    }
  }

  method ApplyDelta(old_: BasisFile, delta: seq<byte>) returns (r: Result<seq<byte>, DeltaError>)
    requires !old_.failed
    modifies old_`pos, old_`failed
    ensures r == if old_.failed then Err(Unreadable) else Apply(old_.data, delta)
  {
    hide FromLittleEndian;
    var out, pos := [], 0;
    assert delta[0..] == delta;
    PrependConcat([], [], Apply(old_.data, delta));
    while true
      invariant 0 <= pos <= |delta| && !old_.failed
      invariant Apply(old_.data, delta) == Prepend(out, Apply(old_.data, delta[pos..]))
      decreases |delta| - pos
    {
      if pos == |delta| {
        return Err(Truncated);
      }
      var tag := delta[pos];
      if tag == OP_LITERAL {
        if pos + 5 > |delta| {
          return Err(Truncated);
        }
        SliceOfSuffix(delta, pos, 1, 5);
        var len := FromLittleEndian(delta[pos + 1..pos + 5]);
        var end := pos + 5 + len;
        if end > |delta| {
          return Err(LiteralOverrun);
        }
        SliceOfSuffix(delta, pos, 5, 5 + len);
        PrependConcat(out, delta[pos + 5..end], Apply(old_.data, delta[end..]));
        out := out + delta[pos + 5..end];
        pos := end;
      } else if tag == OP_COPY {
        if pos + 13 > |delta| {
          return Err(Truncated);
        }
        SliceOfSuffix(delta, pos, 1, 9);
        SliceOfSuffix(delta, pos, 9, 13);
        var offset := FromLittleEndian(delta[pos + 1..pos + 9]);
        var len := FromLittleEndian(delta[pos + 9..pos + 13]);
        var ok, copied := CopyRange(old_, offset, len);
        if !ok {
          return Err(if old_.failed then Unreadable else ShortRead);
        }
        PrependConcat(out, copied, Apply(old_.data, delta[pos + 13..]));
        out := out + copied;
        pos := pos + 13;
      } else if tag == OP_END {
        assert out + [] == out;
        return Ok(out);
      } else {
        return Err(UnknownOp(tag));
      }
    }
  }
}
