/**
 * Block delta. The server hashes the fixed-size blocks of its old copy, the client answers one
 * frame per block of the new file (keep, or the literal bytes), and the server replays the
 * answer over the old copy. The hash is a parameter: nothing is assumed of it except where said.
 */
module Delta {
  import opened Basics
  import opened Frames

  /** Number of blocks of a file of n bytes; the last one may be short. */
  function BlockCount(n: nat, bs: nat): nat
    requires bs > 0
  {
    (n + bs - 1) / bs
  }

  /** Length of block i of a file of n bytes. */
  function BlockLen(n: nat, bs: nat, i: nat): int {
    if n - i * bs < bs then n - i * bs else bs
  }

  /** Bytes covered by the first i blocks of a file of n bytes. */
  function UpTo(n: nat, bs: nat, i: nat): nat {
    Min(i * bs, n)
  }

  lemma TimesMonotone(a: nat, b: nat, bs: nat)
    requires a <= b
    ensures a * bs <= b * bs
  {
  }

  lemma Divide(x: nat, bs: nat)
    requires bs > 0
    ensures x / bs * bs <= x < x / bs * bs + bs
  {
  }

  lemma BlockStep(n: nat, bs: nat, i: nat)
    requires bs > 0 && i < BlockCount(n, bs)
    ensures 0 <= i * bs < n && 0 < BlockLen(n, bs, i) <= bs
    ensures UpTo(n, bs, i) == i * bs
    ensures UpTo(n, bs, i + 1) == i * bs + BlockLen(n, bs, i) <= n
  {
    Divide(n + bs - 1, bs);
    TimesMonotone(i + 1, BlockCount(n, bs), bs);
    assert (i + 1) * bs == i * bs + bs;
  }

  lemma BlockEnd(n: nat, bs: nat)
    requires bs > 0
    ensures UpTo(n, bs, 0) == 0 && UpTo(n, bs, BlockCount(n, bs)) == n
  {
  }

  lemma BlockInside(n: nat, bs: nat, i: nat)
    requires bs > 0
    ensures i < BlockCount(n, bs) <==> i * bs < n
  {
    Divide(n + bs - 1, bs);
    if i < BlockCount(n, bs) {
      BlockStep(n, bs, i);
    } else {
      TimesMonotone(BlockCount(n, bs), i, bs);
    }
  }

  function Block(c: Bytes, bs: nat, i: nat): (b: Bytes)
    requires bs > 0 && i < BlockCount(|c|, bs)
  {
    BlockStep(|c|, bs, i);
    c[i * bs..i * bs + BlockLen(|c|, bs, i)]
  }

  /** The hashes the server sends: one per block of the old copy. */
  function BlockHashes<H>(prev: Bytes, bs: nat, hash: Bytes -> H): (hs: seq<H>)
    requires bs > 0
  {
    seq(BlockCount(|prev|, bs), i requires 0 <= i < BlockCount(|prev|, bs) => hash(Block(prev, bs, i)))
  }

  /** The client's answer for block i. */
  function BlockFrame<H(==)>(c: Bytes, bs: nat, hashes: seq<H>, hash: Bytes -> H, i: nat): Frame
    requires bs > 0 && i < BlockCount(|c|, bs)
  {
    if i < |hashes| && hash(Block(c, bs, i)) == hashes[i] then BlockKeep else FileData(Block(c, bs, i))
  }

  /** The client's answers for the first k blocks. */
  function BlockFrames<H(==)>(c: Bytes, bs: nat, hashes: seq<H>, hash: Bytes -> H, k: nat): (fs: seq<Frame>)
    requires bs > 0 && k <= BlockCount(|c|, bs)
    ensures |fs| == k
  {
    if k == 0 then [] else BlockFrames(c, bs, hashes, hash, k - 1) + [BlockFrame(c, bs, hashes, hash, k - 1)]
  }

  lemma BlockFramesAt<H>(c: Bytes, bs: nat, hashes: seq<H>, hash: Bytes -> H, k: nat, i: nat)
    requires bs > 0 && i < k <= BlockCount(|c|, bs)
    ensures BlockFrames(c, bs, hashes, hash, k)[i] == BlockFrame(c, bs, hashes, hash, i)
  {
  }

  /** What one frame appends to the rebuilt file, or None when the server refuses it. */
  function Piece(prev: Bytes, bs: nat, total: nat, i: nat, f: Frame): (p: Option<Bytes>)
    requires bs > 0 && i < BlockCount(total, bs)
    ensures p.Some? ==> |p.value| == BlockLen(total, bs, i)
  {
    BlockStep(total, bs, i);
    match f
    case BlockKeep =>
      if i * bs + BlockLen(total, bs, i) <= |prev| then Some(prev[i * bs..i * bs + BlockLen(total, bs, i)]) else None
    case FileData(d) => if |d| == BlockLen(total, bs, i) then Some(d) else None
    case _ => None
  }

  /** The file the server has rebuilt after the first k frames. */
  function Replay(prev: Bytes, bs: nat, total: nat, frames: seq<Frame>, k: nat): (r: Option<Bytes>)
    requires bs > 0 && k <= BlockCount(total, bs) && k <= |frames|
    ensures r.Some? ==> |r.value| == UpTo(total, bs, k)
  {
    if k == 0 then Some([])
    else
      var r := Replay(prev, bs, total, frames, k - 1);
      var p := Piece(prev, bs, total, k - 1, frames[k - 1]);
      BlockStep(total, bs, k - 1);
      if r.None? || p.None? then None else Some(r.value + p.value)
  }

  /**
   * No harmful collision: wherever a new block and the old block at the same place have the same
   * hash, the old block starts with the new one.
   */
  ghost predicate NoCollision<H(!new)>(prev: Bytes, next: Bytes, bs: nat, hash: Bytes -> H)
    requires bs > 0
  {
    forall i: nat | i < BlockCount(|prev|, bs) && i < BlockCount(|next|, bs) ::
      hash(Block(next, bs, i)) == hash(Block(prev, bs, i)) ==> Block(next, bs, i) <= Block(prev, bs, i)
  }

  ghost predicate Injective<H(!new)>(hash: Bytes -> H) {
    forall a, b :: hash(a) == hash(b) ==> a == b
  }

  /** Piece i of the client's answer is block i of the new file exactly when block i does not collide. */
  lemma PieceIsBlock<H(!new)>(prev: Bytes, next: Bytes, bs: nat, hash: Bytes -> H, i: nat)
    requires bs > 0 && i < BlockCount(|next|, bs)
    ensures
      Piece(prev, bs, |next|, i, BlockFrame(next, bs, BlockHashes(prev, bs, hash), hash, i)) == Some(Block(next, bs, i))
      <==> (i < BlockCount(|prev|, bs) && hash(Block(next, bs, i)) == hash(Block(prev, bs, i))
            ==> Block(next, bs, i) <= Block(prev, bs, i))
  {
    BlockStep(|next|, bs, i);
    BlockInside(|prev|, bs, i);
    if i < BlockCount(|prev|, bs) {
      BlockStep(|prev|, bs, i);
      var n, o := Block(next, bs, i), Block(prev, bs, i);
      if i * bs + |n| <= |prev| {
        assert |n| <= |o|;
        assert prev[i * bs..i * bs + |n|] == o[..|n|];
        assert n <= o <==> n == o[..|n|];
      }
    }
  }

  /** The delta answer replayed over the old copy: the server's reconstruction. */
  function Rebuilt<H(==)>(prev: Bytes, next: Bytes, bs: nat, hash: Bytes -> H): Option<Bytes>
    requires bs > 0
  {
    var n := BlockCount(|next|, bs);
    Replay(prev, bs, |next|, BlockFrames(next, bs, BlockHashes(prev, bs, hash), hash, n), n)
  }

  /** Frame k stands for block k of the new file. */
  predicate IsPiece(prev: Bytes, next: Bytes, bs: nat, frames: seq<Frame>, k: nat)
    requires bs > 0 && k < BlockCount(|next|, bs) && k < |frames|
  {
    Piece(prev, bs, |next|, k, frames[k]) == Some(Block(next, bs, k))
  }

  /** Replay yields one block more exactly when it has those before and the piece is its block. */
  lemma ReplayStep(prev: Bytes, next: Bytes, bs: nat, frames: seq<Frame>, k: nat)
    requires bs > 0 && k < BlockCount(|next|, bs) && k < |frames|
    ensures Replay(prev, bs, |next|, frames, k + 1) == Some(next[..UpTo(|next|, bs, k + 1)])
      <==> Replay(prev, bs, |next|, frames, k) == Some(next[..UpTo(|next|, bs, k)])
           && IsPiece(prev, next, bs, frames, k)
  {
    BlockStep(|next|, bs, k);
    JoinIsPrefix(next, UpTo(|next|, bs, k), UpTo(|next|, bs, k + 1),
      Replay(prev, bs, |next|, frames, k), Piece(prev, bs, |next|, k, frames[k]));
  }

  /** Replay of k frames yields the first k blocks exactly when every piece is its block. */
  lemma {:induction false} ReplayPrefix(prev: Bytes, next: Bytes, bs: nat, frames: seq<Frame>, k: nat)
    requires bs > 0 && k <= BlockCount(|next|, bs) && k <= |frames|
    ensures Replay(prev, bs, |next|, frames, k) == Some(next[..UpTo(|next|, bs, k)])
      <==> forall i: nat | i < k :: IsPiece(prev, next, bs, frames, i)
  {
    if k == 0 {
      assert next[..0] == [];
    } else {
      ReplayPrefix(prev, next, bs, frames, k - 1);
      ReplayStep(prev, next, bs, frames, k - 1);
    }
  }

  lemma JoinIsPrefix(c: Bytes, u: nat, v: nat, r: Option<Bytes>, p: Option<Bytes>)
    requires u <= v <= |c|
    requires r.Some? ==> |r.value| == u
    requires p.Some? ==> |p.value| == v - u
    ensures r.Some? && p.Some? && r.value + p.value == c[..v] <==> r == Some(c[..u]) && p == Some(c[u..v])
  {
    assert c[..v] == c[..u] + c[u..v];
    if r.Some? && p.Some? && r.value + p.value == c[..v] {
      assert (r.value + p.value)[..u] == r.value && (r.value + p.value)[u..] == p.value;
    }
  }

  /**
   * Meaning preservation, for every old and new content (grow, shrink, empty, short last block on
   * either side), every block size and every hash: the server rebuilds the new content exactly
   * when no block collides harmfully.
   */
  lemma DeltaRebuildsNew<H(!new)>(prev: Bytes, next: Bytes, bs: nat, hash: Bytes -> H)
    requires bs > 0
    ensures Rebuilt(prev, next, bs, hash) == Some(next) <==> NoCollision(prev, next, bs, hash)
  {
    var n := BlockCount(|next|, bs);
    var hs := BlockHashes(prev, bs, hash);
    var frames := BlockFrames(next, bs, hs, hash, n);
    BlockEnd(|next|, bs);
    assert next[..|next|] == next;
    ReplayPrefix(prev, next, bs, frames, n);
    forall i: nat | i < n
      ensures IsPiece(prev, next, bs, frames, i)
        <==> (i < BlockCount(|prev|, bs) && hash(Block(next, bs, i)) == hash(Block(prev, bs, i))
              ==> Block(next, bs, i) <= Block(prev, bs, i))
    {
      BlockFramesAt(next, bs, hs, hash, n, i);
      PieceIsBlock(prev, next, bs, hash, i);
    }
  }

  /** With a collision-free hash the delta never changes the meaning of the file. */
  lemma DeltaIsExact<H(!new)>(prev: Bytes, next: Bytes, bs: nat, hash: Bytes -> H)
    requires bs > 0 && Injective(hash)
    ensures Rebuilt(prev, next, bs, hash) == Some(next)
  {
    DeltaRebuildsNew(prev, next, bs, hash);
  }

  // ---- Cost ----

  /** Bytes sent literally. */
  function Literal(frames: seq<Frame>): nat {
    if frames == [] then 0
    else
      Literal(frames[..|frames| - 1]) +
      match frames[|frames| - 1]
      case FileData(d) => |d|
      case _ => 0
  }

  /** Bytes copied from the old file. */
  function Kept(total: nat, bs: nat, frames: seq<Frame>): int
    requires bs > 0
  {
    if frames == [] then 0
    else
      Kept(total, bs, frames[..|frames| - 1]) +
      if frames[|frames| - 1].BlockKeep? then BlockLen(total, bs, |frames| - 1) else 0
  }

  lemma ReplayOfPrefix(prev: Bytes, bs: nat, total: nat, frames: seq<Frame>, k: nat, m: nat)
    requires bs > 0 && k <= m <= |frames| && k <= BlockCount(total, bs)
    ensures Replay(prev, bs, total, frames, k) == Replay(prev, bs, total, frames[..m], k)
  {
  }

  /**
   * Whatever frames a peer sends, if the server accepts them then literal plus kept bytes are
   * exactly the new size, so the amount saved is never negative.
   */
  lemma {:induction false} CostSplit(prev: Bytes, bs: nat, total: nat, frames: seq<Frame>)
    requires bs > 0 && |frames| <= BlockCount(total, bs)
    requires Replay(prev, bs, total, frames, |frames|).Some?
    ensures Literal(frames) + Kept(total, bs, frames) == UpTo(total, bs, |frames|)
    ensures Kept(total, bs, frames) >= 0
  {
    if frames != [] {
      var k := |frames| - 1;
      ReplayOfPrefix(prev, bs, total, frames, k, k);
      CostSplit(prev, bs, total, frames[..k]);
      BlockStep(total, bs, k);
    }
  }

  lemma SavedIsNotNegative(prev: Bytes, bs: nat, total: nat, frames: seq<Frame>)
    requires bs > 0 && |frames| == BlockCount(total, bs)
    requires Replay(prev, bs, total, frames, |frames|).Some?
    ensures Literal(frames) + Kept(total, bs, frames) == total && total - Literal(frames) >= 0
  {
    CostSplit(prev, bs, total, frames);
    BlockEnd(total, bs);
  }

  lemma UpToMonotone(n: nat, bs: nat, i: nat, j: nat)
    requires i <= j
    ensures UpTo(n, bs, i) <= UpTo(n, bs, j)
  {
  }

  lemma SharedBlockIsKept<H>(prev: Bytes, next: Bytes, bs: nat, hash: Bytes -> H, i: nat)
    requires bs > 0 && i < BlockCount(|next|, bs) && i < BlockCount(|prev|, bs)
    requires Block(prev, bs, i) == Block(next, bs, i)
    ensures BlockFrame(next, bs, BlockHashes(prev, bs, hash), hash, i) == BlockKeep
  {
  }

  lemma LiteralAppend(frames: seq<Frame>, f: Frame)
    ensures Literal(frames + [f]) == Literal(frames) + if f.FileData? then |f.data| else 0
  {
  }

  /** If the first m blocks are shared, nothing of them is sent literally. */
  lemma {:induction false} SharedBlocksCost<H>(prev: Bytes, next: Bytes, bs: nat, hash: Bytes -> H, m: nat, k: nat)
    requires bs > 0 && k <= BlockCount(|next|, bs) && m <= BlockCount(|next|, bs) && m <= BlockCount(|prev|, bs)
    requires forall i: nat | i < m :: Block(prev, bs, i) == Block(next, bs, i)
    ensures Literal(BlockFrames(next, bs, BlockHashes(prev, bs, hash), hash, k))
      <= Max(0, UpTo(|next|, bs, k) - UpTo(|next|, bs, m))
  {
    if k > 0 {
      var hs := BlockHashes(prev, bs, hash);
      var f := BlockFrame(next, bs, hs, hash, k - 1);
      SharedBlocksCost(prev, next, bs, hash, m, k - 1);
      LiteralAppend(BlockFrames(next, bs, hs, hash, k - 1), f);
      BlockStep(|next|, bs, k - 1);
      if k - 1 < m {
        SharedBlockIsKept(prev, next, bs, hash, k - 1);
        UpToMonotone(|next|, bs, k, m);
      } else {
        assert f.FileData? ==> |f.data| == BlockLen(|next|, bs, k - 1);
        UpToMonotone(|next|, bs, m, k - 1);
      }
    }
  }

  /** Literal cost of a whole delta. */
  function DeltaCost<H(==)>(prev: Bytes, next: Bytes, bs: nat, hash: Bytes -> H): nat
    requires bs > 0
  {
    Literal(BlockFrames(next, bs, BlockHashes(prev, bs, hash), hash, BlockCount(|next|, bs)))
  }

  /** An unchanged file costs nothing, whatever the hash. */
  lemma IdenticalCostsNothing<H>(c: Bytes, bs: nat, hash: Bytes -> H)
    requires bs > 0
    ensures DeltaCost(c, c, bs, hash) == 0
  {
    var n := BlockCount(|c|, bs);
    SharedBlocksCost(c, c, bs, hash, n, n);
  }

  lemma AppendSharesBlock(prev: Bytes, ext: Bytes, bs: nat, i: nat)
    requires bs > 0 && i < |prev| / bs
    ensures i < BlockCount(|prev|, bs) && i < BlockCount(|prev + ext|, bs)
    ensures Block(prev, bs, i) == Block(prev + ext, bs, i)
  {
    FullBlock(|prev|, |prev + ext|, bs, i);
    assert prev[i * bs..i * bs + bs] == (prev + ext)[i * bs..i * bs + bs];
  }

  lemma FullBlock(n: nat, more: nat, bs: nat, i: nat)
    requires bs > 0 && n <= more && i < n / bs
    ensures i < BlockCount(n, bs) && i < BlockCount(more, bs) && i * bs + bs <= n
    ensures BlockLen(n, bs, i) == bs && BlockLen(more, bs, i) == bs
  {
    Divide(n, bs);
    TimesMonotone(i + 1, n / bs, bs);
    assert (i + 1) * bs == i * bs + bs;
    BlockInside(n, bs, i);
    BlockInside(more, bs, i);
  }

  lemma FullBlocks(n: nat, more: nat, bs: nat)
    requires bs > 0 && n <= more
    ensures n / bs <= BlockCount(n, bs) && n / bs <= BlockCount(more, bs)
    ensures UpTo(more, bs, n / bs) == bs * (n / bs)
  {
    Divide(n, bs);
    if n / bs > 0 {
      FullBlock(n, more, bs, n / bs - 1);
    }
  }

  /** An append costs at most the new size less the full blocks of the old file, whatever the hash. */
  lemma AppendCost<H>(prev: Bytes, ext: Bytes, bs: nat, hash: Bytes -> H)
    requires bs > 0
    ensures DeltaCost(prev, prev + ext, bs, hash) <= |prev + ext| - bs * (|prev| / bs)
  {
    var m, c := |prev| / bs, prev + ext;
    FullBlocks(|prev|, |c|, bs);
    forall i: nat | i < m
      ensures Block(prev, bs, i) == Block(c, bs, i)
    {
      AppendSharesBlock(prev, ext, bs, i);
    }
    SharedBlocksCost(prev, c, bs, hash, m, BlockCount(|c|, bs));
    BlockEnd(|c|, bs);
    UpToMonotone(|c|, bs, m, BlockCount(|c|, bs));
  }

  // ---- The loop over the old copy ----

  /** deltaDownload's first loop: hash every block of the old copy. */
  method HashBlocks<H>(prev: Bytes, bs: nat, hash: Bytes -> H) returns (hashes: seq<H>)
    requires bs > 0
    ensures hashes == BlockHashes(prev, bs, hash)
  {
    hashes := [];
    var n := (|prev| + bs - 1) / bs;
    for i := 0 to n
      invariant |hashes| == i
      invariant forall j | 0 <= j < i :: hashes[j] == hash(Block(prev, bs, j))
    {
      BlockStep(|prev|, bs, i);
      var bl := if |prev| - i * bs < bs then |prev| - i * bs else bs;
      hashes := hashes + [hash(prev[i * bs..i * bs + bl])];
    }
  }
}
