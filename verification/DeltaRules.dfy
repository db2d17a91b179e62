/**
 * The rules of one delta attempt, for every answer and every combination of failures: when it falls
 * back to the full download, when it succeeds, what it writes and what it leaves unread.
 */
module DeltaRules {
  import opened Basics
  import opened Frames
  import opened Delta
  import opened Serving
  import opened Resume

  /** Which steps of a delta attempt fail; `readOld` is the block whose old bytes cannot be read back. */
  datatype DeltaFaults =
    DeltaFaults(openOld: bool, hashRead: bool, send: bool, removeMeta: bool, tempDir: bool, open: bool,
                cancelAt: Option<nat>, writeAt: Option<nat>, wrote: nat, readOld: Option<nat>,
                sync: bool, stat: bool, removePart: bool, rename: bool, index: bool)

  const NO_DELTA_FAULTS: DeltaFaults :=
    DeltaFaults(false, false, false, false, false, false, None, None, 0, None, false, false, false, false, false)

  /** The configured size from which deltas are used, block size and frame limit, and the length of the path. */
  datatype DeltaConfig = DeltaConfig(min: nat, bs: nat, maxFrame: nat, relLen: nat)

  /** Deltas are on, and there is a stored copy of the configured size. */
  predicate TriesDelta(b: Files, c: DeltaConfig) {
    c.min > 0 && c.bs > 0 && b.target.Some? && |b.target.value| >= c.min
  }

  /** The size guard: the request with one 32-byte hash per old block must fit a frame. */
  predicate TooManyHashes(size: nat, c: DeltaConfig)
    requires c.bs > 0
  {
    BlockCount(size, c.bs) * 32 + c.relLen + 16 > c.maxFrame
  }

  /** The request can be made: the hashes fit a frame and the old copy can be read. */
  predicate Asks(size: nat, c: DeltaConfig, f: DeltaFaults)
    requires c.bs > 0
  {
    !TooManyHashes(size, c) && !f.openOld && !f.hashRead
  }

  /** The delta attempt leaves the file to the full download. */
  predicate GoesFull(prev: Bytes, c: DeltaConfig, fs: seq<Frame>, f: DeltaFaults)
    requires c.bs > 0
  {
    !Asks(|prev|, c, f) || (!f.send && fs != [] && fs[0] == Error(Unsupported))
  }

  /** The whole download is the delta attempt. */
  predicate UsesDelta(b: Files, c: DeltaConfig, fs: seq<Frame>, f: DeltaFaults) {
    TriesDelta(b, c) && !GoesFull(b.target.value, c, fs, f)
  }

  /** What is unread when the full download begins: the refusal of a delta that was asked for has been read. */
  function AfterFallback(b: Files, c: DeltaConfig, before: seq<Frame>, answer: seq<Frame>, f: DeltaFaults): seq<Frame>
    requires !UsesDelta(b, c, before + answer, f)
  {
    if TriesDelta(b, c) && Asks(|b.target.value|, c, f) then (before + answer)[1..] else before
  }

  predicate DeltaAnnounces(fs: seq<Frame>) {
    fs != [] && fs[0].DeltaResp? && fs[0].status == 0
  }

  predicate DeltaOpens(f: DeltaFaults) {
    !f.tempDir && !f.open
  }

  // ---- The block loop ----

  /** The bytes of block i can be had: read back from the old copy, or let through by the limiter. */
  predicate Obtained(f: DeltaFaults, frame: Frame, i: nat) {
    if frame.BlockKeep? then f.readOld != Some(i) else f.cancelAt != Some(i)
  }

  predicate BlockUndisturbed(f: DeltaFaults, frame: Frame, i: nat) {
    f.writeAt != Some(i) && Obtained(f, frame, i)
  }

  predicate BlocksUndisturbed(f: DeltaFaults, fs: seq<Frame>, n: nat)
    requires n <= |fs|
  {
    forall i | 0 <= i < n :: BlockUndisturbed(f, fs[i], i)
  }

  /** The block loop runs through. */
  predicate BlocksAccepted(prev: Bytes, bs: nat, total: nat, fs: seq<Frame>, f: DeltaFaults)
    requires bs > 0
  {
    var n := BlockCount(total, bs);
    n <= |fs| && Replay(prev, bs, total, fs, n).Some? && BlocksUndisturbed(f, fs, n)
  }

  /** The block the loop that has come to block i stops at: the first one missing, refused or disturbed. */
  function StopsAt(prev: Bytes, bs: nat, total: nat, fs: seq<Frame>, f: DeltaFaults, i: nat): (k: nat)
    requires bs > 0 && i <= BlockCount(total, bs) && i <= |fs| && Replay(prev, bs, total, fs, i).Some?
    ensures i <= k <= BlockCount(total, bs) && k <= |fs| && Replay(prev, bs, total, fs, k).Some?
    decreases |fs| - i
  {
    if i == BlockCount(total, bs) || i == |fs| || Piece(prev, bs, total, i, fs[i]).None?
      || !BlockUndisturbed(f, fs[i], i)
    then i
    else StopsAt(prev, bs, total, fs, f, i + 1)
  }

  /** What is written of block i. */
  function BlockGain(prev: Bytes, bs: nat, total: nat, i: nat, frame: Frame, f: DeltaFaults): Bytes
    requires bs > 0 && i < BlockCount(total, bs)
  {
    match Piece(prev, bs, total, i, frame)
    case None => []
    case Some(p) =>
      if !Obtained(f, frame, i) then [] else if f.writeAt == Some(i) then p[..Min(f.wrote, |p|)] else p
  }

  /** The partial file when the block loop ends, stopped or not. */
  function Patched(prev: Bytes, bs: nat, total: nat, fs: seq<Frame>, f: DeltaFaults): Bytes
    requires bs > 0
  {
    var k := StopsAt(prev, bs, total, fs, f, 0);
    Replay(prev, bs, total, fs, k).value
    + if k < BlockCount(total, bs) && k < |fs| then BlockGain(prev, bs, total, k, fs[k], f) else []
  }

  /** A block that stops the loop without giving the connection up: a reported or a local error. */
  predicate KeepsConn(bs: nat, total: nat, i: nat, frame: Frame, f: DeltaFaults) {
    frame.Error? || frame.BlockKeep?
      || (frame.FileData? && |frame.data| == BlockLen(total, bs, i) && f.cancelAt != Some(i))
  }

  /** The end marker follows the frames of the blocks. */
  predicate EndsAfterBlocks(bs: nat, total: nat, rest: seq<Frame>)
    requires bs > 0
  {
    BlockCount(total, bs) < |rest| && rest[BlockCount(total, bs)].FileEnd?
  }

  /** The block loop runs through and the end marker is there. */
  predicate BlocksReceived(prev: Bytes, bs: nat, total: nat, fs: seq<Frame>, f: DeltaFaults)
    requires bs > 0
  {
    BlocksAccepted(prev, bs, total, fs, f) && EndsAfterBlocks(bs, total, fs)
  }

  /** The block loop stops at a reported or a local error, or behind the end marker, with frames unread. */
  predicate BlocksStrand(prev: Bytes, bs: nat, total: nat, fs: seq<Frame>, f: DeltaFaults)
    requires bs > 0
  {
    var k := StopsAt(prev, bs, total, fs, f, 0);
    && k < |fs| && fs[k + 1..] != []
    && if k < BlockCount(total, bs) then KeepsConn(bs, total, k, fs[k], f) else fs[k].FileEnd?
  }

  /** The block loop gives the connection up: at its loss, a cancellation or a misplaced frame. */
  predicate BlocksDrop(prev: Bytes, bs: nat, total: nat, fs: seq<Frame>, f: DeltaFaults)
    requires bs > 0
  {
    var k := StopsAt(prev, bs, total, fs, f, 0);
    k == |fs| || if k < BlockCount(total, bs) then !KeepsConn(bs, total, k, fs[k], f) else !fs[k].FileEnd?
  }

  lemma {:induction false} ReplayFails(prev: Bytes, bs: nat, total: nat, fs: seq<Frame>, i: nat, n: nat)
    requires bs > 0 && i <= n <= BlockCount(total, bs) && n <= |fs|
    ensures Replay(prev, bs, total, fs, i).None? ==> Replay(prev, bs, total, fs, n).None?
  {
    if i < n {
      ReplayFails(prev, bs, total, fs, i, n - 1);
    }
  }

  /** A block refused or disturbed stops the loop for good. */
  lemma BlockStops(prev: Bytes, bs: nat, total: nat, fs: seq<Frame>, f: DeltaFaults, i: nat)
    requires bs > 0 && i < BlockCount(total, bs) && i < |fs|
    requires Piece(prev, bs, total, i, fs[i]).None? || !BlockUndisturbed(f, fs[i], i)
    ensures !BlocksAccepted(prev, bs, total, fs, f)
  {
    if BlockCount(total, bs) <= |fs| {
      ReplayFails(prev, bs, total, fs, i + 1, BlockCount(total, bs));
    }
  }

  /** The loop has come to block i. */
  predicate ComesTo(prev: Bytes, bs: nat, total: nat, fs: seq<Frame>, f: DeltaFaults, i: nat)
    requires bs > 0
  {
    && i <= BlockCount(total, bs) && i <= |fs| && Replay(prev, bs, total, fs, i).Some? && BlocksUndisturbed(f, fs, i)
    && StopsAt(prev, bs, total, fs, f, 0) == StopsAt(prev, bs, total, fs, f, i)
  }

  lemma ComesToFirst(prev: Bytes, bs: nat, total: nat, fs: seq<Frame>, f: DeltaFaults)
    requires bs > 0
    ensures ComesTo(prev, bs, total, fs, f, 0) && Replay(prev, bs, total, fs, 0) == Some([])
  {
  }

  /** A block written whole lets the loop go on, with the replay one block longer. */
  lemma BlockGoesOn(prev: Bytes, bs: nat, total: nat, fs: seq<Frame>, f: DeltaFaults, i: nat)
    requires bs > 0 && ComesTo(prev, bs, total, fs, f, i) && i < BlockCount(total, bs) && i < |fs|
    requires Piece(prev, bs, total, i, fs[i]).Some? && BlockUndisturbed(f, fs[i], i)
    ensures ComesTo(prev, bs, total, fs, f, i + 1)
    ensures Replay(prev, bs, total, fs, i + 1)
            == Some(Replay(prev, bs, total, fs, i).value + BlockGain(prev, bs, total, i, fs[i], f))
  {
  }

  /** A block missing, refused or disturbed stops the loop. */
  lemma BlockEnds(prev: Bytes, bs: nat, total: nat, fs: seq<Frame>, f: DeltaFaults, i: nat)
    requires bs > 0 && ComesTo(prev, bs, total, fs, f, i) && i < BlockCount(total, bs)
    requires i == |fs| || Piece(prev, bs, total, i, fs[i]).None? || !BlockUndisturbed(f, fs[i], i)
    ensures StopsAt(prev, bs, total, fs, f, 0) == i && !BlocksAccepted(prev, bs, total, fs, f)
    ensures var r := Replay(prev, bs, total, fs, i).value;
            Patched(prev, bs, total, fs, f) == if i < |fs| then r + BlockGain(prev, bs, total, i, fs[i], f) else r
    ensures BlocksStrand(prev, bs, total, fs, f) <==> i < |fs| && fs[i + 1..] != [] && KeepsConn(bs, total, i, fs[i], f)
    ensures BlocksDrop(prev, bs, total, fs, f) <==> i == |fs| || !KeepsConn(bs, total, i, fs[i], f)
  {
    var r := Replay(prev, bs, total, fs, i).value;
    assert r + [] == r;
    if i < |fs| {
      BlockStops(prev, bs, total, fs, f, i);
    }
  }

  /** The loop that has come to the end has run through. */
  lemma BlocksEnd(prev: Bytes, bs: nat, total: nat, fs: seq<Frame>, f: DeltaFaults)
    requires bs > 0 && ComesTo(prev, bs, total, fs, f, BlockCount(total, bs))
    ensures StopsAt(prev, bs, total, fs, f, 0) == BlockCount(total, bs) && BlocksAccepted(prev, bs, total, fs, f)
    ensures Patched(prev, bs, total, fs, f) == Replay(prev, bs, total, fs, BlockCount(total, bs)).value
  {
    var r := Replay(prev, bs, total, fs, BlockCount(total, bs)).value;
    assert r + [] == r;
  }

  // ---- The attempt ----

  predicate DeltaUndisturbed(f: DeltaFaults) {
    && !f.openOld && !f.hashRead && !f.send && DeltaOpens(f)
    && !f.sync && !f.stat && !f.rename && !f.index
  }

  predicate DeltaSucceeds(prev: Bytes, bs: nat, fs: seq<Frame>, f: DeltaFaults)
    requires bs > 0
  {
    DeltaAnnounces(fs) && DeltaUndisturbed(f) && BlocksReceived(prev, bs, fs[0].total, fs[1..], f)
  }

  /** The partial file is opened, and so emptied. */
  predicate DeltaWrites(fs: seq<Frame>, f: DeltaFaults) {
    !f.send && DeltaAnnounces(fs) && DeltaOpens(f)
  }

  /** The disk at the end of a delta attempt that reached the end marker: the last step that fails decides. */
  function DeltaFinished(held: Files, f: DeltaFaults): Files {
    if f.sync then held
    else if f.stat then (if f.removePart then held else held.(part := None))
    else if f.rename then held
    else Files(None, held.meta, held.part)
  }

  /** The attempt keeps the connection with frames unread on it. */
  predicate LeavesDeltaFrames(prev: Bytes, bs: nat, fs: seq<Frame>, f: DeltaFaults)
    requires bs > 0
  {
    && !f.send && fs != []
    && if fs[0].Error? || (DeltaAnnounces(fs) && !DeltaOpens(f)) then fs[1..] != []
       else DeltaAnnounces(fs) && BlocksStrand(prev, bs, fs[0].total, fs[1..], f)
  }

  /** Total less literal bytes is what was copied from the old file, and never negative. */
  lemma SavedIsCopied(prev: Bytes, bs: nat, total: nat, rest: seq<Frame>)
    requires bs > 0 && BlockCount(total, bs) <= |rest| && Replay(prev, bs, total, rest, BlockCount(total, bs)).Some?
    ensures var n := BlockCount(total, bs);
            total - Literal(rest[..n]) == Kept(total, bs, rest[..n]) >= 0
  {
    var n := BlockCount(total, bs);
    ReplayOfPrefix(prev, bs, total, rest, n, n);
    CostSplit(prev, bs, total, rest[..n]);
    BlockEnd(total, bs);
  }

  /** What the loop that has run through leaves: the whole replay, whose copied part is the bytes saved. */
  lemma PatchedWhole(prev: Bytes, bs: nat, total: nat, fs: seq<Frame>, f: DeltaFaults)
    requires bs > 0 && BlocksAccepted(prev, bs, total, fs, f)
             && StopsAt(prev, bs, total, fs, f, 0) == BlockCount(total, bs)
    ensures var n := BlockCount(total, bs);
            && Replay(prev, bs, total, fs, n) == Some(Patched(prev, bs, total, fs, f))
               && |Patched(prev, bs, total, fs, f)| == total
            && total - Literal(fs[..n]) == Kept(total, bs, fs[..n]) >= 0
  {
    var r := Replay(prev, bs, total, fs, BlockCount(total, bs)).value;
    assert r + [] == r;
    BlockEnd(total, bs);
    SavedIsCopied(prev, bs, total, fs);
  }

  // ---- Honest answers ----

  /** The client answers about version w, whose blocks do not collide with the old ones. */
  ghost predicate HonestDelta<H(!new)>(fs: seq<Frame>, prev: Bytes, bs: nat, hash: Bytes -> H, w: Version)
    requires bs > 0
  {
    DeltaAnswer(fs, w, bs, BlockHashes(prev, bs, hash), hash) && NoCollision(prev, w.content, bs, hash)
  }

  /** Each block frame that can be replayed gives that block of w; an error report ends the answer. */
  predicate BlocksOf(rest: seq<Frame>, prev: Bytes, bs: nat, w: Version)
    requires bs > 0
  {
    && |rest| <= BlockCount(|w.content|, bs) + 1
    && forall i | 0 <= i < |rest| && i < BlockCount(|w.content|, bs) ::
         (rest[i].Error? && i + 1 == |rest|)
         || Piece(prev, bs, |w.content|, i, rest[i]) == Some(Block(w.content, bs, i))
  }

  lemma HonestBlocks<H(!new)>(fs: seq<Frame>, prev: Bytes, bs: nat, hash: Bytes -> H, w: Version)
    requires bs > 0 && HonestDelta(fs, prev, bs, hash, w) && fs != [] && fs[0].DeltaResp?
    ensures fs[0] == DeltaResp(0, |w.content|, w.mtime) && BlocksOf(fs[1..], prev, bs, w)
  {
    var rest := fs[1..];
    forall i | 0 <= i < |rest| && i < BlockCount(|w.content|, bs)
      ensures (rest[i].Error? && i + 1 == |rest|)
              || Piece(prev, bs, |w.content|, i, rest[i]) == Some(Block(w.content, bs, i))
    {
      PieceIsBlock(prev, w.content, bs, hash, i);
      assert rest[i] == fs[i + 1];
    }
  }

  lemma BlockPrefix(c: Bytes, bs: nat, i: nat, n: nat)
    requires bs > 0 && i < BlockCount(|c|, bs) && n <= |Block(c, bs, i)|
    ensures c[..UpTo(|c|, bs, i)] + Block(c, bs, i)[..n] <= c
    ensures c[..UpTo(|c|, bs, i)] + Block(c, bs, i) == c[..UpTo(|c|, bs, i + 1)]
  {
    BlockStep(|c|, bs, i);
  }

  /** A block of an honest answer that cannot be read back or written, with frames of the answer behind it. */
  predicate TornBlock(rest: seq<Frame>, prev: Bytes, bs: nat, total: nat, f: DeltaFaults)
    requires bs > 0
  {
    var k := StopsAt(prev, bs, total, rest, f, 0);
    && k < BlockCount(total, bs) && k < |rest| && rest[k + 1..] != []
    && (if rest[k].BlockKeep? then f.readOld == Some(k) || f.writeAt == Some(k)
        else f.writeAt == Some(k) && f.cancelAt != Some(k))
  }

  /**
   * Answered honestly, a delta attempt leaves frames unread exactly when a local step fails while they
   * are on their way: opening the partial file, reading an old block, or writing a block.
   */
  lemma LeavesDeltaFramesIff<H(!new)>(prev: Bytes, bs: nat, fs: seq<Frame>, f: DeltaFaults, hash: Bytes -> H,
                                      w: Version)
    requires bs > 0 && HonestDelta(fs, prev, bs, hash, w)
    ensures LeavesDeltaFrames(prev, bs, fs, f)
      <==> !f.send && DeltaAnnounces(fs)
           && if DeltaOpens(f) then TornBlock(fs[1..], prev, bs, |w.content|, f) else fs[1..] != []
  {
    if DeltaAnnounces(fs) {
      HonestBlocks(fs, prev, bs, hash, w);
      var rest := fs[1..];
      var k := StopsAt(prev, bs, |w.content|, rest, f, 0);
      if k < BlockCount(|w.content|, bs) && k < |rest| && rest[k].Error? {
        assert Piece(prev, bs, |w.content|, k, rest[k]).None?;
        assert rest[k + 1..] == [];
      }
      StopReason(prev, bs, |w.content|, rest, f, 0);
    }
  }

  lemma {:induction false} StopReason(prev: Bytes, bs: nat, total: nat, fs: seq<Frame>, f: DeltaFaults, i: nat)
    requires bs > 0 && i <= BlockCount(total, bs) && i <= |fs| && Replay(prev, bs, total, fs, i).Some?
    ensures var k := StopsAt(prev, bs, total, fs, f, i);
            k < BlockCount(total, bs) && k < |fs| ==>
                Piece(prev, bs, total, k, fs[k]).None? || !BlockUndisturbed(f, fs[k], k)
    decreases |fs| - i
  {
    if StopsAt(prev, bs, total, fs, f, i) != i {
      StopReason(prev, bs, total, fs, f, i + 1);
    }
  }

  /** The loop stops at block k when the blocks before it can be replayed and had, and it cannot. */
  lemma {:induction false} StopsWhere(prev: Bytes, bs: nat, total: nat, fs: seq<Frame>, f: DeltaFaults, i: nat, k: nat)
    requires bs > 0 && i <= k <= BlockCount(total, bs) && k <= |fs| && Replay(prev, bs, total, fs, k).Some?
    requires BlocksUndisturbed(f, fs, k)
    requires k < BlockCount(total, bs) && k < |fs| ==>
               Piece(prev, bs, total, k, fs[k]).None? || !BlockUndisturbed(f, fs[k], k)
    ensures Replay(prev, bs, total, fs, i).Some? && StopsAt(prev, bs, total, fs, f, i) == k
    decreases k - i
  {
    if i < k {
      StopsWhere(prev, bs, total, fs, f, i + 1, k);
      assert Replay(prev, bs, total, fs, i + 1).Some? && BlockUndisturbed(f, fs[i], i);
    }
  }

  /** With no collision every block of the whole answer is accepted. */
  lemma WholeReplay<H(!new)>(prev: Bytes, bs: nat, rest: seq<Frame>, hash: Bytes -> H, next: Bytes)
    requires bs > 0 && NoCollision(prev, next, bs, hash)
    requires rest == BlockFrames(next, bs, BlockHashes(prev, bs, hash), hash, BlockCount(|next|, bs)) + [FileEnd]
    ensures BlocksAccepted(prev, bs, |next|, rest, NO_DELTA_FAULTS) && EndsAfterBlocks(bs, |next|, rest)
  {
    var n := BlockCount(|next|, bs);
    DeltaRebuildsNew(prev, next, bs, hash);
    assert rest[..n] == BlockFrames(next, bs, BlockHashes(prev, bs, hash), hash, n);
    ReplayOfPrefix(prev, bs, |next|, rest, n, n);
  }

  /** With no collision and no failure, the whole answer is honest and accepted. */
  lemma WholeDelta<H(!new)>(prev: Bytes, bs: nat, fs: seq<Frame>, hash: Bytes -> H, w: Version)
    requires bs > 0 && NoCollision(prev, w.content, bs, hash)
    requires fs == [DeltaResp(0, |w.content|, w.mtime)]
      + BlockFrames(w.content, bs, BlockHashes(prev, bs, hash), hash, BlockCount(|w.content|, bs)) + [FileEnd]
    ensures HonestDelta(fs, prev, bs, hash, w) && DeltaSucceeds(prev, bs, fs, NO_DELTA_FAULTS)
  {
    var n := BlockCount(|w.content|, bs);
    AssembleDelta(w, bs, BlockHashes(prev, bs, hash), hash, n, FileEnd);
    assert fs[1..] == BlockFrames(w.content, bs, BlockHashes(prev, bs, hash), hash, n) + [FileEnd];
    WholeReplay(prev, bs, fs[1..], hash, w.content);
  }

  /** The frames of a whole answer that a connection carries before it is lost. */
  ghost predicate CutAnswer<H>(fs: seq<Frame>, k: nat, prev: Bytes, bs: nat, hash: Bytes -> H, w: Version)
    requires bs > 0
  {
    var n := BlockCount(|w.content|, bs);
    k <= n + 2 && fs == ([DeltaResp(0, |w.content|, w.mtime)]
                         + BlockFrames(w.content, bs, BlockHashes(prev, bs, hash), hash, n) + [FileEnd])[..k]
  }

  /** Blocks that can all be replayed stop the loop only where they end. */
  lemma {:induction false} StopsAtEnd(rest: seq<Frame>, prev: Bytes, bs: nat, w: Version, i: nat)
    requires bs > 0 && i <= |rest| <= BlockCount(|w.content|, bs)
    requires forall j | 0 <= j < |rest| :: Piece(prev, bs, |w.content|, j, rest[j]) == Some(Block(w.content, bs, j))
    requires Replay(prev, bs, |w.content|, rest, i).Some?
    ensures StopsAt(prev, bs, |w.content|, rest, NO_DELTA_FAULTS, i) == |rest|
    decreases |rest| - i
  {
    if i < |rest| {
      StopsAtEnd(rest, prev, bs, w, i + 1);
    }
  }

  /** The frames behind the announcement are the first blocks. */
  lemma CutBlocks<H(!new)>(fs: seq<Frame>, k: nat, prev: Bytes, bs: nat, hash: Bytes -> H, w: Version)
    requires bs > 0 && NoCollision(prev, w.content, bs, hash) && 1 <= k < BlockCount(|w.content|, bs) + 2
    requires CutAnswer(fs, k, prev, bs, hash, w)
    ensures HonestDelta(fs, prev, bs, hash, w) && |fs| == k && fs[0] == DeltaResp(0, |w.content|, w.mtime)
    ensures forall j | 0 <= j < k - 1 ::
              Piece(prev, bs, |w.content|, j, fs[1..][j]) == Some(Block(w.content, bs, j))
  {
    var n, rest := BlockCount(|w.content|, bs), fs[1..];
    var hs := BlockHashes(prev, bs, hash);
    var whole := [DeltaResp(0, |w.content|, w.mtime)] + BlockFrames(w.content, bs, hs, hash, n) + [FileEnd];
    AssembleDelta(w, bs, hs, hash, n, FileEnd);
    CutIsDeltaAnswer(fs, whole, w, bs, hs, hash);
    forall j | 0 <= j < k - 1
      ensures Piece(prev, bs, |w.content|, j, rest[j]) == Some(Block(w.content, bs, j))
    {
      assert rest[j] == BlockFrames(w.content, bs, hs, hash, n)[j];
      BlockFramesAt(w.content, bs, hs, hash, n, j);
      PieceIsBlock(prev, w.content, bs, hash, j);
    }
  }

  /** Cut short behind its announcement, a delta leaves the blocks that arrived, and is not accepted. */
  lemma CutDelta<H(!new)>(fs: seq<Frame>, k: nat, prev: Bytes, bs: nat, hash: Bytes -> H, w: Version)
    requires bs > 0 && NoCollision(prev, w.content, bs, hash) && 1 <= k < BlockCount(|w.content|, bs) + 2
    requires CutAnswer(fs, k, prev, bs, hash, w)
    ensures HonestDelta(fs, prev, bs, hash, w) && fs[0] == DeltaResp(0, |w.content|, w.mtime)
    ensures !BlocksReceived(prev, bs, |w.content|, fs[1..], NO_DELTA_FAULTS)
    ensures Patched(prev, bs, |w.content|, fs[1..], NO_DELTA_FAULTS) == w.content[..UpTo(|w.content|, bs, k - 1)]
  {
    var rest := fs[1..];
    CutBlocks(fs, k, prev, bs, hash, w);
    StopsAtEnd(rest, prev, bs, w, 0);
    ReplayPrefix(prev, w.content, bs, rest, |rest|);
    assert w.content[..UpTo(|w.content|, bs, k - 1)] + [] == w.content[..UpTo(|w.content|, bs, k - 1)];
  }

  // ---- A description that stays ----

  /** The description left beside the rebuilt bytes by a failed, ignored removal. */
  function StaleDelta(b: Files, f: DeltaFaults): Option<Meta> {
    if f.removeMeta then b.meta else None
  }

  /** The bytes written in this attempt. */
  function DeltaAdds(prev: Bytes, bs: nat, fs: seq<Frame>, f: DeltaFaults): Bytes
    requires bs > 0
  {
    if DeltaWrites(fs, f) then Patched(prev, bs, fs[0].total, fs[1..], f) else []
  }
}
