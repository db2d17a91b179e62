/**
 * The rules of one GET attempt, for every answer and every combination of failures: when it succeeds,
 * which bytes it writes, what it leaves on the disk and what it leaves unread on the connection.
 */
module GetRules {
  import opened Basics
  import opened Frames
  import opened Serving
  import opened Resume

  datatype Outcome = Outcome(ok: bool, bytes: nat, dropConn: bool, code: ErrorCode, skipNow: bool)

  function Refuse(code: ErrorCode): Outcome {
    Outcome(false, 0, false, code, false)
  }

  function Dropped(code: ErrorCode): Outcome {
    Outcome(false, 0, true, code, false)
  }

  /** A reply that is not the announcement: an ERROR, an announced refusal, or a frame of another answer. */
  function Refusal(f: Frame): Outcome {
    match f
    case Error(code) => Refuse(code).(skipNow := code == NotFound)
    case GetResp(_, _, _) => Refuse(IOError)
    case _ => Refuse(ProtocolError)
  }

  /** What a write of the description, whose error is ignored, leaves behind. */
  datatype MetaFate = Written | Unreadable | Unchanged

  function MetaAfter(m: Meta, fate: MetaFate, before: Option<Meta>): Option<Meta> {
    match fate
    case Written => Some(m)
    case Unreadable => None
    case Unchanged => before
  }

  /**
   * Which steps of an attempt fail. `cancelAt` and `writeAt` number data frames from 0; a failed
   * write leaves `wrote` bytes of its frame. `seek` covers truncate too.
   */
  datatype Faults =
    Faults(send: bool, metaRead: bool, meta: MetaFate, removePart: bool, removeMeta: bool, tempDir: bool,
           open: bool, seek: bool, cancelAt: Option<nat>, writeAt: Option<nat>, wrote: nat, sync: bool,
           stat: bool, targetDir: bool, rename: bool, index: bool)

  const NO_FAULTS: Faults :=
    Faults(false, false, Written, false, false, false, false, false, None, None, 0, false, false, false, false, false)

  predicate Opens(f: Faults) {
    !f.tempDir && !f.open && !f.seek
  }

  /** The disk as the attempt sees it: the description may be unreadable. */
  function Seen(b: Files, f: Faults): Files {
    if f.metaRead then b.(meta := None) else b
  }

  predicate Announces(fs: seq<Frame>) {
    fs != [] && fs[0].GetResp? && fs[0].status == 0
  }

  /** The announcement is there, and the saved bytes may be completed to what it announces. */
  predicate Accepted(b: Files, fs: seq<Frame>, f: Faults, tol: int) {
    !f.send && Announces(fs) && CanResume(Seen(b, f), fs[0].total, fs[0].mtime, tol)
  }

  // ---- The receive loop ----

  function Earlier(n: nat, at: Option<nat>): nat {
    if at.Some? && at.value < n then at.value else n
  }

  /** How many of the leading data frames are written whole: those before the first one cancelled or torn. */
  function StopAt(fs: seq<Frame>, f: Faults): (n: nat)
    ensures n <= DataRun(fs)
  {
    Earlier(Earlier(DataRun(fs), f.cancelAt), f.writeAt)
  }

  /** What is written of data frame i when it is cancelled, torn, or neither. */
  function Cut(data: Bytes, i: nat, f: Faults): Bytes {
    if f.cancelAt == Some(i) then [] else if f.writeAt == Some(i) then data[..Min(f.wrote, |data|)] else data
  }

  /** The bytes the receive loop writes, unless they overrun the announced size. */
  function Gained(fs: seq<Frame>, f: Faults): Bytes {
    var n := StopAt(fs, f);
    Carried(fs, n) + if n < DataRun(fs) then Cut(fs[n].data, n, f) else []
  }

  /** The frames written whole do not overrun the announced size. */
  predicate Fits(fs: seq<Frame>, offset: nat, total: nat, f: Faults) {
    StopAt(fs, f) == 0 || offset + |Carried(fs, StopAt(fs, f))| <= total
  }

  /** The receive loop reads up to the end marker. */
  predicate Received(fs: seq<Frame>, offset: nat, total: nat, f: Faults) {
    var n := DataRun(fs);
    n < |fs| && fs[n].FileEnd? && StopAt(fs, f) == n && Fits(fs, offset, total, f)
  }

  /** The receive loop stops in front of a torn frame, an error report or behind the end marker, with frames unread. */
  predicate Strands(fs: seq<Frame>, offset: nat, total: nat, f: Faults) {
    var n := StopAt(fs, f);
    && Fits(fs, offset, total, f) && n < |fs| && fs[n + 1..] != []
    && if n < DataRun(fs) then f.cancelAt != Some(n) else fs[n].FileEnd? || fs[n].Error?
  }

  /** The receive loop gives the connection up: after too many bytes, a cancellation, its loss or a misplaced frame. */
  predicate Drops(fs: seq<Frame>, offset: nat, total: nat, f: Faults) {
    var n := StopAt(fs, f);
    || !Fits(fs, offset, total, f)
    || if n < DataRun(fs) then f.cancelAt == Some(n) else n == |fs| || !(fs[n].FileEnd? || fs[n].Error?)
  }

  lemma Associate(x: Bytes, y: Bytes, z: Bytes)
    ensures x + y + z == x + (y + z)
  {
  }

  lemma CarriedNext(fs: seq<Frame>, i: nat, base: Bytes)
    requires i < DataRun(fs)
    ensures base + Carried(fs, i) + fs[i].data == base + Carried(fs, i + 1)
  {
    Associate(base, Carried(fs, i), fs[i].data);
  }

  lemma NextFits(fs: seq<Frame>, i: nat, c: Bytes, offset: nat)
    requires i < DataRun(fs) && offset <= |c| && Payload(fs) <= c[offset..]
    ensures Carried(fs, i) + fs[i].data <= c[offset..]
  {
    CarriedGrows(fs, i + 1, DataRun(fs));
    PrefixOfPrefix(Carried(fs, i + 1), Payload(fs), c[offset..]);
  }

  /** The loop has written i data frames, and none of them was one too many. */
  predicate SoFar(fs: seq<Frame>, offset: nat, total: nat, f: Faults, i: nat) {
    i <= StopAt(fs, f) && (i == 0 || offset + |Carried(fs, i)| <= total)
  }

  /** At the end of the data the loop stops whole, and strands frames only behind an end marker or an error. */
  lemma EndOfData(fs: seq<Frame>, offset: nat, total: nat, f: Faults, i: nat)
    requires SoFar(fs, offset, total, f, i) && (i == |fs| || !fs[i].FileData?)
    ensures i == DataRun(fs) && Gained(fs, f) == Carried(fs, i)
    ensures Received(fs, offset, total, f) <==> i < |fs| && fs[i].FileEnd?
    ensures Strands(fs, offset, total, f) <==> i < |fs| && (fs[i].FileEnd? || fs[i].Error?) && fs[i + 1..] != []
    ensures Drops(fs, offset, total, f) <==> i == |fs| || !(fs[i].FileEnd? || fs[i].Error?)
  {
    assert Carried(fs, i) + [] == Carried(fs, i);
  }

  /** A data frame cancelled, torn or one too many stops the loop, and a torn one keeps the connection. */
  lemma EndInData(fs: seq<Frame>, offset: nat, total: nat, f: Faults, i: nat)
    requires SoFar(fs, offset, total, f, i) && i < DataRun(fs)
    requires f.cancelAt == Some(i) || f.writeAt == Some(i) || offset + |Carried(fs, i + 1)| > total
    ensures !Received(fs, offset, total, f)
    ensures f.cancelAt == Some(i) || f.writeAt == Some(i) ==> Gained(fs, f) == Carried(fs, i) + Cut(fs[i].data, i, f)
    ensures !(f.cancelAt == Some(i) || f.writeAt == Some(i)) ==> !Fits(fs, offset, total, f)
    ensures Strands(fs, offset, total, f) <==> f.cancelAt != Some(i) && f.writeAt == Some(i) && fs[i + 1..] != []
    ensures Drops(fs, offset, total, f) <==> f.cancelAt == Some(i) || f.writeAt != Some(i)
  {
    if i < StopAt(fs, f) {
      Overrun(fs, offset, total, f, i);
    }
  }

  /** A data frame written whole that is not one too many lets the loop go on. */
  lemma GoesOn(fs: seq<Frame>, offset: nat, total: nat, f: Faults, i: nat)
    requires SoFar(fs, offset, total, f, i) && i < DataRun(fs)
    requires f.cancelAt != Some(i) && f.writeAt != Some(i) && offset + |Carried(fs, i + 1)| <= total
    ensures SoFar(fs, offset, total, f, i + 1)
  {
  }

  /** A frame too many ends the reception for good. */
  lemma Overrun(fs: seq<Frame>, offset: nat, total: nat, f: Faults, i: nat)
    requires i < StopAt(fs, f) && offset + |Carried(fs, i + 1)| > total
    ensures !Fits(fs, offset, total, f)
  {
    CarriedGrows(fs, i + 1, StopAt(fs, f));
  }

  lemma ReceivedWhole(fs: seq<Frame>, offset: nat, total: nat, f: Faults)
    requires Received(fs, offset, total, f)
    ensures Gained(fs, f) == Payload(fs)
  {
  }

  lemma HonestFits(fs: seq<Frame>, c: Bytes, offset: nat, f: Faults)
    requires offset <= |c| && Payload(fs) <= c[offset..]
    ensures Fits(fs, offset, |c|, f)
  {
    CarriedGrows(fs, StopAt(fs, f), DataRun(fs));
  }

  // ---- The attempt ----

  /** No step fails that could stop an attempt that receives all its data frames. */
  predicate Undisturbed(f: Faults, fs: seq<Frame>) {
    && !f.send && Opens(f) && !f.sync && !f.stat && !f.targetDir && !f.rename && !f.index
    && StopAt(fs, f) == DataRun(fs)
  }

  /** Data that makes up exactly the rest of the announced size, and the end marker. */
  predicate Streams(fs: seq<Frame>, offset: nat, total: nat) {
    var n := DataRun(fs);
    n < |fs| && fs[n].FileEnd? && offset + |Payload(fs)| == total
  }

  /** The attempt succeeds, whoever the frames were meant for. */
  predicate Succeeds(b: Files, fs: seq<Frame>, f: Faults, tol: int) {
    Accepted(b, fs, f, tol) && Undisturbed(f, fs[1..]) && Streams(fs[1..], |Saved(b)|, fs[0].total)
  }

  /** The disk once the partial file has been described and opened. */
  function Opened(b: Files, m: Meta, f: Faults): Files {
    Files(Some(Saved(b)), MetaAfter(m, f.meta, b.meta), b.target)
  }

  /** The disk once saved bytes that do not fit the announcement have been thrown away. */
  function Discarded(b: Files, f: Faults): Files {
    Files(if f.removePart then b.part else None, if f.removeMeta then b.meta else None, b.target)
  }

  /** The disk at the end of an attempt that reached the end marker: the last step that fails decides. */
  function Finished(held: Files, total: nat, f: Faults): Files {
    if f.sync || f.stat then held
    else if |Saved(held)| != total then Discarded(held, f)
    else if f.targetDir || f.rename then held
    else Files(None, if f.removeMeta then held.meta else None, held.part)
  }

  /** The attempt keeps the connection with frames unread on it. */
  predicate LeavesFrames(b: Files, fs: seq<Frame>, f: Faults, tol: int) {
    && !f.send && fs != []
    && if !Announces(fs) || (Accepted(b, fs, f, tol) && !Opens(f)) then fs[1..] != []
       else Accepted(b, fs, f, tol) && Strands(fs[1..], |Saved(b)|, fs[0].total, f)
  }

  // ---- Honest answers ----

  /**
   * The client speaks about version w, and if b's saved bytes may be completed to w they are a prefix
   * of it (which every safe disk gives, see Resume.SavedIsPrefix).
   */
  predicate Honest(b: Files, fs: seq<Frame>, w: Version, tol: int) {
    GetAnswer(fs, w, |Saved(b)|) && (CanResume(b, |w.content|, w.mtime, tol) ==> Saved(b) <= w.content)
  }

  lemma WholeFile(p: Bytes, x: Bytes, c: Bytes)
    requires p <= c && x <= c[|p|..] && |p| + |x| == |c|
    ensures p + x == c
  {
  }

  /** Bytes that continue a prefix of c make a longer prefix. */
  lemma Continues(p: Bytes, x: Bytes, c: Bytes)
    requires p <= c && x <= c[|p|..]
    ensures p + x <= c
  {
  }

  /** An honest answer that is accepted completes the saved bytes to exactly the client's version, and is used up. */
  lemma SuccessIsExact(b: Files, fs: seq<Frame>, f: Faults, w: Version, versions: set<Version>, was: Option<Bytes>,
                       tol: int)
    requires w in versions && Safe(b, versions, was) && SameMeansSame(versions, tol)
    requires GetAnswer(fs, w, |Saved(b)|) && Succeeds(b, fs, f, tol)
    ensures fs[0] == GetResp(0, |w.content|, w.mtime) && Saved(b) + Payload(fs[1..]) == w.content
    ensures fs[1..][DataRun(fs[1..]) + 1..] == []
  {
    SavedIsPrefix(b, w, versions, was, tol);
    WholeFile(Saved(b), Payload(fs[1..]), w.content);
  }

  /** A data frame is torn by a local write error, and it is not the last frame of what arrived. */
  predicate Torn(fs: seq<Frame>, f: Faults) {
    && f.writeAt.Some? && f.writeAt.value < DataRun(fs) && fs[f.writeAt.value + 1..] != []
    && !(f.cancelAt.Some? && f.cancelAt.value <= f.writeAt.value)
  }

  /**
   * Answered honestly, an attempt leaves frames unread exactly when a local step fails while they are
   * on their way: opening the partial file, or writing a data frame.
   */
  lemma LeavesFramesIff(b: Files, fs: seq<Frame>, w: Version, f: Faults, tol: int)
    requires GetAnswer(fs, w, |Saved(b)|)
    ensures LeavesFrames(b, fs, f, tol)
      <==> Accepted(b, fs, f, tol) && if Opens(f) then Torn(fs[1..], f) else fs[1..] != []
  {
    if Accepted(b, fs, f, tol) {
      HonestFits(fs[1..], w.content, |Saved(b)|, f);
    }
  }

  // ---- A description that stays ----

  /** The description that a failed, ignored write leaves beside the bytes of this attempt. */
  function Stale(b: Files, f: Faults): Option<Meta> {
    if f.meta.Unchanged? && Saved(b) == [] then b.meta else None
  }

  /** The bytes written in this attempt. */
  function Adds(b: Files, fs: seq<Frame>, f: Faults, tol: int): Bytes {
    if Accepted(b, fs, f, tol) && Opens(f) then Gained(fs[1..], f) else []
  }
}
