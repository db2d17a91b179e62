/**
 * Runs that reach a description of one version beside bytes of another, because an error in writing or
 * removing it is ignored, and then complete the file wrongly: by a full download, by a delta, by a restore.
 */
module StaleRuns {
  import opened Basics
  import opened Frames
  import opened Delta
  import opened Serving
  import opened Resume
  import opened GetRules
  import opened DeltaRules
  import opened Download
  import opened Restore

  /** The bytes x followed by v's bytes from there on: what completing them to v gives. */
  function Completed(x: Bytes, v: Version): Bytes
    requires |x| <= |v.content|
  {
    x + v.content[|x|..]
  }

  lemma CompletedIsWrong(x: Bytes, v: Version)
    requires |x| <= |v.content| && !(x <= v.content)
    ensures Completed(x, v) != v.content
  {
    assert Completed(x, v)[..|x|] == x;
  }

  /** A whole answer for v, resumed behind whatever is saved under v's description, is stored as it comes. */
  method Resumed(m: Manager, v: Version, chunk: nat) returns (r: Outcome)
    requires m.inbox == [] && chunk > 0 && m.tolerance >= 0
    requires m.files.meta == Some(MetaOf(v)) && |Saved(m.files)| <= |v.content|
    modifies m
    ensures r.ok && m.done && m.index == Some(MetaOf(v)) && m.files.target == Some(Completed(Saved(old(m.files)), v))
  {
    var fs := SendWhole(v, |Saved(m.files)|, chunk);
    assert m.inbox + fs == fs;
    ResumedSucceeds(m.files, fs, NO_FAULTS, v, m.tolerance);
    r := m.Fetch(fs, NO_FAULTS, v);
  }

  /** A whole answer for the version described, or for a file of which nothing is saved, is accepted. */
  lemma ResumedSucceeds(b: Files, fs: seq<Frame>, f: Faults, v: Version, tol: int)
    requires WholeAnswer(fs, v, |Saved(b)|) && tol >= 0 && (b.meta == Some(MetaOf(v)) || Saved(b) == [])
    requires f == NO_FAULTS.(removeMeta := f.removeMeta)
    ensures Succeeds(b, fs, f, tol) && fs[0] == GetResp(0, |v.content|, v.mtime)
    ensures Payload(fs[1..]) == v.content[|Saved(b)|..]
  {
  }

  /**
   * By a full download. The connection is lost behind v's announcement; then w is served, writing its
   * description fails, and the connection is lost behind one data frame; then v is back.
   */
  method StaleFetch(tol: int, v: Version, w: Version, d: Bytes, chunk: nat)
    returns (m: Manager, r: Outcome, ghost bad: Files)
    requires tol >= 0 && chunk > 0 && SameMeansSame({v, w}, tol)
    requires d <= w.content && |d| <= |v.content| && !(d <= v.content)
    ensures bad == Files(Some(d), Some(MetaOf(v)), None) && !Safe(bad, {v, w}, None)
    ensures fresh(m) && r.ok && m.done && m.index == Some(MetaOf(v))
    ensures m.files.target == Some(Completed(d, v)) && Completed(d, v) != v.content
  {
    m := new Manager(tol, Files(None, None, None));
    OnlyAnnounced(m, v);
    OnlyOneFrame(m, v, w, d);
    bad := m.files;
    CompletedIsWrong(d, v);
    r := Resumed(m, v, chunk);
  }

  /** A connection lost behind the announcement leaves a description and nothing saved. */
  method OnlyAnnounced(m: Manager, v: Version)
    requires m.inbox == [] && m.files == Files(None, None, None)
    modifies m
    ensures m.inbox == [] && m.files == Files(Some([]), Some(MetaOf(v)), None)
  {
    var fs := [GetResp(0, |v.content|, v.mtime)];
    assert m.inbox + fs == fs && fs[1..] == [];
    var r := m.Fetch(fs, NO_FAULTS, v);
    m.inbox := [];
  }

  /** A connection lost behind the first data frame, when the new description could not be written. */
  method OnlyOneFrame(m: Manager, v: Version, w: Version, d: Bytes)
    requires m.inbox == [] && m.files == Files(Some([]), Some(MetaOf(v)), None) && d <= w.content
    modifies m
    ensures m.inbox == [] && m.files == Files(Some(d), Some(MetaOf(v)), None)
  {
    var fs := [GetResp(0, |w.content|, w.mtime), FileData(d)];
    assert m.inbox + fs == fs && fs[1..] == [FileData(d)];
    OneFrame(d, NO_FAULTS.(meta := Unchanged));
    assert [] + d == d;
    var r := m.Fetch(fs, NO_FAULTS.(meta := Unchanged), w);
    m.inbox := [];
  }

  lemma OneFrame(d: Bytes, f: Faults)
    requires f.cancelAt.None? && f.writeAt.None?
    ensures DataRun([FileData(d)]) == 1 && StopAt([FileData(d)], f) == 1 && Gained([FileData(d)], f) == d
    ensures Carried([FileData(d)], 1) == d
  {
    RunIs([FileData(d)], 1);
    assert Carried([FileData(d)], 0) + d == d;
    assert d + [] == d;
  }

  /**
   * By a delta. v is downloaded, and removing its description fails; then w is served as a delta, removing
   * it fails again, and only the first block arrives; then v is back, and its delta falls back because the
   * stored copy cannot be opened.
   */
  method StaleDelta<H(!new, ==)>(tol: int, v: Version, w: Version, c: DeltaConfig, hash: Bytes -> H, chunk: nat)
    returns (m: Manager, r: Outcome, ghost bad: Files)
    requires tol >= 0 && chunk > 0 && SameMeansSame({v, w}, tol) && c.bs > 0 && BlockCount(|w.content|, c.bs) > 1
    requires TriesDelta(Files(None, None, Some(v.content)), c) && !TooManyHashes(|v.content|, c)
    requires NoCollision(v.content, w.content, c.bs, hash)
    requires |Block(w.content, c.bs, 0)| <= |v.content| && !(Block(w.content, c.bs, 0) <= v.content)
    ensures var d := Block(w.content, c.bs, 0);
            && bad == Files(Some(d), Some(MetaOf(v)), Some(v.content)) && !Safe(bad, {v, w}, None)
            && m.files.target == Some(Completed(d, v)) && Completed(d, v) != v.content
    ensures fresh(m) && r.ok && m.done && m.index == Some(MetaOf(v))
  {
    var d := Block(w.content, c.bs, 0);
    m := new Manager(tol, Files(None, None, None));
    StoreKeepingMeta(m, v, chunk);
    FirstBlock(m, v, w, c, hash);
    bad := m.files;
    m.inbox := [];
    var fallback, saved;
    r, fallback, saved := m.DeltaDownload(c, hash, [], NO_DELTA_FAULTS.(openOld := true), v);
    CompletedIsWrong(d, v);
    r := Resumed(m, v, chunk);
  }

  /** A download of v that succeeds, but for the removal of its description. */
  method StoreKeepingMeta(m: Manager, v: Version, chunk: nat)
    requires m.tolerance >= 0 && m.inbox == [] && m.files == Files(None, None, None) && chunk > 0
    modifies m
    ensures m.files == Files(None, Some(MetaOf(v)), Some(v.content)) && m.inbox == []
  {
    var fs := SendWhole(v, 0, chunk);
    ResumedSucceeds(m.files, fs, NO_FAULTS.(removeMeta := true), v, m.tolerance);
    var r := FetchKeepingMeta(m, v, fs);
    DescriptionStays(m, v, fs, r);
    m.inbox := [];
  }

  method FetchKeepingMeta(m: Manager, v: Version, fs: seq<Frame>) returns (r: Outcome)
    requires m.inbox == [] && Succeeds(m.files, fs, NO_FAULTS.(removeMeta := true), m.tolerance)
    modifies m
    ensures m.Stored(old(m.files), fs, NO_FAULTS.(removeMeta := true), r)
  {
    assert m.inbox + fs == fs;
    r := m.Fetch(fs, NO_FAULTS.(removeMeta := true), v);
  }

  lemma DescriptionStays(m: Manager, v: Version, fs: seq<Frame>, r: Outcome)
    requires Announces(fs) && fs[0] == GetResp(0, |v.content|, v.mtime) && Payload(fs[1..]) == v.content[0..]
    requires m.Stored(Files(None, None, None), fs, NO_FAULTS.(removeMeta := true), r)
    ensures m.files == Files(None, Some(MetaOf(v)), Some(v.content))
  {
    assert v.content[0..] == v.content && [] + v.content == v.content;
  }

  /** The blocks that reach the server are block 0 of w, and then the connection is lost. */
  lemma OneBlock<H(!new)>(prev: Bytes, w: Version, bs: nat, hash: Bytes -> H, rest: seq<Frame>, f: DeltaFaults)
    requires bs > 0 && BlockCount(|w.content|, bs) > 1 && NoCollision(prev, w.content, bs, hash)
    requires rest == [BlockFrame(w.content, bs, BlockHashes(prev, bs, hash), hash, 0)]
    requires f.writeAt.None? && f.cancelAt.None? && f.readOld.None?
    ensures Patched(prev, bs, |w.content|, rest, f) == Block(w.content, bs, 0)
    ensures !BlocksAccepted(prev, bs, |w.content|, rest, f)
  {
    PieceIsBlock(prev, w.content, bs, hash, 0);
    var d := Block(w.content, bs, 0);
    assert Replay(prev, bs, |w.content|, rest, 0) == Some([]);
    assert [] + d == d;
    assert Replay(prev, bs, |w.content|, rest, 1) == Some(d);
    assert d + [] == d;
  }

  /** A delta of w over the stored v, of which one block arrives, while the old description cannot be removed. */
  method FirstBlock<H(!new, ==)>(m: Manager, v: Version, w: Version, c: DeltaConfig, hash: Bytes -> H)
    requires m.inbox == [] && m.files == Files(None, Some(MetaOf(v)), Some(v.content))
    requires c.bs > 0 && BlockCount(|w.content|, c.bs) > 1 && !TooManyHashes(|v.content|, c)
    requires NoCollision(v.content, w.content, c.bs, hash)
    modifies m
    ensures m.files == Files(Some(Block(w.content, c.bs, 0)), Some(MetaOf(v)), Some(v.content))
  {
    var hashes := HashBlocks(v.content, c.bs, hash);
    var f := NO_DELTA_FAULTS.(removeMeta := true);
    var fs := [DeltaResp(0, |w.content|, w.mtime), BlockFrame(w.content, c.bs, hashes, hash, 0)];
    assert m.inbox + fs == fs && fs[1..] == [BlockFrame(w.content, c.bs, hashes, hash, 0)];
    OneBlock(v.content, w, c.bs, hash, fs[1..], f);
    var r, fallback, saved := m.DeltaDownload(c, hash, fs, f, w);
  }

  /** A restore of u on an empty disk, cut behind its first data frame. */
  method PutOneFrame(c: Manager, u: Version, chunk: nat) returns (ghost d: Bytes)
    requires c.inbox == [] && c.files == Files(None, None, None) && chunk > 0 && u.content != []
    modifies c
    ensures c.inbox == [] && d != [] && d <= u.content && c.files == Files(Some(d), Some(MetaOf(u)), None)
  {
    var ok, sent := SendRestoreFile(c, u, chunk, _ => Read(chunk, More), 1, NO_FAULTS, true, {u}, None);
    assert sent == [FileData(sent[0].data)];
    OneFrame(sent[0].data, NO_FAULTS);
    d := sent[0].data;
    assert [] + d == d && u.content[0..] == u.content;
    c.inbox := [];
  }

  /**
   * By a restore. The restore of u is cut behind its first data frame; at the next one, of v, removing
   * those bytes fails, and once they are described as v's the partial file cannot be opened; the third, of v
   * again and with no failing step, resumes behind them and is taken for a success.
   */
  method StalePut(tol: int, u: Version, v: Version, chunk: nat)
    returns (c: Manager, ok: bool, ghost d: Bytes, ghost bad: Files)
    requires tol >= 0 && chunk > 0 && 0 < |u.content| <= |v.content| && u.content[0] != v.content[0]
    requires SameMeansSame({u, v}, tol) && !Matches(MetaOf(u), |v.content|, v.mtime, tol)
    ensures bad == Files(Some(d), Some(MetaOf(v)), None) && !Safe(bad, {u, v}, None)
    ensures d <= u.content && |d| <= |v.content|
    ensures fresh(c) && ok && c.files.target == Some(Completed(d, v)) && Completed(d, v) != v.content
  {
    c := new Manager(tol, Files(None, None, None));
    d := PutOneFrame(c, u, chunk);
    assert d[0] != v.content[0];
    var sent;
    ok, sent := SendRestoreFile(c, v, chunk, _ => Read(chunk, More), 0, NO_FAULTS.(removePart := true, open := true),
                                true, {u, v}, None);
    c.inbox := [];
    bad := c.files;
    CompletedIsWrong(d, v);
    assert ResumeOffset(bad, NO_FAULTS, MetaOf(v), tol) == |d|;
    assert Saved(bad)[..|d|] == d;
    ok, sent := SendRestoreFile(c, v, chunk, _ => Read(chunk, More), |v.content| + 1, NO_FAULTS, true, {u, v}, None);
  }
}
