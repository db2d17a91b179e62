/**
 * Resumable reception of one file: the partial file, its description, and the target. Shared by the
 * server's download and the client's restore. A run is a sequence of attempts, each served one
 * version of the file and stopped, by an error or a crash, in any state it passes through.
 */
module Resume {
  import opened Basics
  import opened Frames

  datatype Meta = Meta(total: nat, mtime: int)

  function MetaOf(v: Version): Meta {
    Meta(|v.content|, v.mtime)
  }

  /** What is on disk for one path. `meta` is None when there is no readable description. */
  datatype Files = Files(part: Option<Bytes>, meta: Option<Meta>, target: Option<Bytes>)

  /** The saved bytes; their number is the resume offset. */
  function Saved(f: Files): Bytes {
    if f.part.Some? then f.part.value else []
  }

  /** The description fits an announced version: equal size, times within the tolerance. */
  predicate Matches(m: Meta, total: nat, mtime: int, tol: int) {
    m.total == total && Abs(m.mtime - mtime) <= tol
  }

  predicate CanResume(f: Files, total: nat, mtime: int, tol: int) {
    Saved(f) == [] || (f.meta.Some? && Matches(f.meta.value, total, mtime, tol))
  }

  /** The hypothesis on the owner of the file: size and time identify the content. */
  ghost predicate SameMeansSame(versions: set<Version>, tol: int) {
    forall v, w | v in versions && w in versions ::
      Matches(MetaOf(v), |w.content|, w.mtime, tol) ==> v.content == w.content
  }

  // ---- One attempt ----

  /** The disk states an attempt that is served version w passes through, seen from its start. */
  predicate Reach(b: Files, w: Version, tol: int, a: Files) {
    && (a.target == b.target || a.target == Some(w.content))
    && (Untouched(b, a) || Emptied(a) || Fresh(w, a) || Extended(b, w, tol, a))
  }

  predicate Untouched(b: Files, a: Files) {
    a.part == b.part && (a.meta == b.meta || a.meta.None?)
  }

  predicate Emptied(a: Files) {
    Saved(a) == []
  }

  /** A partial file begun in this attempt. */
  predicate Fresh(w: Version, a: Files) {
    Saved(a) <= w.content && (a.meta.None? || a.meta == Some(MetaOf(w)))
  }

  /** The saved bytes kept, some of w's bytes from there on added. */
  predicate Extended(b: Files, w: Version, tol: int, a: Files) {
    && CanResume(b, |w.content|, w.mtime, tol) && |Saved(b)| <= |w.content|
    && Saved(b) <= Saved(a) && Saved(a)[|Saved(b)|..] <= w.content[|Saved(b)|..]
    && (a.meta.None? || a.meta == Some(MetaOf(w)) || (Saved(b) != [] && a.meta == b.meta))
  }

  /** Bytes y beside description m say nothing wrong: one of the two is missing, or y begins a version so described. */
  ghost predicate Described(m: Option<Meta>, y: Bytes, versions: set<Version>) {
    y == [] || m.None? || exists v :: v in versions && m == Some(MetaOf(v)) && y <= v.content
  }

  /**
   * A non-empty partial file with a readable description is a prefix of a version it describes; the
   * target is the copy from before the run or one complete version.
   */
  ghost predicate Safe(f: Files, versions: set<Version>, was: Option<Bytes>) {
    && Described(f.meta, Saved(f), versions)
    && (f.target == was || exists v :: v in versions && f.target == Some(v.content))
  }

  lemma SavedIsPrefix(b: Files, w: Version, versions: set<Version>, was: Option<Bytes>, tol: int)
    requires Safe(b, versions, was) && w in versions && SameMeansSame(versions, tol)
    requires CanResume(b, |w.content|, w.mtime, tol)
    ensures Saved(b) <= w.content
  {
  }

  lemma AttemptKeepsSafe(b: Files, w: Version, a: Files, versions: set<Version>, was: Option<Bytes>, tol: int)
    requires Safe(b, versions, was) && w in versions && SameMeansSame(versions, tol) && Reach(b, w, tol, a)
    ensures Safe(a, versions, was)
  {
  }

  // ---- Ignored errors ----

  /**
   * Where an attempt starts: the disk, the version it is served, and the description that stays on the
   * disk because an error in replacing or removing it is ignored.
   */
  datatype Origin = Origin(before: Files, version: Version, stale: Option<Meta>)

  /** A disk state of the attempt when at most the bytes y are written beside the stale description. */
  predicate Passes(o: Origin, tol: int, y: Bytes, a: Files) {
    Reach(o.before, o.version, tol, a) || (o.stale.Some? && Stray(o, y, a))
  }

  predicate Stray(o: Origin, y: Bytes, a: Files) {
    a.target == o.before.target && a.meta == o.stale && Saved(a) <= y
  }

  lemma PassWidens(o: Origin, tol: int, y: Bytes, z: Bytes, a: Files)
    requires Passes(o, tol, y, a) && (y <= z || o.stale.None?)
    ensures Passes(o, tol, z, a)
  {
    if o.stale.Some? && Stray(o, y, a) {
      PrefixOfPrefix(Saved(a), y, z);
    }
  }

  lemma PrefixOfPrefix(x: Bytes, y: Bytes, z: Bytes)
    requires x <= y && y <= z
    ensures x <= z
  {
  }

  /** Bytes that begin a version the stale description describes leave every state safe. */
  lemma PassKeepsSafe(o: Origin, y: Bytes, a: Files, versions: set<Version>, was: Option<Bytes>, tol: int)
    requires Safe(o.before, versions, was) && o.version in versions && SameMeansSame(versions, tol)
    requires Passes(o, tol, y, a) && Described(o.stale, y, versions)
    ensures Safe(a, versions, was)
  {
    if Reach(o.before, o.version, tol, a) {
      AttemptKeepsSafe(o.before, o.version, a, versions, was, tol);
    } else if y != [] {
      var v :| v in versions && o.stale == Some(MetaOf(v)) && y <= v.content;
      PrefixOfPrefix(Saved(a), y, v.content);
    }
  }

  // ---- Runs ----

  /** states[i + 1] is any state attempt i passes through: its last one, or where a crash stopped it. */
  ghost predicate IsRun(states: seq<Files>, served: seq<Version>, tol: int) {
    |states| == |served| + 1 && forall i | 0 <= i < |served| :: Reach(states[i], served[i], tol, states[i + 1])
  }

  /** Resume safety over every run of interrupted attempts, in every state of the run. */
  lemma {:induction false} ResumeSafety(states: seq<Files>, served: seq<Version>, versions: set<Version>, tol: int,
                                        k: nat)
    requires IsRun(states, served, tol) && k < |states|
    requires SameMeansSame(versions, tol) && forall w | w in served :: w in versions
    requires Safe(states[0], versions, states[0].target)
    ensures Safe(states[k], versions, states[0].target)
  {
    if k > 0 {
      ResumeSafety(states, served, versions, tol, k - 1);
      AttemptKeepsSafe(states[k - 1], served[k - 1], states[k], versions, states[0].target, tol);
    }
  }

  /** The saved bytes completed by bytes of the current version are that version, for safe disks. */
  lemma CompletionIsExact(b: Files, w: Version, more: Bytes, versions: set<Version>, was: Option<Bytes>, tol: int)
    requires Safe(b, versions, was) && w in versions && SameMeansSame(versions, tol)
    requires CanResume(b, |w.content|, w.mtime, tol)
    requires |Saved(b) + more| == |w.content| && more <= w.content[|Saved(b)|..]
    ensures Saved(b) + more == w.content
  {
  }

  /**
   * Without the hypothesis the guarantee fails, for every pair of versions that breaks it: stop on the
   * first after its first differing byte, resume on the second, and the result is neither.
   */
  lemma LookalikeMixes(v: Version, w: Version, tol: int, k: nat)
    requires Matches(MetaOf(v), |w.content|, w.mtime, tol) && k < |v.content| && v.content[k] != w.content[k]
    ensures var b := Files(Some(v.content[..k + 1]), Some(MetaOf(v)), None);
            && Safe(b, {v, w}, None) && CanResume(b, |w.content|, w.mtime, tol)
            && Saved(b) + w.content[k + 1..] != w.content
            && (Saved(b) + w.content[k + 1..] == v.content <==> v.content[k + 1..] == w.content[k + 1..])
  {
  }

  /**
   * A description of v beside the first bytes of another version w is not safe: v, when it returns, is
   * completed from them wrongly.
   */
  lemma LeftoverMetaMixes(v: Version, w: Version, target: Option<Bytes>, tol: int, k: nat)
    requires tol >= 0 && |v.content| > k && |w.content| > k && w.content[k] != v.content[k]
    ensures var b := Files(Some(w.content[..k + 1]), Some(MetaOf(v)), target);
            && !Described(b.meta, Saved(b), {v}) && CanResume(b, |v.content|, v.mtime, tol)
            && Saved(b) + v.content[k + 1..] != v.content
  {
  }
}
