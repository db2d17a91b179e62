/**
 * Restore of one file, server to client. The client's handlePut receives as the server's downloads do
 * (same partial file, description and receive loop, other replies), so its disk and its receive loop
 * are a Download.Manager; the server's sending loop is the one that answers GET.
 */
module Restore {
  import opened Basics
  import opened Frames
  import opened Serving
  import opened Resume
  import opened GetRules
  import opened Download

  /** The offset the client answers. */
  function ResumeOffset(b: Files, f: Faults, m: Meta, tol: int): (r: nat)
    ensures r <= m.total && (r == 0 || r == |Saved(b)|)
  {
    if Saved(b) != [] && CanResume(Seen(b, f), m.total, m.mtime, tol) && |Saved(b)| <= m.total then |Saved(b)| else 0
  }

  /** The disk once the offset is chosen: saved bytes that do not fit have been thrown away, as far as that worked. */
  function Cleared(b: Files, f: Faults, m: Meta, tol: int): Files {
    if Saved(b) == [] || ResumeOffset(b, f, m, tol) > 0 then b else Discarded(b, f)
  }

  /** The disk once the file has been described, before it is opened. */
  function Labelled(b: Files, f: Faults, m: Meta, tol: int): Files {
    var e := Cleared(b, f, m, tol);
    e.(meta := MetaAfter(m, f.meta, e.meta))
  }

  /** The old description stays beside new bytes, because writing the new one failed unnoticed. */
  function StalePut(b: Files, f: Faults, m: Meta, tol: int): Option<Meta> {
    if f.meta.Unchanged? && ResumeOffset(b, f, m, tol) == 0 then Cleared(b, f, m, tol).meta else None
  }

  /** The temporary directory is there and the first reply got out. */
  predicate Replies(f: Faults) {
    !f.tempDir && !f.send
  }

  /** The bytes received in this attempt. */
  function AddsPut(sent: seq<Frame>, f: Faults): Bytes {
    if Replies(f) && Opens(f) then Gained(sent, f) else []
  }

  /** Old bytes that could not be removed do not come to stand beside the new description of another version. */
  ghost predicate LabelIsTrue(b: Files, f: Faults, m: Meta, tol: int, versions: set<Version>) {
    Replies(f) && f.meta.Written? && ResumeOffset(b, f, m, tol) == 0 ==>
      Described(Some(m), Saved(Cleared(b, f, m, tol)), versions)
  }

  /** The disk at the end of an attempt that reached the end marker: the last step that fails decides. */
  function PutFinished(held: Files, total: nat, f: Faults): Files {
    if f.sync then held
    else if f.stat || |Saved(held)| != total then Discarded(held, f)
    else if f.targetDir || f.rename then held
    else Files(None, if f.removeMeta then held.meta else None, held.part)
  }

  /** The version is one of the given ones, which size and time tell apart, and the disk was safe among them. */
  ghost predicate Trusts(b: Files, v: Version, versions: set<Version>, was: Option<Bytes>, tol: int) {
    v in versions && Safe(b, versions, was) && SameMeansSame(versions, tol)
  }

  /** On a safe disk the bytes kept begin the version. */
  lemma KeptIsPrefix(b: Files, v: Version, f: Faults, versions: set<Version>, was: Option<Bytes>, tol: int)
    requires Trusts(b, v, versions, was, tol)
    ensures Saved(b)[..ResumeOffset(b, f, MetaOf(v), tol)] <= v.content
  {
    if ResumeOffset(b, f, MetaOf(v), tol) > 0 {
      SavedIsPrefix(b, v, versions, was, tol);
      assert Saved(b)[..|Saved(b)|] == Saved(b);
    }
  }

  /** handlePut up to its first reply: which saved bytes are kept. */
  method ChooseOffset(c: Manager, m: Meta, faults: Faults, ghost versions: set<Version>, ghost was: Option<Bytes>)
    returns (resume: nat)
    requires c.Logged()
    modifies c`files, c`trace
    ensures resume == ResumeOffset(old(c.files), faults, m, c.tolerance)
    ensures c.files == Cleared(old(c.files), faults, m, c.tolerance) && c.Logged()
    ensures old(c.StaysSafe(versions, was)) ==> c.StaysSafe(versions, was)
  {
    resume := |Saved(c.files)|;
    assert c.files in c.trace;
    if resume > 0 {
      var changed := !CanResume(Seen(c.files, faults), m.total, m.mtime, c.tolerance);
      if changed || resume > m.total {
        c.RemovePart(faults.removePart);
        c.RemoveMeta(faults.removeMeta);
        resume := 0;
      }
    }
  }

  /** handlePut from its first reply to the receive loop: describe, open, cut to the offset. */
  method OpenAt(c: Manager, v: Version, resume: nat, faults: Faults,
                ghost b: Files, ghost versions: set<Version>, ghost was: Option<Bytes>)
    returns (ready: bool)
    requires c.files == Cleared(b, faults, MetaOf(v), c.tolerance) && Replies(faults)
    requires resume == ResumeOffset(b, faults, MetaOf(v), c.tolerance) && c.Logged()
    modifies c`files, c`trace
    ensures c.Logged()
    ensures Trusts(b, v, versions, was, c.tolerance) && old(c.StaysSafe(versions, was)) ==>
              (c.StaysSafe(versions, was) <==> LabelIsTrue(b, faults, MetaOf(v), c.tolerance, versions))
    ensures ready <==> Opens(faults)
    ensures var l := Labelled(b, faults, MetaOf(v), c.tolerance);
            c.files == if ready then l.(part := Some(Saved(b)[..resume])) else l
  {
    if Trusts(b, v, versions, was, c.tolerance) {
      KeptIsPrefix(b, v, faults, versions, was, c.tolerance);
    }
    c.WriteMeta(MetaOf(v), faults.meta);
    ghost var labelled := c.files;
    assert labelled in c.trace;
    if faults.open || faults.seek {
      return false;
    }
    assert Saved(b)[..|Saved(b)|] == Saved(b);
    c.Put(c.files.(part := Some(Saved(c.files)[..resume])));
    assert labelled in c.trace;
    return true;
  }

  /** handlePut after the end marker. None means an ERROR reply, otherwise the final status. */
  method FinishPut(c: Manager, total: nat, faults: Faults, ghost o: Option<Origin>, ghost y: Bytes)
    returns (status: Option<nat>)
    requires c.files.part.Some? && c.Traced(o, y)
    requires o.Some? ==> Saved(c.files) <= o.value.version.content && total == |o.value.version.content|
    modifies c`files, c`trace
    ensures c.Traced(o, y) && old(c.files) in c.trace
    ensures c.files == PutFinished(old(c.files), total, faults)
    ensures status == Some(0)
            <==> |Saved(old(c.files))| == total && !faults.sync && !faults.stat && !faults.targetDir && !faults.rename
  {
    if o.Some? {
      c.PresentPasses(o.value, y);
    }
    if faults.sync {
      return None;
    }
    if faults.stat || |Saved(c.files)| != total {
      c.RemovePart(faults.removePart);
      c.RemoveMeta(faults.removeMeta);
      return Some(1);
    }
    assert o.Some? ==> Saved(c.files) == o.value.version.content;
    if faults.targetDir || faults.rename {
      return None;
    }
    c.Put(Files(None, c.files.meta, c.files.part));
    c.RemoveMeta(faults.removeMeta);
    return Some(0);
  }

  function Sent(body: seq<Frame>, failed: bool, carried: nat): seq<Frame> {
    var all := if failed then body else body + [FileEnd];
    if carried < |all| then all[..carried] else all
  }

  /**
   * What arrives is what the connection carries of the reads' bytes and the end marker; a failed read ends
   * it without one. None of the frames is empty.
   */
  ghost predicate Begins(v: Version, resume: nat, chunk: nat, input: nat -> Read, carried: nat, fs: seq<Frame>)
    requires resume <= |v.content|
  {
    && (exists body, failed :: DataRun(body) == |body| && Chunked(body, chunk)
                               && StreamOf(body, failed, v.content, resume, chunk, input)
                               && fs == Sent(body, failed, carried))
    && |fs| <= carried && NoEmptyData(fs)
    && ((forall i :: input(i).end.More?) && carried > 0 && resume < |v.content| ==> fs != [] && fs[0].FileData?)
  }

  /**
   * The server's data for a resume offset: sendRestoreFile's loop, of which the connection carries the first
   * frames.
   */
  method Stream(v: Version, resume: nat, chunk: nat, input: nat -> Read, carried: nat) returns (fs: seq<Frame>)
    requires resume <= |v.content| && chunk > 0 && forall i :: input(i).n > 0 || !input(i).end.More?
    ensures Payload(fs) <= v.content[resume..] && StreamTail(fs)
    ensures (forall i :: input(i).end.More?) && carried > |v.content| ==>
              DataRun(fs) < |fs| && fs[DataRun(fs)].FileEnd? && Payload(fs) == v.content[resume..]
    ensures Begins(v, resume, chunk, input, carried, fs)
  {
    var body, failed := StreamFile(v.content, resume, chunk, input);
    AppendLast(body, FileEnd);
    var all := if failed then body else body + [FileEnd];
    assert StreamOf(body, failed, v.content, resume, chunk, input);
    if carried >= |all| {
      return all;
    }
    fs := all[..carried];
    CutData(body, carried);
    assert fs == body[..carried];
    PrefixOfPrefix(Payload(fs), Payload(body), v.content[resume..]);
  }

  lemma CutData(body: seq<Frame>, k: nat)
    requires k <= |body| == DataRun(body)
    ensures DataRun(body[..k]) == k && Payload(body[..k]) <= Payload(body)
  {
    RunIs(body[..k], k);
    CarriedAgrees(body[..k], body, k);
    CarriedGrows(body, k, |body|);
  }

  /** Where the receive loop starts from, for the bytes to be received: the disk before, or the one just emptied. */
  function PutOrigin(b: Files, emptied: Files, v: Version, f: Faults, tol: int): Origin {
    Origin(if ResumeOffset(b, f, MetaOf(v), tol) > 0 then b else emptied, v, StalePut(b, f, MetaOf(v), tol))
  }

  /** The disk once the frames have been received, as far as they go. */
  function PutHeld(b: Files, sent: seq<Frame>, v: Version, f: Faults, tol: int): Files {
    var m := MetaOf(v);
    var resume := ResumeOffset(b, f, m, tol);
    Labelled(b, f, m, tol).(part := Some(Saved(b)[..resume] + Gained(sent, f)))
  }

  /** The opened partial file is one an attempt passes through, and ready to be extended. */
  lemma PutBegins(c: Manager, b: Files, o: Origin, v: Version, resume: nat, faults: Faults)
    requires resume == ResumeOffset(b, faults, MetaOf(v), c.tolerance) && Saved(b)[..resume] <= v.content
    requires c.files == Labelled(b, faults, MetaOf(v), c.tolerance).(part := Some(Saved(b)[..resume]))
             && c.trace == [c.files]
    requires o == PutOrigin(b, c.files, v, faults, c.tolerance)
    ensures c.Traced(Some(o), Saved(c.files)) && c.Extending(o, [])
    ensures Saved(o.before) == Saved(b)[..resume]
  {
    assert Saved(b)[..resume] + [] == Saved(b)[..resume];
    if resume > 0 {
      assert Saved(b)[..resume] == Saved(b);
      c.DescribedPasses(b, o, MetaOf(v), faults, c.files);
      PassWidens(o, c.tolerance, [], Saved(c.files), c.files);
    }
  }

  /** The receive loop and the end of handlePut. With an origin, the bytes continue what it starts from. */
  method ReceiveAll(c: Manager, total: nat, faults: Faults, ghost o: Option<Origin>) returns (status: Option<nat>)
    requires c.files.part.Some? && c.Traced(o, Saved(c.files)) && Fits(c.inbox, |Saved(c.files)|, total, faults)
    requires o.Some? ==> c.Extending(o.value, []) && c.ReceivesFor(o.value, c.inbox, total)
                         && Saved(c.files) == Saved(o.value.before) <= o.value.version.content
    modifies c
    ensures c.Traced(o, Saved(old(c.files)) + Gained(old(c.inbox), faults))
    ensures var held := old(c.files).(part := Some(Saved(old(c.files)) + Gained(old(c.inbox), faults)));
            held in c.trace && c.files == if Received(old(c.inbox), |Saved(old(c.files))|, total, faults)
                                          then PutFinished(held, total, faults) else held
    ensures status == Some(0) <==> Received(old(c.inbox), |Saved(old(c.files))|, total, faults)
                                   && |Saved(old(c.files))| + |Payload(old(c.inbox))| == total
                                   && !faults.sync && !faults.stat && !faults.targetDir && !faults.rename
  {
    ghost var sent, base := c.inbox, Saved(c.files);
    var stop := c.Receive(total, faults, o);
    if stop.Some? {
      return Some(1);
    }
    ReceivedWhole(sent, |base|, total, faults);
    if o.Some? {
      Continues(base, Payload(sent), o.value.version.content);
    }
    status := FinishPut(c, total, faults, o, Saved(c.files));
  }

  /** The disk at the end, for the frames received behind an opened partial file. */
  function PutEnds(b: Files, sent: seq<Frame>, v: Version, f: Faults, tol: int): Files {
    var held := PutHeld(b, sent, v, f, tol);
    if Received(sent, ResumeOffset(b, f, MetaOf(v), tol), |v.content|, f) then PutFinished(held, |v.content|, f)
    else held
  }

  /** Every disk state of the client is safe: the exact condition on its disk, what arrives and what fails. */
  ghost predicate KeepsSafe(b: Files, v: Version, sent: seq<Frame>, f: Faults, tol: int, versions: set<Version>) {
    && LabelIsTrue(b, f, MetaOf(v), tol, versions)
    && Described(StalePut(b, f, MetaOf(v), tol), AddsPut(sent, f), versions)
  }

  /** The client takes the file: all of it arrives behind the offset and no step fails. */
  predicate PutSucceeds(b: Files, v: Version, sent: seq<Frame>, f: Faults, tol: int) {
    var resume := ResumeOffset(b, f, MetaOf(v), tol);
    && Replies(f) && Opens(f) && !f.sync && !f.stat && !f.targetDir && !f.rename
    && Received(sent, resume, |v.content|, f) && resume + |Payload(sent)| == |v.content|
  }

  /** handlePut from the opened partial file on, for the frames on the connection. */
  method ReceivePut(c: Manager, v: Version, resume: nat, faults: Faults,
                    ghost b: Files, ghost versions: set<Version>, ghost was: Option<Bytes>)
    returns (status: Option<nat>)
    requires Replies(faults) && Opens(faults) && resume == ResumeOffset(b, faults, MetaOf(v), c.tolerance)
    requires c.files == Labelled(b, faults, MetaOf(v), c.tolerance).(part := Some(Saved(b)[..resume]))
             && c.trace == [c.files]
    requires Payload(c.inbox) <= v.content[resume..]
    modifies c
    ensures c.Logged() && c.files == PutEnds(b, old(c.inbox), v, faults, c.tolerance)
    ensures Trusts(b, v, versions, was, c.tolerance) ==>
              (c.StaysSafe(versions, was)
               <==> Described(StalePut(b, faults, MetaOf(v), c.tolerance), Gained(old(c.inbox), faults), versions))
    ensures status == Some(0) <==> PutSucceeds(b, v, old(c.inbox), faults, c.tolerance)
  {
    ghost var sent, base := c.inbox, Saved(c.files);
    HonestFits(sent, v.content, |base|, faults);
    ghost var trusts := Trusts(b, v, versions, was, c.tolerance);
    ghost var o := PutOrigin(b, c.files, v, faults, c.tolerance);
    ghost var y := Gained(sent, faults);
    if trusts {
      KeptIsPrefix(b, v, faults, versions, was, c.tolerance);
      PutBegins(c, b, o, v, resume, faults);
    }
    status := ReceiveAll(c, |v.content|, faults, if trusts then Some(o) else None);
    if trusts {
      assert o.stale.Some? ==> base + y == y;
      c.Widen(Some(o), base + y, y);
      c.SafeIff(o, y, versions, was);
    }
  }

  /** The client's disk at the end of the attempt, wherever it stopped. */
  function PutLeaves(b: Files, v: Version, sent: seq<Frame>, f: Faults, tol: int): Files {
    var m := MetaOf(v);
    if f.tempDir then b
    else if f.send then Cleared(b, f, m, tol)
    else if !Opens(f) then Labelled(b, f, m, tol)
    else PutEnds(b, sent, v, f, tol)
  }

  /** The bytes kept, then the rest of v, have become the file; that is v exactly when the bytes kept begin it. */
  predicate Took(b: Files, v: Version, resume: nat, end: Files)
    requires resume <= |Saved(b)| && resume <= |v.content|
  {
    && end.part.None? && end.target == Some(Saved(b)[..resume] + v.content[resume..])
    && (end.target == Some(v.content) <==> Saved(b)[..resume] <= v.content)
  }

  /** What the client took for the file is the server's version exactly when the bytes it kept begin that version. */
  lemma TakenIsExact(b: Files, v: Version, sent: seq<Frame>, f: Faults, tol: int)
    requires PutSucceeds(b, v, sent, f, tol) && Payload(sent) <= v.content[ResumeOffset(b, f, MetaOf(v), tol)..]
    ensures var resume, end := ResumeOffset(b, f, MetaOf(v), tol), PutLeaves(b, v, sent, f, tol);
            Took(b, v, resume, end)
  {
    var resume := ResumeOffset(b, f, MetaOf(v), tol);
    ReceivedWhole(sent, resume, |v.content|, f);
    WholeFile([], Payload(sent), v.content[resume..]);
    assert [] + Payload(sent) == Payload(sent) && v.content[resume..][0..] == v.content[resume..];
    if Saved(b)[..resume] <= v.content {
      WholeFile(Saved(b)[..resume], Payload(sent), v.content);
    }
  }

  /** Nothing local keeps the file from being received: what fails comes before or after its data. */
  predicate Receives(f: Faults) {
    && !f.metaRead && f.meta == Written && !f.removePart && !f.removeMeta
    && f.cancelAt.None? && f.writeAt.None?
  }

  /**
   * What becomes of the client's disk, in bytes, sizes and times: saved bytes described with the announced
   * size, and its time within the tolerance, are continued, others thrown away before the first reply. What
   * stops the reception keeps everything received, described as announced, unless the end came at another
   * size or the size cannot be found out: then it goes too.
   */
  lemma WhatPutLeaves(b: Files, v: Version, sent: seq<Frame>, f: Faults, tol: int)
    requires Receives(f)
    requires Payload(sent) <= v.content[ResumeOffset(b, f, MetaOf(v), tol)..]
    ensures var m, n := Meta(|v.content|, v.mtime), DataRun(sent);
            var resumes := && Saved(b) != [] && b.meta.Some? && b.meta.value.total == |v.content| >= |Saved(b)|
                           && -tol <= b.meta.value.mtime - v.mtime <= tol;
            var cleared := if Saved(b) == [] || resumes then b else Files(None, None, b.target);
            var all := (if resumes then Saved(b) else []) + Payload(sent);
            var held, end := Files(Some(all), Some(m), b.target), PutLeaves(b, v, sent, f, tol);
            var reached := !f.tempDir && !f.send && !f.open && !f.seek && n < |sent| && sent[n].FileEnd?;
            && end == (if f.tempDir then b
                       else if f.send then cleared
                       else if f.open || f.seek then cleared.(meta := Some(m))
                       else if !reached || f.sync then held
                       else if f.stat || |all| != |v.content| then Files(None, None, b.target)
                       else if f.targetDir || f.rename then held
                       else Files(None, None, Some(all)))
            && (PutSucceeds(b, v, sent, f, tol)
                <==> reached && !f.sync && !f.stat && |all| == |v.content| && !f.targetDir && !f.rename)
  {
    var resume := ResumeOffset(b, f, MetaOf(v), tol);
    HonestFits(sent, v.content, resume, f);
    assert Payload(sent) + [] == Payload(sent) && Saved(b)[..|Saved(b)|] == Saved(b) && Saved(b)[..0] == [];
  }

  /** A file that all arrives is taken when no step fails. */
  lemma UndisturbedPut(b: Files, v: Version, sent: seq<Frame>, tol: int)
    ensures DataRun(sent) < |sent| && sent[DataRun(sent)].FileEnd?
            && Payload(sent) == v.content[ResumeOffset(b, NO_FAULTS, MetaOf(v), tol)..] ==>
              PutSucceeds(b, v, sent, NO_FAULTS, tol)
  {
    if Payload(sent) == v.content[ResumeOffset(b, NO_FAULTS, MetaOf(v), tol)..] {
      HonestFits(sent, v.content, ResumeOffset(b, NO_FAULTS, MetaOf(v), tol), NO_FAULTS);
    }
  }

  lemma JoinedIsSafe(early: seq<Files>, late: seq<Files>, versions: set<Version>, was: Option<Bytes>)
    ensures (forall a | a in early + late :: Safe(a, versions, was))
      <==> (forall a | a in early :: Safe(a, versions, was)) && (forall a | a in late :: Safe(a, versions, was))
  {
    assert forall a | a in early :: a in early + late;
    assert forall a | a in late :: a in early + late;
  }

  /** handlePut once its first reply is out, against the server's sending loop. */
  method Transfer(c: Manager, v: Version, resume: nat, chunk: nat, input: nat -> Read, carried: nat, faults: Faults,
                  ghost b: Files, ghost versions: set<Version>, ghost was: Option<Bytes>)
    returns (status: Option<nat>, sent: seq<Frame>)
    requires chunk > 0 && (forall i :: input(i).n > 0 || !input(i).end.More?) && Replies(faults)
    requires c.files == Cleared(b, faults, MetaOf(v), c.tolerance) && c.Logged()
    requires resume == ResumeOffset(b, faults, MetaOf(v), c.tolerance)
    modifies c
    ensures c.Logged() && c.files == PutLeaves(b, v, sent, faults, c.tolerance)
    ensures status == Some(0) <==> PutSucceeds(b, v, sent, faults, c.tolerance)
    ensures Trusts(b, v, versions, was, c.tolerance) && old(c.StaysSafe(versions, was)) ==>
              (c.StaysSafe(versions, was) <==> KeepsSafe(b, v, sent, faults, c.tolerance, versions))
    ensures (forall i :: input(i).end.More?) && carried > |v.content| && Opens(faults) ==>
              DataRun(sent) < |sent| && sent[DataRun(sent)].FileEnd? && Payload(sent) == v.content[resume..]
    ensures Opens(faults) ==> Begins(v, resume, chunk, input, carried, sent)
    ensures Payload(sent) <= v.content[resume..]
  {
    sent := [];
    var ready := OpenAt(c, v, resume, faults, b, versions, was);
    if !ready {
      return None, sent;
    }
    ghost var early := c.trace;
    c.trace := [c.files];
    sent := Stream(v, resume, chunk, input, carried);
    c.inbox := sent;
    status := ReceivePut(c, v, resume, faults, b, versions, was);
    ghost var late := c.trace;
    JoinedIsSafe(early, late, versions, was);
    c.trace := early + late;
  }

  /**
   * sendRestoreFile against handlePut, whatever is on the client's disk; `sent` is what arrives of the
   * server's data. The announced size is never below the answered offset, so the sender's own reset is
   * never needed and both sides work from the same offset. A final status 0 means that the client's file is
   * the server's, exactly when the bytes kept begin it; they do on every safe disk.
   */
  method SendRestoreFile(c: Manager, v: Version, chunk: nat, input: nat -> Read, carried: nat, faults: Faults,
                         replied: bool,
                         ghost versions: set<Version>, ghost was: Option<Bytes>)
    returns (ok: bool, sent: seq<Frame>)
    requires c.inbox == [] && chunk > 0 && forall i :: input(i).n > 0 || !input(i).end.More?
    modifies c
    ensures ok <==> replied && PutSucceeds(old(c.files), v, sent, faults, c.tolerance)
    ensures ok ==> Took(old(c.files), v, ResumeOffset(old(c.files), faults, MetaOf(v), c.tolerance), c.files)
    ensures (forall i :: input(i).end.More?) && carried > |v.content| && faults == NO_FAULTS && replied ==> ok
    ensures c.Logged() && c.files == PutLeaves(old(c.files), v, sent, faults, c.tolerance)
    ensures var resume := ResumeOffset(old(c.files), faults, MetaOf(v), c.tolerance);
            Payload(sent) <= v.content[resume..]
              && (Replies(faults) && Opens(faults) ==> Begins(v, resume, chunk, input, carried, sent))
    ensures Trusts(old(c.files), v, versions, was, c.tolerance) ==>
              && (ok ==> c.files.target == Some(v.content))
              && (c.StaysSafe(versions, was) <==> KeepsSafe(old(c.files), v, sent, faults, c.tolerance, versions))
  {
    ghost var b := c.files;
    ok, sent := false, [];
    c.trace := [c.files];
    if faults.tempDir {
      return;
    }
    var resume := ChooseOffset(c, MetaOf(v), faults, versions, was);
    if faults.send {
      return;
    }
    var status;
    status, sent := Transfer(c, v, resume, chunk, input, carried, faults, b, versions, was);
    ok := status == Some(0) && replied;
    if ok {
      TakenIsExact(b, v, sent, faults, c.tolerance);
    }
    if Trusts(b, v, versions, was, c.tolerance) {
      KeptIsPrefix(b, v, faults, versions, was, c.tolerance);
    }
    if faults == NO_FAULTS {
      UndisturbedPut(b, v, sent, c.tolerance);
    }
  }
}
