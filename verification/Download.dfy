/**
 * One download attempt, step by step: the server's side of GET and of delta, with saved partial files,
 * every fallible step and every disk state in between. `answer` is what the client's reply adds to the
 * connection, possibly cut short; frames an earlier request left unread come before it.
 */
module Download {
  import opened Basics
  import opened Frames
  import opened Delta
  import opened Serving
  import opened Resume
  import opened GetRules
  import opened DeltaRules

  /** The outcome of reading neither data nor the end marker. */
  function Unexpected(f: Option<Frame>): (r: Outcome)
    ensures !r.ok && !r.skipNow && (r.dropConn <==> f.None? || !f.value.Error?)
  {
    match f
    case None => Dropped(IOError)
    case Some(Error(code)) => Refuse(code)
    case _ => Dropped(ProtocolError)
  }

  class Manager {
    const tolerance: int
    var files: Files
    var inbox: seq<Frame>
    var index: Option<Meta>
    var done: bool
    ghost var trace: seq<Files>

    constructor (tol: int, start: Files)
      ensures tolerance == tol && files == start && inbox == [] && index.None? && !done && trace == []
    {
      tolerance, files, inbox, index, done, trace := tol, start, [], None, false, [];
    }

    // ---- The trace ----

    /** The trace holds the disk states of the current attempt, the present one last. */
    ghost predicate Logged()
      reads this`files, this`trace
    {
      trace != [] && trace[|trace| - 1] == files
    }

    /**
     * Every disk state of the attempt is one the attempt from o passes through, with at most the bytes y
     * beside a stale description. None stands for an attempt that is not answered honestly, of which
     * nothing is claimed.
     */
    ghost predicate Traced(o: Option<Origin>, y: Bytes)
      reads this`files, this`trace
    {
      Logged() && (o.Some? ==> forall a | a in trace :: Passes(o.value, tolerance, y, a))
    }

    /** Every disk state of the attempt is safe. */
    ghost predicate StaysSafe(versions: set<Version>, was: Option<Bytes>)
      reads this`trace
    {
      forall a | a in trace :: Safe(a, versions, was)
    }

    lemma PresentPasses(o: Origin, y: Bytes)
      requires Traced(Some(o), y)
      ensures Passes(o, tolerance, y, files)
    {
      assert trace[|trace| - 1] in trace;
    }

    lemma Widen(o: Option<Origin>, y: Bytes, z: Bytes)
      requires Traced(o, y) && (o.Some? && o.value.stale.Some? ==> y <= z)
      ensures Traced(o, z)
    {
      if o.Some? {
        forall a | a in trace
          ensures Passes(o.value, tolerance, z, a)
        {
          PassWidens(o.value, tolerance, y, z, a);
        }
      }
    }

    /**
     * If all the bytes y have at some time stood beside the stale description, every state was safe exactly
     * when they begin a version it describes.
     */
    lemma SafeIff(o: Origin, y: Bytes, versions: set<Version>, was: Option<Bytes>)
      requires Traced(Some(o), y) && (o.stale.Some? && y != [] ==> Files(Some(y), o.stale, o.before.target) in trace)
      requires Safe(o.before, versions, was) && o.version in versions && SameMeansSame(versions, tolerance)
      ensures StaysSafe(versions, was) <==> Described(o.stale, y, versions)
    {
      if Described(o.stale, y, versions) {
        forall a | a in trace
          ensures Safe(a, versions, was)
        {
          PassKeepsSafe(o, y, a, versions, was, tolerance);
        }
      }
    }

    // ---- Steps ----

    /** The one place where the disk changes; the trace records every state. */
    method Put(next: Files)
      modifies `files, `trace
      ensures files == next && trace == old(trace) + [next]
    {
      files := next;
      trace := trace + [next];
    }

    method RemovePart(failed: bool)
      modifies `files, `trace
      ensures files == (if failed then old(files) else old(files).(part := None)) && trace == old(trace) + [files]
    {
      Put(if failed then files else files.(part := None));
    }

    method RemoveMeta(failed: bool)
      modifies `files, `trace
      ensures files == (if failed then old(files) else old(files).(meta := None)) && trace == old(trace) + [files]
    {
      Put(if failed then files else files.(meta := None));
    }

    method WriteMeta(m: Meta, fate: MetaFate)
      modifies `files, `trace
      ensures files == old(files).(meta := MetaAfter(m, fate, old(files).meta)) && trace == old(trace) + [files]
    {
      Put(files.(meta := MetaAfter(m, fate, files.meta)));
    }

    method Append(data: Bytes)
      modifies `files, `trace
      ensures files == old(files).(part := Some(Saved(old(files)) + data)) && trace == old(trace) + [files]
    {
      Put(files.(part := Some(Saved(files) + data)));
    }

    method ReadFrame() returns (f: Option<Frame>)
      modifies `inbox
      ensures old(inbox) == [] ==> f.None? && inbox == []
      ensures old(inbox) != [] ==> f == Some(old(inbox)[0]) && inbox == old(inbox)[1..]
    {
      if inbox == [] {
        return None;
      }
      f := Some(inbox[0]);
      inbox := inbox[1..];
    }

    // ---- GET ----

    /**
     * Bytes x of o's version stand behind the bytes saved before. The description is absent, the
     * version's, the one those bytes were saved under, or the stale one.
     */
    ghost predicate Extending(o: Origin, x: Bytes)
      reads this`files
    {
      var b, w := o.before, o.version;
      && CanResume(b, |w.content|, w.mtime, tolerance) && |Saved(b)| <= |w.content|
      && files.target == b.target && files.part == Some(Saved(b) + x) && x <= w.content[|Saved(b)|..]
      && (files.meta.None? || files.meta == Some(MetaOf(w)) || (Saved(b) != [] && files.meta == b.meta)
          || files.meta == o.stale)
    }

    /** Bytes x and n bytes of d behind the bytes saved before, where x + d are the version's next bytes. */
    lemma CutPasses(o: Origin, x: Bytes, d: Bytes, n: nat, a: Files)
      requires Extending(o, x) && n <= |d| && x + d <= o.version.content[|Saved(o.before)|..]
      requires a == files.(part := Some(Saved(files) + d[..n]))
      ensures Passes(o, tolerance, Saved(a), a)
    {
      Associate(Saved(o.before), x, d[..n]);
      assert x + d[..n] <= x + d;
    }

    /** One data frame of the receive loop; `cancelled` and `torn` say what happens to this frame. */
    method TakeData(data: Bytes, total: nat, cancelled: bool, torn: bool, faults: Faults, ghost o: Option<Origin>,
                    ghost x: Bytes)
      returns (stop: Option<Outcome>)
      requires files.part.Some? && Traced(o, Saved(files))
      requires o.Some? ==> Extending(o.value, x) && x + data <= o.value.version.content[|Saved(o.value.before)|..]
      requires o.Some? ==> total == |o.value.version.content|
      modifies `files, `trace
      ensures Traced(o, Saved(files)) && files.target == old(files).target
      ensures stop.None? <==> !cancelled && !torn && |Saved(old(files))| + |data| <= total
      ensures var kept := if cancelled then [] else if torn then data[..Min(faults.wrote, |data|)] else data;
              stop.None? || cancelled || torn ==> files == old(files).(part := Some(Saved(old(files)) + kept))
      ensures stop.Some? ==> !stop.value.ok && !stop.value.skipNow && (stop.value.dropConn <==> cancelled || !torn)
      ensures stop.Some? && !cancelled && !torn ==> ThrownAway(old(files), faults)
      ensures o.Some? && stop.None? ==> Extending(o.value, x + data)
    {
      if cancelled {
        assert Saved(files) + [] == Saved(files);
        return Some(Dropped(IOError));
      }
      var n := if torn then Min(faults.wrote, |data|) else |data|;
      assert data[..|data|] == data;
      Extend(data, n, o, x);
      if torn {
        return Some(Refuse(IOError));
      }
      if |Saved(files)| > total {
        RemovePart(faults.removePart);
        RemoveMeta(faults.removeMeta);
        return Some(Dropped(SizeMismatch));
      }
      return None;
    }

    /** Write the first n bytes of a data frame behind the saved bytes. */
    method Extend(data: Bytes, n: nat, ghost o: Option<Origin>, ghost x: Bytes)
      requires files.part.Some? && n <= |data| && Traced(o, Saved(files))
      requires o.Some? ==> Extending(o.value, x) && x + data <= o.value.version.content[|Saved(o.value.before)|..]
      modifies `files, `trace
      ensures files == old(files).(part := Some(Saved(old(files)) + data[..n])) && trace == old(trace) + [files]
      ensures Traced(o, Saved(files))
      ensures o.Some? ==> |Saved(files)| <= |o.value.version.content| && (n == |data| ==> Extending(o.value, x + data))
    {
      ghost var next := files.(part := Some(Saved(files) + data[..n]));
      Widen(o, Saved(files), Saved(next));
      if o.Some? {
        CutPasses(o.value, x, data, n, next);
        Associate(Saved(o.value.before), x, data);
        assert data[..|data|] == data;
      }
      Append(data[..n]);
    }

    /** Data frame i of the stream fs, behind the bytes `base` saved before it. */
    method ReceiveData(data: Bytes, i: nat, total: nat, faults: Faults, ghost fs: seq<Frame>, ghost base: Bytes,
                       ghost o: Option<Origin>)
      returns (stop: Option<Outcome>)
      requires i < DataRun(fs) && data == fs[i].data && SoFar(fs, |base|, total, faults, i)
      requires files.part == Some(base + Carried(fs, i)) && Traced(o, Saved(files))
      requires o.Some? ==> ReceivesFor(o.value, fs, total) && Extending(o.value, Carried(fs, i))
      modifies `files, `trace
      ensures Traced(o, Saved(files)) && files.target == old(files).target
      ensures stop.None? ==> && SoFar(fs, |base|, total, faults, i + 1)
                             && files == old(files).(part := Some(base + Carried(fs, i + 1)))
      ensures stop.None? && o.Some? ==> Extending(o.value, Carried(fs, i + 1))
      ensures stop.Some? ==> !stop.value.ok && !stop.value.skipNow && !Received(fs, |base|, total, faults)
      ensures stop.Some? && Fits(fs, |base|, total, faults) ==>
                files == old(files).(part := Some(base + Gained(fs, faults)))
      ensures stop.Some? && !Fits(fs, |base|, total, faults) ==> ThrownAway(old(files), faults)
      ensures stop.Some? ==> && (Strands(fs, |base|, total, faults) <==> !stop.value.dropConn && fs[i + 1..] != [])
                             && (stop.value.dropConn <==> Drops(fs, |base|, total, faults))
    {
      CarriedNext(fs, i, base);
      if o.Some? {
        NextFits(fs, i, o.value.version.content, |Saved(o.value.before)|);
      }
      stop := TakeData(data, total, faults.cancelAt == Some(i), faults.writeAt == Some(i), faults, o, Carried(fs, i));
      if stop.Some? {
        EndInData(fs, |base|, total, faults, i);
        Associate(base, Carried(fs, i), Cut(data, i, faults));
      } else {
        GoesOn(fs, |base|, total, faults, i);
      }
    }

    /** The frames fs carry bytes of o's version, whose size was announced. */
    ghost predicate ReceivesFor(o: Origin, fs: seq<Frame>, total: nat) {
      && total == |o.version.content| && |Saved(o.before)| <= |o.version.content|
      && Payload(fs) <= o.version.content[|Saved(o.before)|..]
    }

    /** The loop has taken i data frames of fs and is about to read the next frame. */
    ghost predicate Receiving(b: Files, base: Bytes, fs: seq<Frame>, i: nat, total: nat, faults: Faults,
                              o: Option<Origin>)
      reads this
    {
      && SoFar(fs, |base|, total, faults, i) && i <= |fs| && inbox == fs[i..]
      && files == b.(part := Some(base + Carried(fs, i))) && Traced(o, Saved(files))
      && (o.Some? ==> ReceivesFor(o.value, fs, total) && Extending(o.value, Carried(fs, i)))
    }

    /** How the loop ends that began on disk b with frames fs. None means the end marker was read. */
    ghost predicate ReceptionEnds(b: Files, fs: seq<Frame>, total: nat, faults: Faults, stop: Option<Outcome>)
      reads this
    {
      && files.target == b.target
      && (stop.None? <==> Received(fs, |Saved(b)|, total, faults))
      && (if Fits(fs, |Saved(b)|, total, faults)
          then files == b.(part := Some(Saved(b) + Gained(fs, faults))) else ThrownAway(b, faults))
      && (stop.None? ==> inbox == fs[DataRun(fs) + 1..])
      && (stop.Some? ==> !stop.value.ok && !stop.value.skipNow)
      && (stop.Some? && stop.value.dropConn <==> Drops(fs, |Saved(b)|, total, faults))
      && ((stop.Some? && stop.value.dropConn) || inbox == [] <==> !Strands(fs, |Saved(b)|, total, faults))
    }

    /** At the end of the data, whatever comes there. */
    lemma DataEnds(b: Files, fs: seq<Frame>, i: nat, total: nat, faults: Faults, stop: Option<Outcome>)
      requires i == DataRun(fs) && files == b.(part := Some(Saved(b) + Carried(fs, i)))
      requires SoFar(fs, |Saved(b)|, total, faults, i) && Gained(fs, faults) == Carried(fs, i)
      requires inbox == if i < |fs| then fs[i + 1..] else []
      requires var f := if i < |fs| then Some(fs[i]) else None;
               stop == if f == Some(FileEnd) then None else Some(Unexpected(f))
      ensures ReceptionEnds(b, fs, total, faults, stop)
    {
      EndOfData(fs, |Saved(b)|, total, faults, i);
      assert Fits(fs, |Saved(b)|, total, faults);
    }

    lemma FrontFrame(fs: seq<Frame>, i: nat)
      requires i <= DataRun(fs)
      ensures i < |fs| ==> fs[i..][0] == fs[i] && fs[i..][1..] == fs[i + 1..]
      ensures i < |fs| && fs[i].FileData? <==> i < DataRun(fs)
    {
    }

    /**
     * The receive loop, writing data frames behind the bytes saved so far. None means the end marker
     * was read. With an origin, the frames come from its version.
     */
    method Receive(total: nat, faults: Faults, ghost o: Option<Origin>) returns (stop: Option<Outcome>)
      requires files.part.Some? && Traced(o, Saved(files))
      requires o.Some? ==> Extending(o.value, []) && ReceivesFor(o.value, inbox, total)
      modifies `files, `inbox, `trace
      ensures Traced(o, Saved(files)) && ReceptionEnds(old(files), old(inbox), total, faults, stop)
    {
      ghost var fs, b, base := inbox, files, Saved(files);
      var i: nat := 0;
      assert base + Carried(fs, 0) == base;
      while true
        invariant Receiving(b, base, fs, i, total, faults, o)
        decreases |inbox|
      {
        FrontFrame(fs, i);
        var f := ReadFrame();
        if f.None? || !f.value.FileData? {
          EndOfData(fs, |base|, total, faults, i);
          stop := if f == Some(FileEnd) then None else Some(Unexpected(f));
          DataEnds(b, fs, i, total, faults, stop);
          return;
        }
        stop := ReceiveData(f.value.data, i, total, faults, fs, base, o);
        if stop.Some? {
          return;
        }
        i := i + 1;
      }
    }

    /** After the end marker: sync, check the size, move the partial file over the target, index it. */
    method Finish(m: Meta, faults: Faults, ghost o: Option<Origin>, ghost y: Bytes) returns (r: Outcome)
      requires files.part.Some? && Traced(o, y)
      requires o.Some? ==> Saved(files) <= o.value.version.content && m.total == |o.value.version.content|
      modifies `files, `index, `done, `trace
      ensures Traced(o, y) && old(files) in trace
      ensures r.ok <==> |Saved(old(files))| == m.total && !faults.sync && !faults.stat && !faults.targetDir
                        && !faults.rename && !faults.index
      ensures files == Finished(old(files), m.total, faults) && (r.ok ==> index == Some(m) && done)
      ensures !r.dropConn && !r.skipNow && (!r.ok ==> index == old(index) && done == old(done))
    {
      if o.Some? {
        PresentPasses(o.value, y);
      }
      if faults.sync || faults.stat {
        return Refuse(IOError);
      }
      if |Saved(files)| != m.total {
        RemovePart(faults.removePart);
        RemoveMeta(faults.removeMeta);
        return Refuse(SizeMismatch);
      }
      assert o.Some? ==> Saved(files) == o.value.version.content;
      if faults.targetDir || faults.rename {
        return Refuse(IOError);
      }
      Put(Files(None, files.meta, files.part));
      RemoveMeta(faults.removeMeta);
      if faults.index {
        return Refuse(IOError);
      }
      index := Some(m);
      done := true;
      r := Outcome(true, 0, false, IOError, false);
    }

    /** Between the announcement and the stream: describe the partial file, then open it at the offset. */
    method OpenPart(m: Meta, faults: Faults, ghost o: Option<Origin>) returns (ready: bool)
      requires CanResume(Seen(files, faults), m.total, m.mtime, tolerance) && Traced(o, [])
      requires o.Some? ==> Begins(o.value, m, faults)
      modifies `files, `trace
      ensures Traced(o, [])
      ensures o.Some? && ready ==> Extending(o.value, [])
      ensures ready <==> Opens(faults)
      ensures files == Files(files.part, MetaAfter(m, faults.meta, old(files).meta), old(files).target)
      ensures Saved(files) == Saved(old(files)) && (ready ==> files.part == Some(Saved(old(files))))
    {
      ghost var b := files;
      WriteMeta(m, faults.meta);
      if o.Some? {
        DescribedPasses(b, o.value, m, faults, files);
      }
      if faults.tempDir || faults.open {
        return false;
      }
      assert Saved(files) + [] == Saved(files);
      if o.Some? {
        DescribedPasses(b, o.value, m, faults, files.(part := Some(Saved(files))));
      }
      Append([]);
      return !faults.seek;
    }

    /** The saved bytes of disk b, newly described, with the partial file there or not. */
    lemma DescribedPasses(b: Files, o: Origin, m: Meta, faults: Faults, a: Files)
      requires CanResume(Seen(b, faults), m.total, m.mtime, tolerance)
      requires o == Origin(b, o.version, Stale(b, faults)) && m == MetaOf(o.version) && Saved(b) <= o.version.content
      requires Saved(a) == Saved(b) && a.meta == MetaAfter(m, faults.meta, b.meta) && a.target == b.target
      ensures Passes(o, tolerance, [], a)
    {
    }

    /** From the opened disk b, the saved bytes and the frames `rest` up to the end marker have gone to the target. */
    predicate StoredAs(m: Meta, b: Files, rest: seq<Frame>, faults: Faults, r: Outcome)
      reads this
    {
      && files == Files(None, if faults.removeMeta then b.meta else None, Some(Saved(b) + Payload(rest)))
      && index == Some(m) && done
      && DataRun(rest) < |rest| && inbox == rest[DataRun(rest) + 1..] && r.bytes == |Payload(rest)|
    }

    /** The attempt from o is about to receive the version announced as m, behind bytes that begin it. */
    ghost predicate Begins(o: Origin, m: Meta, faults: Faults)
      reads this`files, this`trace
    {
      && o == Origin(files, o.version, Stale(files, faults)) && m == MetaOf(o.version)
      && Saved(files) <= o.version.content
    }

    /** The disk has been `held` and is now `last`; the connection is drained, dropped or stranded. */
    ghost predicate Leaves(held: Files, last: Files, drops: bool, strands: bool, r: Outcome)
      reads this
    {
      && held in trace && files == last && !r.skipNow
      && (r.dropConn <==> drops) && (drops || inbox == [] <==> !strands)
    }

    /** What the stream leaves on the disk and on the connection, from the opened disk b on. */
    ghost predicate Streamed(b: Files, total: nat, rest: seq<Frame>, faults: Faults, r: Outcome)
      reads this
    {
      var held := b.(part := Some(Saved(b) + Gained(rest, faults)));
      if Fits(rest, |Saved(b)|, total, faults)
      then Leaves(held, if Received(rest, |Saved(b)|, total, faults) then Finished(held, total, faults) else held,
                  Drops(rest, |Saved(b)|, total, faults), Strands(rest, |Saved(b)|, total, faults), r)
      else !r.ok && !r.skipNow && r.dropConn && ThrownAway(b, faults)
    }

    /** The partial file and its description are gone, each unless removing it failed. */
    ghost predicate ThrownAway(b: Files, faults: Faults)
      reads this
    {
      && files.target == b.target && (if faults.removePart then files.part.Some? else files.part.None?)
      && files.meta == if faults.removeMeta then b.meta else None
    }

    /** The opened partial file: receive the stream and finish. */
    method ReceiveAll(m: Meta, faults: Faults, ghost o: Option<Origin>) returns (r: Outcome)
      requires files.part.Some? && Traced(o, Saved(files))
      requires o.Some? ==> && Extending(o.value, []) && m == MetaOf(o.value.version)
                           && Saved(files) == Saved(o.value.before) <= o.value.version.content
                           && Payload(inbox) <= o.value.version.content[|Saved(files)|..]
      modifies this
      ensures Traced(o, Saved(old(files)) + Gained(old(inbox), faults))
      ensures r.ok <==> Undisturbed(faults.(send := false, tempDir := false, open := false, seek := false), old(inbox))
                        && Streams(old(inbox), |Saved(old(files))|, m.total)
      ensures r.ok ==> StoredAs(m, old(files), old(inbox), faults, r)
      ensures !r.ok ==> index == old(index) && done == old(done) && !r.skipNow
      ensures Streamed(old(files), m.total, old(inbox), faults, r)
    {
      ghost var b, rest := files, inbox;
      ghost var y := Saved(b) + Gained(rest, faults);
      var offset := |Saved(files)|;
      var stop := Receive(m.total, faults, o);
      if o.Some? {
        HonestFits(rest, o.value.version.content, offset, faults);
      }
      if stop.Some? {
        Widen(o, Saved(files), y);
        return stop.value;
      }
      ReceivedWhole(rest, offset, m.total, faults);
      Widen(o, Saved(files), y);
      var received := |Saved(files)| - offset;
      if o.Some? {
        Continues(Saved(b), Payload(rest), o.value.version.content);
      }
      r := Finish(m, faults, o, y);
      r := r.(bytes := received);
    }

    /** The rest of a GET attempt once the announcement m is accepted. */
    method Complete(m: Meta, faults: Faults, ghost o: Option<Origin>) returns (r: Outcome)
      requires CanResume(Seen(files, faults), m.total, m.mtime, tolerance) && !faults.send && Traced(o, [])
      requires o.Some? ==> Begins(o.value, m, faults) && Payload(inbox) <= o.value.version.content[|Saved(files)|..]
      modifies this
      ensures r.ok <==> Undisturbed(faults, old(inbox)) && Streams(old(inbox), |Saved(old(files))|, m.total)
      ensures r.ok ==> StoredAs(m, Opened(old(files), m, faults), old(inbox), faults, r)
      ensures !r.ok ==> index == old(index) && done == old(done) && !r.skipNow
      ensures Answered(old(files), m, old(inbox), faults, r)
      ensures Traced(o, if Opens(faults) then Gained(old(inbox), faults) else [])
    {
      ghost var b, rest := files, inbox;
      var ready := OpenPart(m, faults, o);
      if !ready {
        return Refuse(IOError);
      }
      Widen(o, [], Saved(files));
      r := ReceiveAll(m, faults, o);
      if o.Some? && o.value.stale.Some? {
        assert Saved(b) + Gained(rest, faults) == Gained(rest, faults);
      }
      Widen(o, Saved(b) + Gained(rest, faults), Gained(rest, faults));
    }

    /** What an accepted announcement m leads to, from disk b on, with the frames `rest` behind it. */
    ghost predicate Answered(b: Files, m: Meta, rest: seq<Frame>, faults: Faults, r: Outcome)
      reads this
    {
      if Opens(faults) then Streamed(Opened(b, m, faults), m.total, rest, faults, r)
      else && r == Refuse(IOError) && inbox == rest && Saved(files) == Saved(b)
           && files == Files(files.part, MetaAfter(m, faults.meta, b.meta), b.target)
    }

    /** The GET attempt once its request is out, on whatever frames the connection now holds. */
    method Respond(faults: Faults, ghost w: Version) returns (r: Outcome)
      requires !faults.send && trace == [files]
      modifies this
      ensures Logged()
      ensures r.ok <==> Succeeds(old(files), old(inbox), faults, tolerance)
      ensures r.ok ==> Stored(old(files), old(inbox), faults, r)
      ensures !r.ok ==> index == old(index) && done == old(done)
      ensures Replied(old(files), old(inbox), faults, r)
      ensures r.dropConn || inbox == [] <==> !LeavesFrames(old(files), old(inbox), faults, tolerance)
      ensures Honest(old(files), old(inbox), w, tolerance) ==>
                Traced(Some(Origin(old(files), w, Stale(old(files), faults))),
                       Adds(old(files), old(inbox), faults, tolerance))
    {
      ghost var b, fs := files, inbox;
      ghost var o := if Honest(b, fs, w, tolerance) then Some(Origin(b, w, Stale(b, faults))) else None;
      var f := ReadFrame();
      if f.None? {
        return Dropped(IOError);
      }
      if !f.value.GetResp? || f.value.status != 0 {
        return Refusal(f.value);
      }
      var m := Meta(f.value.total, f.value.mtime);
      if !CanResume(Seen(files, faults), m.total, m.mtime, tolerance) {
        RemovePart(faults.removePart);
        RemoveMeta(faults.removeMeta);
        return Dropped(BadOffset);
      }
      r := Complete(m, faults, o);
    }

    /** What a successful attempt from disk b leaves, having read frames fs. */
    predicate Stored(b: Files, fs: seq<Frame>, faults: Faults, r: Outcome)
      requires Announces(fs)
      reads this
    {
      var m := Meta(fs[0].total, fs[0].mtime);
      StoredAs(m, Opened(b, m, faults), fs[1..], faults, r)
    }

    /** What the frames fs lead to once the request is out, from disk b on. */
    ghost predicate Replied(b: Files, fs: seq<Frame>, faults: Faults, r: Outcome)
      reads this
    {
      if fs == [] then files == b && r == Dropped(IOError)
      else if !Announces(fs) then files == b && inbox == fs[1..] && r == Refusal(fs[0])
      else if Accepted(b, fs, faults, tolerance) then
        Answered(b, Meta(fs[0].total, fs[0].mtime), fs[1..], faults, r)
      else files == Discarded(b, faults) && inbox == fs[1..] && r == Dropped(BadOffset)
    }

    /** What a GET attempt leaves: of the frames fs, `before` were on the connection when it began. */
    ghost predicate GivesGet(b: Files, before: seq<Frame>, fs: seq<Frame>, faults: Faults, r: Outcome)
      reads this
    {
      if faults.send then files == b && inbox == before && r == Dropped(IOError) else Replied(b, fs, faults, r)
    }

    /**
     * downloadOne without the delta: one GET attempt, on whatever frames the connection holds. It succeeds
     * exactly when no step fails and it accepts them, whoever they were meant for; it leaves frames unread
     * exactly as LeavesFrames says; what it leaves on the disk is what Replied says. Served honestly,
     * every disk state is one that resuming allows, apart from bytes beside a description that stayed.
     */
    method Fetch(answer: seq<Frame>, faults: Faults, ghost w: Version) returns (r: Outcome)
      modifies this
      ensures Logged()
      ensures r.ok <==> Succeeds(old(files), old(inbox) + answer, faults, tolerance)
      ensures r.ok ==> Stored(old(files), old(inbox) + answer, faults, r)
      ensures !r.ok ==> index == old(index) && done == old(done)
      ensures r.ok ==> |Saved(old(files))| + r.bytes == |files.target.value|
      ensures GivesGet(old(files), old(inbox), old(inbox) + answer, faults, r)
      ensures r.dropConn || inbox == [] <==> !LeavesFrames(old(files), old(inbox) + answer, faults, tolerance)
      ensures Honest(old(files), old(inbox) + answer, w, tolerance) ==>
                Traced(Some(Origin(old(files), w, Stale(old(files), faults))),
                       Adds(old(files), old(inbox) + answer, faults, tolerance))
    {
      trace := [files];
      if faults.send {
        return Dropped(IOError);
      }
      inbox := inbox + answer;
      r := Respond(faults, w);
    }

    // ---- Delta ----

    /** The partial file begins o's version, without a description or beside the stale one. */
    ghost predicate Rebuilding(o: Origin)
      reads this`files
    {
      files.target == o.before.target && (files.meta.None? || files.meta == o.stale)
        && Saved(files) <= o.version.content
    }

    /** Part of the version's bytes, without a description or beside the stale one. */
    lemma PartPasses(o: Origin, a: Files)
      requires a.target == o.before.target && (a.meta.None? || a.meta == o.stale) && Saved(a) <= o.version.content
      ensures Passes(o, tolerance, Saved(a), a)
    {
    }

    /** One frame of the block loop: the bytes of the block it stands for, or why there are none. */
    method GetBlock(prev: Bytes, bs: nat, total: nat, i: nat, f: Frame, faults: DeltaFaults)
      returns (stop: Option<Outcome>, data: Bytes)
      requires bs > 0 && i < BlockCount(total, bs)
      ensures stop.None? <==> Piece(prev, bs, total, i, f).Some? && Obtained(faults, f, i)
      ensures stop.None? ==> Piece(prev, bs, total, i, f) == Some(data) && KeepsConn(bs, total, i, f, faults)
      ensures stop.Some? ==> && BlockGain(prev, bs, total, i, f, faults) == []
                             && !stop.value.ok && !stop.value.skipNow
                             && (stop.value.dropConn <==> !KeepsConn(bs, total, i, f, faults))
    {
      BlockStep(total, bs, i);
      var bl := if total - i * bs < bs then total - i * bs else bs;
      stop, data := None, [];
      match f
      case BlockKeep =>
        if faults.readOld == Some(i) || i * bs + bl > |prev| {
          stop := Some(Refuse(IOError));
        } else {
          data := prev[i * bs..i * bs + bl];
        }
      case FileData(d) =>
        if |d| != bl {
          stop := Some(Dropped(ProtocolError));
        } else if faults.cancelAt == Some(i) {
          stop := Some(Dropped(IOError));
        } else {
          data := d;
        }
      case Error(code) =>
        stop := Some(Refuse(code));
      case _ =>
        stop := Some(Dropped(ProtocolError));
    }

    /** One frame of the block loop: write the block it stands for. */
    method TakeBlock(prev: Bytes, bs: nat, total: nat, i: nat, f: Frame, faults: DeltaFaults, ghost o: Option<Origin>)
      returns (stop: Option<Outcome>)
      requires bs > 0 && i < BlockCount(total, bs) && files.part.Some? && Traced(o, Saved(files))
      requires o.Some? ==> && Rebuilding(o.value) && |Saved(files)| == UpTo(total, bs, i)
                           && IsBlock(o.value.version, prev, bs, total, i, f)
      modifies `files, `trace
      ensures Traced(o, Saved(files))
      ensures stop.None? <==> Piece(prev, bs, total, i, f).Some? && BlockUndisturbed(faults, f, i)
      ensures files == old(files).(part := Some(Saved(old(files)) + BlockGain(prev, bs, total, i, f, faults)))
      ensures stop.Some? ==> !stop.value.ok && !stop.value.skipNow
      ensures stop.Some? ==> (stop.value.dropConn <==> !KeepsConn(bs, total, i, f, faults))
      ensures o.Some? && stop.None? ==> Rebuilding(o.value)
    {
      assert Saved(files) + [] == Saved(files);
      var data;
      stop, data := GetBlock(prev, bs, total, i, f, faults);
      if stop.Some? {
        return;
      }
      WriteBlock(data, i, total, bs, faults, o);
      return if faults.writeAt == Some(i) then Some(Refuse(IOError)) else None;
    }

    /** The frame is an error report, or it stands for block i of w. */
    predicate IsBlock(w: Version, prev: Bytes, bs: nat, total: nat, i: nat, f: Frame)
      requires bs > 0 && i < BlockCount(total, bs)
    {
      total == |w.content| && (f.Error? || Piece(prev, bs, total, i, f) == Some(Block(w.content, bs, i)))
    }

    /** Write the bytes of block i, all of them unless the write fails. */
    method WriteBlock(data: Bytes, i: nat, total: nat, bs: nat, faults: DeltaFaults, ghost o: Option<Origin>)
      requires bs > 0 && i < BlockCount(total, bs) && files.part.Some? && Traced(o, Saved(files))
      requires o.Some? ==> && Rebuilding(o.value) && |Saved(files)| == UpTo(total, bs, i)
                           && total == |o.value.version.content|
                           && data == Block(o.value.version.content, bs, i)
      modifies `files, `trace
      ensures Traced(o, Saved(files)) && trace == old(trace) + [files]
      ensures var kept := if faults.writeAt == Some(i) then data[..Min(faults.wrote, |data|)] else data;
              files == old(files).(part := Some(Saved(old(files)) + kept))
      ensures o.Some? ==> Rebuilding(o.value)
    {
      var n := if faults.writeAt == Some(i) then Min(faults.wrote, |data|) else |data|;
      assert data[..|data|] == data;
      ghost var next := files.(part := Some(Saved(files) + data[..n]));
      Widen(o, Saved(files), Saved(next));
      if o.Some? {
        BlockPrefix(o.value.version.content, bs, i, n);
        PartPasses(o.value, next);
      }
      Append(data[..n]);
    }

    /** How the block loop over the frames fs ends, from disk b on. */
    predicate LoopEnds(b: Files, prev: Bytes, bs: nat, total: nat, fs: seq<Frame>, faults: DeltaFaults,
                       stop: Option<Outcome>)
      requires bs > 0
      reads this
    {
      var k := StopsAt(prev, bs, total, fs, faults, 0);
      && files == b.(part := Some(Patched(prev, bs, total, fs, faults)))
      && (stop.None? <==> BlocksAccepted(prev, bs, total, fs, faults))
      && if stop.None? then k == BlockCount(total, bs) && inbox == fs[k..]
         else && k < BlockCount(total, bs) && inbox == fs[Min(k + 1, |fs|)..] && !stop.value.ok && !stop.value.skipNow
              && (stop.value.dropConn <==> BlocksDrop(prev, bs, total, fs, faults))
              && (stop.value.dropConn || inbox == [] <==> !BlocksStrand(prev, bs, total, fs, faults))
    }

    /** The partial file is the whole replay of the frames fs, of which `literal` bytes came over the connection. */
    predicate Whole(prev: Bytes, bs: nat, total: nat, fs: seq<Frame>, literal: nat)
      requires bs > 0 && BlockCount(total, bs) <= |fs|
      reads this`files
    {
      var n := BlockCount(total, bs);
      && files.part == Replay(prev, bs, total, fs, n) && |Saved(files)| == total
      && literal == Literal(fs[..n]) <= total && total - literal == Kept(total, bs, fs[..n])
    }

    /** Stopping at block i, having written `gain` of it, is how the loop ends. */
    lemma StopEnds(b: Files, prev: Bytes, bs: nat, total: nat, fs: seq<Frame>, faults: DeltaFaults, i: nat,
                   stop: Outcome, gain: Bytes)
      requires bs > 0 && ComesTo(prev, bs, total, fs, faults, i) && i < BlockCount(total, bs)
      requires i == |fs| || Piece(prev, bs, total, i, fs[i]).None? || !BlockUndisturbed(faults, fs[i], i)
      requires gain == if i < |fs| then BlockGain(prev, bs, total, i, fs[i], faults) else []
      requires files == b.(part := Some(Replay(prev, bs, total, fs, i).value + gain)) && inbox == fs[Min(i + 1, |fs|)..]
      requires !stop.ok && !stop.skipNow && (stop.dropConn <==> i == |fs| || !KeepsConn(bs, total, i, fs[i], faults))
      ensures LoopEnds(b, prev, bs, total, fs, faults, Some(stop))
    {
      BlockEnds(prev, bs, total, fs, faults, i);
    }

    /** Having come to the end is how the loop runs through. */
    lemma LoopDone(b: Files, prev: Bytes, bs: nat, total: nat, fs: seq<Frame>, faults: DeltaFaults, literal: nat)
      requires bs > 0 && ComesTo(prev, bs, total, fs, faults, BlockCount(total, bs))
      requires files == b.(part := Replay(prev, bs, total, fs, BlockCount(total, bs)))
      requires inbox == fs[BlockCount(total, bs)..] && literal == Literal(fs[..BlockCount(total, bs)])
      ensures LoopEnds(b, prev, bs, total, fs, faults, None) && Whole(prev, bs, total, fs, literal)
    {
      BlocksEnd(prev, bs, total, fs, faults);
      PatchedWhole(prev, bs, total, fs, faults);
    }

    /** One round of the block loop. */
    method NextBlock(prev: Bytes, bs: nat, total: nat, i: nat, faults: DeltaFaults, literal: nat,
                     ghost b: Files, ghost fs: seq<Frame>, ghost o: Option<Origin>)
      returns (stop: Option<Outcome>, more: nat)
      requires bs > 0 && i < BlockCount(total, bs) && ComesTo(prev, bs, total, fs, faults, i) && inbox == fs[i..]
      requires files == b.(part := Replay(prev, bs, total, fs, i)) && literal == Literal(fs[..i])
      requires Traced(o, Saved(files))
      requires o.Some? ==> && Rebuilding(o.value) && total == |o.value.version.content|
                           && BlocksOf(fs, prev, bs, o.value.version)
      modifies `files, `inbox, `trace
      ensures Traced(o, Saved(files))
      ensures stop.Some? ==> LoopEnds(b, prev, bs, total, fs, faults, stop)
      ensures stop.None? ==> && ComesTo(prev, bs, total, fs, faults, i + 1) && inbox == fs[i + 1..]
                             && more == Literal(fs[..i + 1])
                             && files == b.(part := Replay(prev, bs, total, fs, i + 1))
      ensures stop.None? && o.Some? ==> Rebuilding(o.value)
    {
      more := literal;
      assert Saved(files) + [] == Saved(files);
      var f := ReadFrame();
      if f.None? {
        stop := Some(Dropped(IOError));
        StopEnds(b, prev, bs, total, fs, faults, i, stop.value, []);
        return;
      }
      ghost var gain := BlockGain(prev, bs, total, i, f.value, faults);
      stop := TakeBlock(prev, bs, total, i, f.value, faults, o);
      if stop.Some? {
        StopEnds(b, prev, bs, total, fs, faults, i, stop.value, gain);
        return;
      }
      BlockGoesOn(prev, bs, total, fs, faults, i);
      LiteralNext(fs, i);
      if f.value.FileData? {
        more := more + |f.value.data|;
      }
    }

    /** The block loop: the replay of the client's answer over the old copy. */
    method BlockLoop(prev: Bytes, bs: nat, total: nat, faults: DeltaFaults, ghost o: Option<Origin>)
      returns (stop: Option<Outcome>, literal: nat)
      requires bs > 0 && files.part == Some([]) && Traced(o, [])
      requires o.Some? ==> && Rebuilding(o.value) && total == |o.value.version.content|
                           && BlocksOf(inbox, prev, bs, o.value.version)
      modifies `files, `inbox, `trace
      ensures Traced(o, Saved(files))
      ensures LoopEnds(old(files), prev, bs, total, old(inbox), faults, stop)
      ensures stop.None? ==> Whole(prev, bs, total, old(inbox), literal)
      ensures stop.None? && o.Some? ==> Rebuilding(o.value)
    {
      ghost var b, fs := files, inbox;
      var n := (total + bs - 1) / bs;
      literal, stop := 0, None;
      ComesToFirst(prev, bs, total, fs, faults);
      for i := 0 to n
        invariant stop.None? && ComesTo(prev, bs, total, fs, faults, i) && inbox == fs[i..]
        invariant files == b.(part := Replay(prev, bs, total, fs, i)) && literal == Literal(fs[..i])
        invariant Traced(o, Saved(files))
        invariant o.Some? ==> Rebuilding(o.value)
      {
        stop, literal := NextBlock(prev, bs, total, i, faults, literal, b, fs, o);
        if stop.Some? {
          return;
        }
      }
      LoopDone(b, prev, bs, total, fs, faults, literal);
    }

    lemma LiteralNext(fs: seq<Frame>, i: nat)
      requires i < |fs|
      ensures Literal(fs[..i + 1]) == Literal(fs[..i]) + if fs[i].FileData? then |fs[i].data| else 0
    {
      assert fs[..i + 1] == fs[..i] + [fs[i]];
      LiteralAppend(fs[..i], fs[i]);
    }

    /** The block loop and the end marker. */
    method ReceiveBlocks(prev: Bytes, bs: nat, total: nat, faults: DeltaFaults, ghost o: Option<Origin>)
      returns (stop: Option<Outcome>, literal: nat)
      requires bs > 0 && files.part == Some([]) && Traced(o, [])
      requires o.Some? ==> && Rebuilding(o.value) && total == |o.value.version.content|
                           && BlocksOf(inbox, prev, bs, o.value.version)
      modifies `files, `inbox, `trace
      ensures Traced(o, Saved(files))
      ensures files == old(files).(part := Some(Patched(prev, bs, total, old(inbox), faults)))
      ensures stop.None? <==> BlocksReceived(prev, bs, total, old(inbox), faults)
      ensures stop.None? ==> && Whole(prev, bs, total, old(inbox), literal)
                             && inbox == old(inbox)[BlockCount(total, bs) + 1..]
      ensures stop.Some? ==> !stop.value.ok && !stop.value.skipNow
      ensures stop.Some? && stop.value.dropConn <==> BlocksDrop(prev, bs, total, old(inbox), faults)
      ensures (stop.Some? && stop.value.dropConn) || inbox == [] <==> !BlocksStrand(prev, bs, total, old(inbox), faults)
      ensures stop.None? && o.Some? ==> Rebuilding(o.value)
    {
      ghost var fs := inbox;
      stop, literal := BlockLoop(prev, bs, total, faults, o);
      if stop.Some? {
        return;
      }
      var e := ReadFrame();
      if e != Some(FileEnd) {
        return Some(Dropped(if e.None? then IOError else ProtocolError)), literal;
      }
    }

    /** After the block loop. The removal of a partial file of the wrong size needs a failing stat to happen. */
    method FinishDelta(m: Meta, literal: nat, faults: DeltaFaults, ghost o: Option<Origin>)
      returns (r: Outcome, saved: nat)
      requires files.part.Some? && |Saved(files)| == m.total && Traced(o, Saved(files))
      requires o.Some? ==> Rebuilding(o.value) && m.total == |o.value.version.content|
      modifies `files, `index, `done, `trace
      ensures Traced(o, Saved(old(files))) && old(files) in trace
      ensures r.ok <==> !faults.sync && !faults.stat && !faults.rename && !faults.index
      ensures r.ok && o.Some? ==> files.target == Some(o.value.version.content)
      ensures files == DeltaFinished(old(files), faults) && (r.ok ==> index == Some(m) && done)
      ensures r.ok ==> r.bytes == literal && saved == Max(0, m.total - literal)
      ensures !r.dropConn && !r.skipNow && (!r.ok ==> index == old(index) && done == old(done))
    {
      if faults.sync {
        return Refuse(IOError), 0;
      }
      assert o.Some? ==> Saved(files) == o.value.version.content;
      if faults.stat || |Saved(files)| != m.total {
        RemovePart(faults.removePart);
        return Refuse(SizeMismatch), 0;
      }
      if faults.rename {
        return Refuse(IOError), 0;
      }
      Put(Files(None, files.meta, files.part));
      if faults.index {
        return Refuse(IOError), 0;
      }
      index := Some(m);
      done := true;
      saved := if m.total < literal then 0 else m.total - literal;
      r := Outcome(true, literal, false, IOError, false);
    }

    /**
     * What a successful delta attempt leaves, beside the description `left`, having read `rest` after the
     * announcement m.
     */
    predicate StoredDelta(prev: Bytes, bs: nat, left: Option<Meta>, m: Meta, rest: seq<Frame>, r: Outcome, saved: nat)
      requires bs > 0 && EndsAfterBlocks(bs, m.total, rest)
      reads this
    {
      var n := BlockCount(m.total, bs);
      && files == Files(None, left, Replay(prev, bs, m.total, rest, n)) && index == Some(m) && done
      && inbox == rest[n + 1..] && r.bytes == Literal(rest[..n]) && saved == Kept(m.total, bs, rest[..n])
      && files.target.Some? && r.bytes + saved == |files.target.value|
    }

    /** What the block frames leave on the disk and on the connection, from disk b on. */
    ghost predicate Patches(b: Files, prev: Bytes, bs: nat, total: nat, rest: seq<Frame>, faults: DeltaFaults,
                            r: Outcome)
      requires bs > 0
      reads this
    {
      var held := Files(Some(Patched(prev, bs, total, rest, faults)), StaleDelta(b, faults), b.target);
      if DeltaOpens(faults)
      then Leaves(held, if BlocksReceived(prev, bs, total, rest, faults) then DeltaFinished(held, faults) else held,
                  BlocksDrop(prev, bs, total, rest, faults), BlocksStrand(prev, bs, total, rest, faults), r)
      else r == Refuse(IOError) && inbox == rest && files == b.(meta := StaleDelta(b, faults))
    }

    /** The opened partial file: receive the blocks and finish. */
    method ReceiveDelta(prev: Bytes, bs: nat, m: Meta, faults: DeltaFaults, ghost o: Option<Origin>)
      returns (r: Outcome, saved: nat)
      requires bs > 0 && files.part == Some([]) && Traced(o, [])
      requires o.Some? ==> && Rebuilding(o.value) && m == MetaOf(o.value.version)
                           && BlocksOf(inbox, prev, bs, o.value.version)
      modifies this
      ensures Traced(o, Patched(prev, bs, m.total, old(inbox), faults))
      ensures r.ok <==> && BlocksReceived(prev, bs, m.total, old(inbox), faults)
                        && !faults.sync && !faults.stat && !faults.rename && !faults.index
      ensures r.ok ==> StoredDelta(prev, bs, old(files).meta, m, old(inbox), r, saved)
      ensures r.ok && o.Some? ==> files.target == Some(o.value.version.content)
      ensures !r.ok ==> index == old(index) && done == old(done) && !r.skipNow
      ensures var held := old(files).(part := Some(Patched(prev, bs, m.total, old(inbox), faults)));
              Leaves(held,
                     if BlocksReceived(prev, bs, m.total, old(inbox), faults) then DeltaFinished(held, faults)
                     else held,
                     BlocksDrop(prev, bs, m.total, old(inbox), faults),
                     BlocksStrand(prev, bs, m.total, old(inbox), faults), r)
    {
      saved := 0;
      var stop, literal := ReceiveBlocks(prev, bs, m.total, faults, o);
      if stop.Some? {
        return stop.value, saved;
      }
      r, saved := FinishDelta(m, literal, faults, o);
    }

    /** The rest of a delta attempt once the announcement m is accepted. */
    method CompleteDelta(prev: Bytes, bs: nat, m: Meta, faults: DeltaFaults, ghost o: Option<Origin>)
      returns (r: Outcome, saved: nat)
      requires bs > 0 && Traced(o, [])
      requires o.Some? ==> && o == Some(Origin(files, o.value.version, StaleDelta(files, faults)))
                           && m == MetaOf(o.value.version) && BlocksOf(inbox, prev, bs, o.value.version)
      modifies this
      ensures r.ok <==> && BlocksReceived(prev, bs, m.total, old(inbox), faults)
                        && DeltaOpens(faults) && !faults.sync && !faults.stat && !faults.rename && !faults.index
      ensures r.ok ==> StoredDelta(prev, bs, StaleDelta(old(files), faults), m, old(inbox), r, saved)
      ensures r.ok && o.Some? ==> files.target == Some(o.value.version.content)
      ensures !r.ok ==> index == old(index) && done == old(done) && !r.skipNow
      ensures Patches(old(files), prev, bs, m.total, old(inbox), faults, r)
      ensures Traced(o, if DeltaOpens(faults) then Patched(prev, bs, m.total, old(inbox), faults) else [])
    {
      ghost var b := files;
      RemoveMeta(faults.removeMeta);
      if faults.tempDir || faults.open {
        return Refuse(IOError), 0;
      }
      Put(files.(part := Some([])));
      r, saved := ReceiveDelta(prev, bs, m, faults, o);
    }

    /** What the frames fs lead to once the delta request is out, from disk b on. */
    ghost predicate RepliedDelta(b: Files, prev: Bytes, bs: nat, fs: seq<Frame>, faults: DeltaFaults, r: Outcome)
      requires bs > 0
      reads this
    {
      if fs == [] then files == b && r == Dropped(IOError)
      else if fs[0].Error? then files == b && inbox == fs[1..] && r == Refusal(fs[0])
      else if !DeltaAnnounces(fs) then files == b && inbox == fs[1..] && r == Dropped(ProtocolError)
      else Patches(b, prev, bs, fs[0].total, fs[1..], faults, r)
    }

    /** The delta attempt once its request is out. */
    method RespondDelta<H(!new)>(prev: Bytes, bs: nat, ghost hash: Bytes -> H, faults: DeltaFaults, ghost w: Version)
      returns (r: Outcome, fallback: bool, saved: nat)
      requires bs > 0 && !faults.openOld && !faults.hashRead && !faults.send && trace == [files]
      modifies this
      ensures Logged()
      ensures fallback <==> old(inbox) != [] && old(inbox)[0] == Error(Unsupported)
      ensures r.ok <==> DeltaSucceeds(prev, bs, old(inbox), faults)
      ensures r.ok ==> StoredDelta(prev, bs, StaleDelta(old(files), faults),
                                   Meta(old(inbox)[0].total, old(inbox)[0].mtime), old(inbox)[1..], r, saved)
      ensures !r.ok ==> index == old(index) && done == old(done)
      ensures RepliedDelta(old(files), prev, bs, old(inbox), faults, r)
      ensures r.dropConn || inbox == [] <==> !LeavesDeltaFrames(prev, bs, old(inbox), faults)
      ensures HonestDelta(old(inbox), prev, bs, hash, w) ==>
                && Traced(Some(Origin(old(files), w, StaleDelta(old(files), faults))),
                          DeltaAdds(prev, bs, old(inbox), faults))
                && (r.ok ==> files.target == Some(w.content))
    {
      ghost var b, fs := files, inbox;
      fallback, saved := false, 0;
      var f := ReadFrame();
      if f.None? {
        return Dropped(IOError), fallback, saved;
      }
      if f.value.Error? {
        return Refusal(f.value), f.value.code == Unsupported, saved;
      }
      if !f.value.DeltaResp? || f.value.status != 0 {
        return Dropped(ProtocolError), fallback, saved;
      }
      ghost var o := None;
      if HonestDelta(fs, prev, bs, hash, w) {
        HonestBlocks(fs, prev, bs, hash, w);
        o := Some(Origin(b, w, StaleDelta(b, faults)));
      }
      r, saved := CompleteDelta(prev, bs, Meta(f.value.total, f.value.mtime), faults, o);
    }

    /**
     * deltaDownload, on whatever frames the connection holds. With fallback nothing has changed but the
     * connection. A successful attempt has replayed the client's answer over the old copy and consumed
     * exactly it; answered honestly, the target is then the client's version.
     */
    method DeltaDownload<H(!new, ==)>(c: DeltaConfig, hash: Bytes -> H, answer: seq<Frame>, faults: DeltaFaults,
                                      ghost w: Version)
      returns (r: Outcome, fallback: bool, saved: nat)
      requires c.bs > 0 && files.target.Some?
      modifies this
      ensures Logged()
      ensures fallback <==> GoesFull(old(files).target.value, c, old(inbox) + answer, faults)
      ensures fallback ==> && !r.ok && files == old(files) && index == old(index) && done == old(done)
                           && inbox == if Asks(|old(files).target.value|, c, faults)
                                       then (old(inbox) + answer)[1..] else old(inbox)
      ensures !fallback ==>
                DeltaOutcome(old(files), c.bs, hash, old(inbox), old(inbox) + answer, faults, w, r, saved)
      ensures !r.ok ==> index == old(index) && done == old(done)
    {
      var prev := files.target.value;
      trace, saved := [files], 0;
      if TooManyHashes(|prev|, c) || faults.openOld {
        return Refuse(IOError), true, saved;
      }
      var hashes := HashBlocks(prev, c.bs, hash);
      if faults.hashRead {
        return Refuse(IOError), true, saved;
      }
      if faults.send {
        return Dropped(IOError), false, saved;
      }
      inbox := inbox + answer;
      r, fallback, saved := RespondDelta(prev, c.bs, hash, faults, w);
    }

    /** What a delta attempt leaves: of the frames fs, `before` were on the connection when it began. */
    ghost predicate GivesDelta(b: Files, prev: Bytes, bs: nat, before: seq<Frame>, fs: seq<Frame>, faults: DeltaFaults,
                               r: Outcome)
      requires bs > 0
      reads this
    {
      if faults.send then files == b && inbox == before && r == Dropped(IOError)
      else RepliedDelta(b, prev, bs, fs, faults, r)
    }

    /** The outcome of a delta attempt that did not fall back, with frames fs, of which `before` were unread. */
    ghost predicate DeltaResult(b: Files, bs: nat, before: seq<Frame>, fs: seq<Frame>, faults: DeltaFaults, r: Outcome)
      requires bs > 0 && b.target.Some?
      reads this
    {
      var prev := b.target.value;
      && (r.ok <==> DeltaSucceeds(prev, bs, fs, faults)) && GivesDelta(b, prev, bs, before, fs, faults, r)
      && (r.ok ==> index == Some(Meta(fs[0].total, fs[0].mtime)) && done)
      && (r.dropConn || inbox == [] <==> !LeavesDeltaFrames(prev, bs, fs, faults))
    }

    /** The same, with the bytes saved; answered honestly, it passes through states that resuming allows. */
    ghost predicate DeltaOutcome<H(!new)>(b: Files, bs: nat, hash: Bytes -> H, before: seq<Frame>, fs: seq<Frame>,
                                          faults: DeltaFaults, w: Version, r: Outcome, saved: nat)
      requires bs > 0 && b.target.Some?
      reads this
    {
      var prev := b.target.value;
      && DeltaResult(b, bs, before, fs, faults, r)
      && (r.ok ==> StoredDelta(prev, bs, StaleDelta(b, faults), Meta(fs[0].total, fs[0].mtime), fs[1..], r, saved))
      && (HonestDelta(fs, prev, bs, hash, w) ==>
            && Traced(Some(Origin(b, w, StaleDelta(b, faults))), DeltaAdds(prev, bs, fs, faults))
            && (r.ok ==> files.target == Some(w.content)))
    }

    // ---- downloadOne ----

    /** The file is stored as version w, indexed, its task done, and the connection drained. */
    predicate IsNow(w: Version)
      reads this
    {
      files.part.None? && files.target == Some(w.content) && index == Some(MetaOf(w)) && done && inbox == []
    }

    /**
     * The saved bytes are safe and the client's version w is one of those that size and time tell apart,
     * on a connection with nothing unread.
     */
    ghost predicate Trusts(b: Files, before: seq<Frame>, w: Version, versions: set<Version>, was: Option<Bytes>) {
      before == [] && w in versions && Safe(b, versions, was) && SameMeansSame(versions, tolerance)
    }

    /** The bytes an honest attempt writes beside a stale description have all stood there. */
    lemma FetchRecords(o: Origin, fs: seq<Frame>, faults: Faults, r: Outcome)
      requires GetAnswer(fs, o.version, |Saved(o.before)|) && o.stale == Stale(o.before, faults)
      requires GivesGet(o.before, [], fs, faults, r)
      ensures var y := Adds(o.before, fs, faults, tolerance);
              o.stale.Some? && y != [] ==> Files(Some(y), o.stale, o.before.target) in trace
    {
      var y := Adds(o.before, fs, faults, tolerance);
      if o.stale.Some? && y != [] {
        HonestFits(fs[1..], o.version.content, 0, faults);
        assert [] + y == y;
      }
    }

    /**
     * A full download. Answered honestly on a drained connection, a success stores exactly the client's
     * version, and every disk state is safe if and only if the bytes written are none, or stand beside no
     * stale description, or begin a version it describes.
     */
    method FetchHonest(answer: seq<Frame>, faults: Faults, ghost w: Version, ghost versions: set<Version>,
                       ghost was: Option<Bytes>)
      returns (r: Outcome)
      modifies this
      ensures GetResult(old(files), old(inbox), old(inbox) + answer, faults, r)
      ensures !r.ok ==> index == old(index) && done == old(done)
      ensures Logged()
      ensures Trusts(old(files), old(inbox), w, versions, was) && GetAnswer(answer, w, |Saved(old(files))|) ==>
                && (r.ok ==> IsNow(w))
                && (StaysSafe(versions, was)
                    <==> Described(Stale(old(files), faults), Adds(old(files), answer, faults, tolerance), versions))
    {
      ghost var b := files;
      ghost var o := Origin(b, w, Stale(b, faults));
      ghost var honest := Trusts(b, inbox, w, versions, was) && GetAnswer(answer, w, |Saved(b)|);
      if honest {
        assert inbox + answer == answer;
        if CanResume(b, |w.content|, w.mtime, tolerance) {
          SavedIsPrefix(b, w, versions, was, tolerance);
        }
        if Succeeds(b, answer, faults, tolerance) {
          SuccessIsExact(b, answer, faults, w, versions, was, tolerance);
        }
      }
      r := Fetch(answer, faults, w);
      if honest {
        FetchRecords(o, answer, faults, r);
        SafeIff(o, Adds(b, answer, faults, tolerance), versions, was);
      }
    }

    /** The outcome of a GET attempt with frames fs, of which `before` were unread. */
    ghost predicate GetResult(b: Files, before: seq<Frame>, fs: seq<Frame>, faults: Faults, r: Outcome)
      reads this
    {
      && (r.ok <==> Succeeds(b, fs, faults, tolerance)) && (r.ok ==> Stored(b, fs, faults, r))
      && GivesGet(b, before, fs, faults, r)
      && (r.dropConn || inbox == [] <==> !LeavesFrames(b, fs, faults, tolerance))
    }

    /** Nothing local keeps an announced version from being received: what fails comes before or after its data. */
    predicate Receives(f: Faults) {
      && !f.send && !f.metaRead && f.meta == Written && !f.removePart && !f.removeMeta
      && f.cancelAt.None? && f.writeAt.None?
    }

    /**
     * What becomes of the bytes of a GET attempt that is answered with an announcement, in bytes and sizes:
     * - bytes saved of another version, too many bytes and an end at the wrong size throw everything away;
     * - anything else that goes wrong keeps all bytes received, described as announced;
     * - the connection is given up exactly for another version, too many bytes, its loss and a misplaced frame.
     */
    lemma WhatGetLeaves(b: Files, before: seq<Frame>, fs: seq<Frame>, f: Faults, r: Outcome)
      requires GetResult(b, before, fs, f, r) && Receives(f)
      requires fs != [] && fs[0].GetResp? && fs[0].status == 0
      ensures var m, rest := Meta(fs[0].total, fs[0].mtime), fs[1..];
              var all, n := Saved(b) + Payload(rest), DataRun(rest);
              var gone, kept := Files(None, None, b.target), Files(Some(all), Some(m), b.target);
              if Saved(b) != [] && !(b.meta.Some? && b.meta.value.total == m.total
                                     && -tolerance <= b.meta.value.mtime - m.mtime <= tolerance) then
                !r.ok && r.dropConn && files == gone
              else if f.tempDir || f.open || f.seek then
                !r.ok && !r.dropConn && Saved(files) == Saved(b) && files.meta == Some(m) && files.target == b.target
              else if n > 0 && |all| > m.total then !r.ok && r.dropConn && files == gone
              else if n == |rest| || rest[n] != FileEnd then
                !r.ok && (r.dropConn <==> n == |rest| || !rest[n].Error?) && files == kept
              else if f.sync || f.stat then !r.ok && !r.dropConn && files == kept
              else if |all| != m.total then !r.ok && !r.dropConn && files == gone
              else if f.targetDir || f.rename then !r.ok && !r.dropConn && files == kept
              else && files == Files(None, None, Some(all)) && (r.ok <==> !f.index)
                   && (r.ok ==> index == Some(m) && done && r.bytes == |Payload(rest)| && inbox == rest[n + 1..])
    {
      assert Payload(fs[1..]) + [] == Payload(fs[1..]);
    }

    /** The frame that is being received is cancelled or cannot be written whole, and none before it was. */
    predicate StopsIn(f: Faults, k: nat) {
      && !f.send && !f.metaRead && f.meta == Written && Opens(f)
      && (f.cancelAt == Some(k) || f.writeAt == Some(k))
      && (f.cancelAt.Some? ==> k <= f.cancelAt.value) && (f.writeAt.Some? ==> k <= f.writeAt.value)
    }

    /**
     * A GET attempt stopped in its data frame k, up to which the bytes fit the announced size: a cancellation
     * gives the connection up and keeps the frames before it; a failed write keeps the connection, and with
     * the frames before it whatever part of frame k it wrote.
     */
    lemma WhatAStopLeaves(b: Files, before: seq<Frame>, fs: seq<Frame>, f: Faults, r: Outcome, k: nat)
      requires GetResult(b, before, fs, f, r) && StopsIn(f, k)
      requires fs != [] && fs[0].GetResp? && fs[0].status == 0 && k < DataRun(fs[1..])
      requires CanResume(b, fs[0].total, fs[0].mtime, tolerance)
      requires k == 0 || |Saved(b) + Carried(fs[1..], k)| <= fs[0].total
      ensures var m, whole, d := Meta(fs[0].total, fs[0].mtime), Saved(b) + Carried(fs[1..], k), fs[1..][k].data;
              && !r.ok && (r.dropConn <==> f.cancelAt == Some(k))
              && files == Files(Some(whole + if f.cancelAt == Some(k) then []
                                             else if f.wrote < |d| then d[..f.wrote] else d), Some(m), b.target)
    {
      var rest := fs[1..];
      Associate(Saved(b), Carried(rest, k), Cut(rest[k].data, k, f));
      assert rest[k].data[..|rest[k].data|] == rest[k].data;
    }

    /** The first k frames can be replayed, and frame k, if there is one for a block, cannot. */
    predicate ReplaysUpTo(prev: Bytes, bs: nat, total: nat, rest: seq<Frame>, k: nat)
      requires bs > 0
    {
      && k <= BlockCount(total, bs) && k <= |rest| && Replay(prev, bs, total, rest, k).Some?
      && (k < BlockCount(total, bs) && k < |rest| ==> Piece(prev, bs, total, k, rest[k]).None?)
    }

    /** Nothing local keeps the blocks of a delta from being rebuilt: what fails comes before or after them. */
    predicate Rebuilds(f: DeltaFaults) {
      && !f.openOld && !f.hashRead && !f.send && !f.removeMeta && !f.removePart
      && f.cancelAt.None? && f.writeAt.None? && f.readOld.None?
    }

    /**
     * What becomes of a delta attempt that is answered with an announcement, when its first k blocks can be
     * replayed and block k, if there is one, cannot: everything that stops it before the target is replaced
     * keeps the blocks rebuilt so far, without a description, except that a failing stat throws them away.
     * The connection is given up exactly for its loss and a misplaced frame.
     */
    lemma WhatDeltaLeaves(b: Files, bs: nat, before: seq<Frame>, fs: seq<Frame>, f: DeltaFaults, r: Outcome, k: nat)
      requires bs > 0 && b.target.Some? && DeltaResult(b, bs, before, fs, f, r) && Rebuilds(f)
      requires fs != [] && fs[0].DeltaResp? && fs[0].status == 0
      requires ReplaysUpTo(b.target.value, bs, fs[0].total, fs[1..], k)
      ensures var m, rest, n := Meta(fs[0].total, fs[0].mtime), fs[1..], BlockCount(fs[0].total, bs);
              var held := Replay(b.target.value, bs, m.total, rest, k);
              var kept := Files(held, None, b.target);
              if f.tempDir || f.open then !r.ok && !r.dropConn && files == b.(meta := None)
              else if k == |rest| then !r.ok && r.dropConn && files == kept
              else if k < n then !r.ok && (r.dropConn <==> !rest[k].Error? && !rest[k].BlockKeep?) && files == kept
              else if rest[n] != FileEnd then !r.ok && r.dropConn && files == kept
              else if f.sync || (f.rename && !f.stat) then !r.ok && !r.dropConn && files == kept
              else if f.stat then !r.ok && !r.dropConn && files == Files(None, None, b.target)
              else && files == Files(None, None, held) && (r.ok <==> !f.index) && (r.ok ==> index == Some(m) && done)
    {
      StopsWhere(b.target.value, bs, fs[0].total, fs[1..], f, 0, k);
      var held := Replay(b.target.value, bs, fs[0].total, fs[1..], k).value;
      assert held + [] == held;
      if k < BlockCount(fs[0].total, bs) && k < |fs[1..]| {
        BlockStops(b.target.value, bs, fs[0].total, fs[1..], f, k);
      }
    }

    /** A delta download, with the same two facts when it is answered honestly on a drained connection. */
    method DeltaHonest<H(!new, ==)>(c: DeltaConfig, hash: Bytes -> H, answer: seq<Frame>, faults: DeltaFaults,
                                    ghost w: Version, ghost versions: set<Version>, ghost was: Option<Bytes>)
      returns (r: Outcome, fallback: bool)
      requires TriesDelta(files, c)
      modifies this
      ensures fallback <==> !UsesDelta(old(files), c, old(inbox) + answer, faults)
      ensures fallback ==> && !r.ok && files == old(files)
                           && inbox == AfterFallback(old(files), c, old(inbox), answer, faults)
      ensures !fallback ==> DeltaResult(old(files), c.bs, old(inbox), old(inbox) + answer, faults, r)
      ensures !r.ok ==> index == old(index) && done == old(done)
      ensures Logged()
      ensures Trusts(old(files), old(inbox), w, versions, was)
              && HonestDelta(answer, old(files).target.value, c.bs, hash, w) ==>
                && (r.ok ==> IsNow(w)) && (fallback ==> inbox == [])
                && (!fallback ==>
                      (StaysSafe(versions, was)
                       <==> Described(StaleDelta(old(files), faults),
                                      DeltaAdds(old(files).target.value, c.bs, answer, faults), versions)))
    {
      ghost var b, before := files, inbox;
      assert inbox == [] ==> inbox + answer == answer;
      var saved;
      r, fallback, saved := DeltaDownload(c, hash, answer, faults, w);
      if !fallback && Trusts(b, before, w, versions, was) && HonestDelta(answer, b.target.value, c.bs, hash, w) {
        DeltaProves(b, c.bs, hash, answer, faults, w, r, saved, versions, was);
      }
    }

    /** What follows from an honest answer on a drained connection. */
    lemma DeltaProves<H(!new)>(b: Files, bs: nat, hash: Bytes -> H, fs: seq<Frame>, faults: DeltaFaults, w: Version,
                               r: Outcome, saved: nat, versions: set<Version>, was: Option<Bytes>)
      requires bs > 0 && b.target.Some? && Trusts(b, [], w, versions, was)
      requires DeltaOutcome(b, bs, hash, [], fs, faults, w, r, saved) && HonestDelta(fs, b.target.value, bs, hash, w)
      ensures r.ok ==> IsNow(w)
      ensures StaysSafe(versions, was)
        <==> Described(StaleDelta(b, faults), DeltaAdds(b.target.value, bs, fs, faults), versions)
    {
      if fs != [] && fs[0].DeltaResp? {
        HonestBlocks(fs, b.target.value, bs, hash, w);
      }
      SafeIff(Origin(b, w, StaleDelta(b, faults)), DeltaAdds(b.target.value, bs, fs, faults), versions, was);
    }

    /** Whether every disk state of a download is safe: no byte beside a description of another version. */
    ghost predicate KeepsSafe(b: Files, c: DeltaConfig, deltaAnswer: seq<Frame>, deltaFaults: DeltaFaults,
                              getAnswer: seq<Frame>, getFaults: Faults, versions: set<Version>)
    {
      if UsesDelta(b, c, deltaAnswer, deltaFaults)
      then Described(StaleDelta(b, deltaFaults), DeltaAdds(b.target.value, c.bs, deltaAnswer, deltaFaults), versions)
      else Described(Stale(b, getFaults), Adds(b, getAnswer, getFaults, tolerance), versions)
    }

    /** What one attempt leads to, from disk b on a connection with `before` unread: its delta, or its full download. */
    ghost predicate OneResult(b: Files, before: seq<Frame>, c: DeltaConfig, deltaAnswer: seq<Frame>,
                              deltaFaults: DeltaFaults, getAnswer: seq<Frame>, getFaults: Faults, r: Outcome)
      reads this
    {
      if UsesDelta(b, c, before + deltaAnswer, deltaFaults)
      then DeltaResult(b, c.bs, before, before + deltaAnswer, deltaFaults, r)
      else
        var left := AfterFallback(b, c, before, deltaAnswer, deltaFaults);
        GetResult(b, left, left + getAnswer, getFaults, r)
    }

    /** The first frame an attempt reads after the request that decides it: the delta's, or the full download's. */
    function FirstReply(b: Files, before: seq<Frame>, c: DeltaConfig, deltaAnswer: seq<Frame>,
                        deltaFaults: DeltaFaults, getAnswer: seq<Frame>, getFaults: Faults): Option<Frame> {
      var delta := UsesDelta(b, c, before + deltaAnswer, deltaFaults);
      var fs := if delta then before + deltaAnswer
                else AfterFallback(b, c, before, deltaAnswer, deltaFaults) + getAnswer;
      if fs == [] || (if delta then deltaFaults.send else getFaults.send) then None else Some(fs[0])
    }

    /**
     * Which replies end a task: NOT_FOUND, in whichever phase, and nothing else. Any other error report fails
     * the attempt with its code, and neither touches the disk nor gives the connection up.
     */
    ghost predicate SkipsOnlyMissing(b: Files, reply: Option<Frame>, r: Outcome)
      reads this
    {
      && (r.skipNow <==> reply == Some(Error(NotFound)))
      && (reply.Some? && reply.value.Error? ==>
            !r.ok && !r.dropConn && r.code == reply.value.code && files == b)
    }

    lemma GetReplyDecides(b: Files, before: seq<Frame>, fs: seq<Frame>, faults: Faults, r: Outcome)
      requires GetResult(b, before, fs, faults, r)
      ensures SkipsOnlyMissing(b, if fs == [] || faults.send then None else Some(fs[0]), r)
    {
    }

    lemma DeltaReplyDecides(b: Files, bs: nat, before: seq<Frame>, fs: seq<Frame>, faults: DeltaFaults, r: Outcome)
      requires bs > 0 && b.target.Some? && DeltaResult(b, bs, before, fs, faults, r)
      ensures SkipsOnlyMissing(b, if fs == [] || faults.send then None else Some(fs[0]), r)
    {
    }

    lemma ReplyDecides(b: Files, before: seq<Frame>, c: DeltaConfig, deltaAnswer: seq<Frame>,
                       deltaFaults: DeltaFaults, getAnswer: seq<Frame>, getFaults: Faults, r: Outcome)
      requires OneResult(b, before, c, deltaAnswer, deltaFaults, getAnswer, getFaults, r)
      ensures SkipsOnlyMissing(b, FirstReply(b, before, c, deltaAnswer, deltaFaults, getAnswer, getFaults), r)
    {
      if UsesDelta(b, c, before + deltaAnswer, deltaFaults) {
        DeltaReplyDecides(b, c.bs, before, before + deltaAnswer, deltaFaults, r);
      } else {
        var left := AfterFallback(b, c, before, deltaAnswer, deltaFaults);
        GetReplyDecides(b, left, left + getAnswer, getFaults, r);
      }
    }

    /**
     * downloadOne: the delta where it is used, otherwise the full download. For whatever disk, connection,
     * answers and failures, OneResult says exactly when it succeeds, what it stores or leaves on the disk,
     * and what it leaves unread. On a drained connection to a client that tells the truth about its current
     * version w, a success stores exactly w, indexes it and drains the connection, and every disk state is
     * safe exactly as KeepsSafe says.
     */
    method DownloadOne<H(!new, ==)>(insideRoot: bool, c: DeltaConfig, hash: Bytes -> H,
                                    deltaAnswer: seq<Frame>, deltaFaults: DeltaFaults,
                                    getAnswer: seq<Frame>, getFaults: Faults,
                                    ghost w: Version, ghost versions: set<Version>, ghost was: Option<Bytes>)
      returns (r: Outcome)
      modifies this
      ensures !insideRoot ==> && r.skipNow && !r.ok && !r.dropConn
                              && files == old(files) && inbox == old(inbox) && trace == old(trace)
      ensures insideRoot ==>
                OneResult(old(files), old(inbox), c, deltaAnswer, deltaFaults, getAnswer, getFaults, r) && Logged()
      ensures insideRoot ==>
                SkipsOnlyMissing(old(files), FirstReply(old(files), old(inbox), c, deltaAnswer, deltaFaults, getAnswer,
                                                        getFaults), r)
      ensures !r.ok ==> index == old(index) && done == old(done)
      ensures insideRoot && Trusts(old(files), old(inbox), w, versions, was)
              && GetAnswer(getAnswer, w, |Saved(old(files))|)
              && (TriesDelta(old(files), c) ==> HonestDelta(deltaAnswer, old(files).target.value, c.bs, hash, w)) ==>
                && (r.ok ==> IsNow(w))
                && (StaysSafe(versions, was)
                    <==> KeepsSafe(old(files), c, deltaAnswer, deltaFaults, getAnswer, getFaults, versions))
    {
      if !insideRoot {
        return Refuse(ProtocolError).(skipNow := true);
      }
      assert inbox == [] ==> inbox + deltaAnswer == deltaAnswer;
      ghost var b, before := files, inbox;
      var whole := true;
      if c.min > 0 && c.bs > 0 && files.target.Some? && |files.target.value| >= c.min {
        r, whole := DeltaHonest(c, hash, deltaAnswer, deltaFaults, w, versions, was);
      }
      if whole {
        r := FetchHonest(getAnswer, getFaults, w, versions, was);
      }
      ReplyDecides(b, before, c, deltaAnswer, deltaFaults, getAnswer, getFaults, r);
    }
  }
}
