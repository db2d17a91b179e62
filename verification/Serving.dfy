/**
 * The client side of GET and delta: what a request is answered with, complete or cut short by the
 * connection. The file system and its errors are parameters; a file that shrinks while it is read
 * gives an early end of file.
 */
module Serving {
  import opened Basics
  import opened Frames
  import opened Delta

  /** Number of FILE_DATA frames at the front. */
  function DataRun(fs: seq<Frame>): (n: nat)
    ensures n <= |fs| && (n < |fs| ==> !fs[n].FileData?)
    ensures forall i | 0 <= i < n :: fs[i].FileData?
    decreases |fs|
  {
    if fs != [] && fs[0].FileData? then 1 + DataRun(fs[1..]) else 0
  }

  /** The bytes carried by the first k of the leading FILE_DATA frames. */
  function Carried(fs: seq<Frame>, k: nat): Bytes
    requires k <= DataRun(fs)
  {
    if k == 0 then [] else Carried(fs, k - 1) + fs[k - 1].data
  }

  /** The bytes carried by the leading FILE_DATA frames. */
  function Payload(fs: seq<Frame>): Bytes {
    Carried(fs, DataRun(fs))
  }

  lemma {:induction false} CarriedGrows(fs: seq<Frame>, j: nat, k: nat)
    requires j <= k <= DataRun(fs)
    ensures Carried(fs, j) <= Carried(fs, k)
  {
    if j < k {
      CarriedGrows(fs, j, k - 1);
    }
  }

  lemma {:induction false} RunIs(fs: seq<Frame>, n: nat)
    requires n <= |fs| && (n < |fs| ==> !fs[n].FileData?)
    requires forall i | 0 <= i < n :: fs[i].FileData?
    ensures DataRun(fs) == n
    decreases |fs|
  {
  }

  lemma {:induction false} CarriedAgrees(fs: seq<Frame>, gs: seq<Frame>, k: nat)
    requires k <= DataRun(fs) && k <= DataRun(gs)
    requires forall i | 0 <= i < k :: fs[i] == gs[i]
    ensures Carried(fs, k) == Carried(gs, k)
  {
    if k > 0 {
      CarriedAgrees(fs, gs, k - 1);
    }
  }

  /** Data frames followed by nothing (a cut), by the end marker, or by the report of a read error. */
  predicate StreamTail(rest: seq<Frame>) {
    var n := DataRun(rest);
    n == |rest| || (|rest| == n + 1 && (rest[n].FileEnd? || rest[n] == Error(IOError)))
  }

  /**
   * What a server can receive for one GET of version w from `offset`: a refusal, or the announced
   * size and time followed by bytes of w from that offset on. Closed under cuts.
   */
  predicate GetAnswer(fs: seq<Frame>, w: Version, offset: nat) {
    || fs == []
    || (|fs| == 1 && fs[0].Error?)
    || (&& fs[0] == GetResp(0, |w.content|, w.mtime) && offset <= |w.content|
        && Payload(fs[1..]) <= w.content[offset..] && StreamTail(fs[1..]))
  }

  /** The whole answer: everything from the offset on, and the end marker. */
  predicate WholeAnswer(fs: seq<Frame>, w: Version, offset: nat) {
    && offset <= |w.content| && |fs| >= 2 && fs[0] == GetResp(0, |w.content|, w.mtime)
    && DataRun(fs[1..]) + 2 == |fs| && fs[|fs| - 1].FileEnd? && Payload(fs[1..]) == w.content[offset..]
  }

  /** Every data frame carries something. */
  predicate NoEmptyData(fs: seq<Frame>) {
    forall i | 0 <= i < |fs| && fs[i].FileData? :: fs[i].data != []
  }

  /** A connection may be lost anywhere in an answer. */
  lemma CutIsAnswer(fs: seq<Frame>, whole: seq<Frame>, w: Version, offset: nat)
    requires GetAnswer(whole, w, offset) && fs <= whole
    ensures GetAnswer(fs, w, offset)
  {
    if |fs| > 1 {
      var n := DataRun(whole[1..]);
      RunIs(fs[1..], Min(n, |fs| - 1));
      CarriedAgrees(fs[1..], whole[1..], DataRun(fs[1..]));
      CarriedGrows(whole[1..], DataRun(fs[1..]), n);
    }
  }

  /** The file behind a requested path, or the error the client reports instead. */
  datatype Lookup = Found(version: Version) | Refused(code: ErrorCode)

  /** One read: n bytes (at most what was asked for), then more to come, end of file, or an error. */
  datatype Read = Read(n: nat, end: ReadEnd)
  datatype ReadEnd = More | Eof | Failed

  lemma AppendData(fs: seq<Frame>, d: Bytes)
    requires DataRun(fs) == |fs|
    ensures DataRun(fs + [FileData(d)]) == |fs| + 1 && Payload(fs + [FileData(d)]) == Payload(fs) + d
  {
    RunIs(fs + [FileData(d)], |fs| + 1);
    CarriedAgrees(fs, fs + [FileData(d)], |fs|);
  }

  lemma AppendLast(fs: seq<Frame>, f: Frame)
    requires DataRun(fs) == |fs| && !f.FileData?
    ensures DataRun(fs + [f]) == |fs| && Payload(fs + [f]) == Payload(fs)
  {
    RunIs(fs + [f], |fs|);
    CarriedAgrees(fs, fs + [f], |fs|);
  }

  /** How many of n bytes the first k reads deliver, when each asks for a chunk or for what is left. */
  function Delivered(n: nat, chunk: nat, input: nat -> Read, k: nat): (d: nat)
    ensures d <= n
  {
    if k == 0 then 0
    else
      var d := Delivered(n, chunk, input, k - 1);
      d + Min(input(k - 1).n, Min(chunk, n - d))
  }

  /** In front of each of the first k reads something was left to be read, and the one before had more to come. */
  predicate ReadsGoOn(n: nat, chunk: nat, input: nat -> Read, k: nat) {
    forall i | 0 <= i < k :: Delivered(n, chunk, input, i) < n && (i > 0 ==> input(i - 1).end.More?)
  }

  /** The reads end with the k-th: all n bytes have been delivered, or it came to the end of the file, or failed. */
  predicate ReadsEnd(n: nat, chunk: nat, input: nat -> Read, k: nat) {
    ReadsGoOn(n, chunk, input, k) && (Delivered(n, chunk, input, k) == n || (k > 0 && !input(k - 1).end.More?))
  }

  /** The last of k reads failed. */
  predicate ReadFails(input: nat -> Read, k: nat) {
    k > 0 && input(k - 1).end.Failed?
  }

  /** Every data frame carries something, and no more than a chunk. */
  predicate Chunked(fs: seq<Frame>, chunk: nat) {
    forall i | 0 <= i < |fs| && fs[i].FileData? :: 0 < |fs[i].data| <= chunk
  }

  /** The stream for n bytes of c from the offset on: the bytes of the reads up to the last one, however it ended. */
  ghost predicate StreamOf(body: seq<Frame>, failed: bool, c: Bytes, offset: nat, chunk: nat, input: nat -> Read)
    requires offset <= |c|
  {
    exists k :: && ReadsEnd(|c| - offset, chunk, input, k)
                && Payload(body) == c[offset..offset + Delivered(|c| - offset, chunk, input, k)]
                && (failed <==> ReadFails(input, k))
  }

  /** Data frames for d bytes of c from the offset on. */
  predicate Carries(body: seq<Frame>, c: Bytes, offset: nat, chunk: nat, d: nat) {
    && offset + d <= |c| && DataRun(body) == |body| <= d && Payload(body) == c[offset..offset + d]
    && NoEmptyData(body) && Chunked(body, chunk)
  }

  lemma CarriesMore(body: seq<Frame>, c: Bytes, offset: nat, chunk: nat, d: nat, n: nat)
    requires Carries(body, c, offset, chunk, d) && 0 < n <= chunk && offset + d + n <= |c|
    ensures Carries(body + [FileData(c[offset + d..offset + d + n])], c, offset, chunk, d + n)
  {
    AppendData(body, c[offset + d..offset + d + n]);
    assert c[offset..offset + d] + c[offset + d..offset + d + n] == c[offset..offset + d + n];
  }

  /** The frames of the first i reads, of which all but the last one delivered and left more to come. */
  predicate SentSoFar(body: seq<Frame>, c: Bytes, offset: nat, chunk: nat, input: nat -> Read, i: nat)
    requires offset <= |c|
  {
    var n := |c| - offset;
    Carries(body, c, offset, chunk, Delivered(n, chunk, input, i)) && ReadsGoOn(n, chunk, input, i)
  }

  /** One read and the frame for it, if it delivers anything. */
  method SendRead(body: seq<Frame>, c: Bytes, offset: nat, chunk: nat, input: nat -> Read, i: nat, remaining: nat)
    returns (longer: seq<Frame>, left: nat)
    requires offset <= |c| && SentSoFar(body, c, offset, chunk, input, i)
    requires 0 < remaining == |c| - offset - Delivered(|c| - offset, chunk, input, i)
    requires i > 0 ==> input(i - 1).end.More?
    ensures SentSoFar(longer, c, offset, chunk, input, i + 1)
    ensures left == |c| - offset - Delivered(|c| - offset, chunk, input, i + 1)
    ensures left == remaining - Min(input(i).n, Min(chunk, remaining))
  {
    var at := |c| - remaining;
    var toRead := if chunk > remaining then remaining else chunk;
    var n := Min(input(i).n, toRead);
    longer, left := body, remaining;
    if n > 0 {
      CarriesMore(body, c, offset, chunk, at - offset, n);
      longer := body + [FileData(c[at..at + n])];
      left := remaining - n;
    }
    SentOneMore(body, longer, c, offset, chunk, input, i);
  }

  lemma SentOneMore(body: seq<Frame>, longer: seq<Frame>, c: Bytes, offset: nat, chunk: nat, input: nat -> Read, i: nat)
    requires offset <= |c| && SentSoFar(body, c, offset, chunk, input, i) && (i > 0 ==> input(i - 1).end.More?)
    requires Delivered(|c| - offset, chunk, input, i) < |c| - offset
    requires Carries(longer, c, offset, chunk, Delivered(|c| - offset, chunk, input, i + 1))
    ensures SentSoFar(longer, c, offset, chunk, input, i + 1)
  {
  }

  /** handleGet's loop: data frames for bytes of c from the offset on, until all is sent or a read stops it. */
  method StreamFile(c: Bytes, offset: nat, chunk: nat, input: nat -> Read) returns (body: seq<Frame>, failed: bool)
    requires offset <= |c| && chunk > 0 && forall i :: input(i).n > 0 || !input(i).end.More?
    ensures DataRun(body) == |body| <= |c| - offset && Payload(body) <= c[offset..]
    ensures (forall i :: input(i).end.More?) ==> Payload(body) == c[offset..] && !failed
    ensures NoEmptyData(body) && Chunked(body, chunk) && StreamOf(body, failed, c, offset, chunk, input)
  {
    body, failed := [], false;
    var remaining := |c| - offset;
    var i := 0;
    while remaining > 0
      invariant SentSoFar(body, c, offset, chunk, input, i) && (i > 0 ==> input(i - 1).end.More?)
      invariant remaining == |c| - offset - Delivered(|c| - offset, chunk, input, i)
      decreases remaining
    {
      body, remaining := SendRead(body, c, offset, chunk, input, i, remaining);
      i := i + 1;
      if input(i - 1).end.Eof? {
        break;
      }
      if input(i - 1).end.Failed? {
        failed := true;
        break;
      }
    }
    StreamEnds(body, failed, c, offset, chunk, input, i);
  }

  lemma StreamEnds(body: seq<Frame>, failed: bool, c: Bytes, offset: nat, chunk: nat, input: nat -> Read, i: nat)
    requires offset <= |c| && SentSoFar(body, c, offset, chunk, input, i)
    requires Delivered(|c| - offset, chunk, input, i) == |c| - offset || (i > 0 && !input(i - 1).end.More?)
    requires failed <==> ReadFails(input, i)
    ensures StreamOf(body, failed, c, offset, chunk, input) && Payload(body) <= c[offset..]
    ensures (forall k :: input(k).end.More?) ==> Payload(body) == c[offset..] && !failed
  {
    var n, d := |c| - offset, Delivered(|c| - offset, chunk, input, i);
    assert ReadsEnd(n, chunk, input, i);
    PartOfRest(c, offset, d);
  }

  lemma PartOfRest(c: Bytes, offset: nat, d: nat)
    requires offset + d <= |c|
    ensures c[offset..offset + d] <= c[offset..] && (offset + d == |c| ==> c[offset..offset + d] == c[offset..])
  {
  }

  lemma AnswerOf(fs: seq<Frame>, w: Version, offset: nat, rest: seq<Frame>)
    requires offset <= |w.content| && Payload(rest) <= w.content[offset..] && |rest| == DataRun(rest) + 1
    requires rest[DataRun(rest)].FileEnd? || rest[DataRun(rest)] == Error(IOError)
    requires |fs| == |rest| + 1 && fs[0] == GetResp(0, |w.content|, w.mtime) && fs[1..] == rest
    ensures GetAnswer(fs, w, offset)
    ensures rest[DataRun(rest)].FileEnd? && Payload(rest) == w.content[offset..] ==> WholeAnswer(fs, w, offset)
  {
    assert fs[|fs| - 1] == rest[|rest| - 1];
  }

  lemma Assemble(w: Version, offset: nat, body: seq<Frame>, last: Frame)
    requires offset <= |w.content| && DataRun(body) == |body| && Payload(body) <= w.content[offset..]
    requires last.FileEnd? || last == Error(IOError)
    ensures var fs := [GetResp(0, |w.content|, w.mtime)] + body + [last];
            && GetAnswer(fs, w, offset)
            && (last.FileEnd? && Payload(body) == w.content[offset..] ==> WholeAnswer(fs, w, offset))
  {
    var fs := [GetResp(0, |w.content|, w.mtime)] + body + [last];
    AppendLast(body, last);
    assert fs[1..] == body + [last];
    AnswerOf(fs, w, offset, body + [last]);
  }

  /**
   * The answer to a GET of version w, by the client's reads: the announcement, the bytes of the reads up to the
   * last one, and an error report if that one failed, otherwise the end marker.
   */
  ghost predicate Serves(fs: seq<Frame>, w: Version, offset: nat, chunk: nat, input: nat -> Read)
    requires offset <= |w.content|
  {
    && |fs| >= 2 && fs[0] == GetResp(0, |w.content|, w.mtime)
    && var body, last := fs[1..|fs| - 1], fs[|fs| - 1];
       && DataRun(body) == |body| && Chunked(body, chunk)
       && (last == FileEnd || last == Error(IOError))
       && StreamOf(body, last != FileEnd, w.content, offset, chunk, input)
  }

  /**
   * handleGet. What is sent follows from the reads: it ends with an error report exactly when a read fails
   * before the file's end is met and before all bytes asked for are sent. The answer is whole when every
   * read delivers, and BAD_OFFSET exactly when the file is now shorter than the offset asked for.
   */
  method HandleGet(found: Lookup, offset: nat, chunk: nat, input: nat -> Read) returns (fs: seq<Frame>)
    requires chunk > 0 && forall i :: input(i).n > 0 || !input(i).end.More?
    ensures found.Found? ==> GetAnswer(fs, found.version, offset)
    ensures found.Refused? ==> fs == [Error(found.code)]
    ensures found.Found? && offset <= |found.version.content| ==> Serves(fs, found.version, offset, chunk, input)
    ensures NoEmptyData(fs)
    ensures found.Found? && offset <= |found.version.content| ==> |fs| <= |found.version.content| - offset + 2
    ensures found.Found? ==> (fs == [Error(BadOffset)] <==> offset > |found.version.content|)
    ensures found.Found? && offset <= |found.version.content| && (forall i :: input(i).end.More?)
      ==> WholeAnswer(fs, found.version, offset)
  {
    if found.Refused? {
      return [Error(found.code)];
    }
    var w := found.version;
    var total := |w.content|;
    if offset > total {
      return [Error(BadOffset)];
    }
    var body, failed := StreamFile(w.content, offset, chunk, input);
    var last := if failed then Error(IOError) else FileEnd;
    Assemble(w, offset, body, last);
    fs := [GetResp(0, total, w.mtime)] + body + [last];
    assert fs[1..|fs| - 1] == body;
  }

  /** The answer of a client whose reads all deliver. */
  method SendWhole(w: Version, offset: nat, chunk: nat) returns (fs: seq<Frame>)
    requires offset <= |w.content| && chunk > 0
    ensures WholeAnswer(fs, w, offset) && NoEmptyData(fs) && |fs| <= |w.content| - offset + 2
  {
    fs := HandleGet(Found(w), offset, chunk, _ => Read(chunk, More));
  }

  // ---- Delta ----

  /** What a server can receive for one delta request against version w. Closed under cuts. */
  predicate DeltaAnswer<H(==)>(fs: seq<Frame>, w: Version, bs: nat, hashes: seq<H>, hash: Bytes -> H)
    requires bs > 0
  {
    var n := BlockCount(|w.content|, bs);
    || fs == []
    || (|fs| == 1 && fs[0].Error?)
    || (&& fs[0] == DeltaResp(0, |w.content|, w.mtime) && |fs| <= n + 2
        && (forall i | 0 <= i < n && i + 1 < |fs| ::
              fs[i + 1] == BlockFrame(w.content, bs, hashes, hash, i) || (i + 2 == |fs| && fs[i + 1] == Error(IOError)))
        && (|fs| == n + 2 ==> fs[n + 1].FileEnd?))
  }

  lemma CutIsDeltaAnswer<H>(fs: seq<Frame>, whole: seq<Frame>, w: Version, bs: nat, hashes: seq<H>, hash: Bytes -> H)
    requires bs > 0 && DeltaAnswer(whole, w, bs, hashes, hash) && fs <= whole
    ensures DeltaAnswer(fs, w, bs, hashes, hash)
  {
  }

  /** handleDelta's loop, where only the first `readable` blocks of the file can still be read. */
  method StreamBlocks<H(==)>(c: Bytes, bs: nat, hashes: seq<H>, hash: Bytes -> H, readable: nat)
    returns (body: seq<Frame>, failed: bool)
    requires bs > 0
    ensures |body| <= BlockCount(|c|, bs) && body == BlockFrames(c, bs, hashes, hash, |body|)
    ensures failed <==> readable < BlockCount(|c|, bs)
    ensures !failed ==> |body| == BlockCount(|c|, bs)
    ensures failed ==> |body| == readable
  {
    body, failed := [], false;
    var n := (|c| + bs - 1) / bs;
    for i := 0 to n
      invariant |body| == i <= readable && body == BlockFrames(c, bs, hashes, hash, i)
    {
      BlockStep(|c|, bs, i);
      if i >= readable {
        failed := true;
        return;
      }
      var bl := if |c| - i * bs < bs then |c| - i * bs else bs;
      var b := c[i * bs..i * bs + bl];
      if i < |hashes| && hash(b) == hashes[i] {
        body := body + [BlockKeep];
      } else {
        body := body + [FileData(b)];
      }
    }
  }

  lemma AssembleDelta<H>(w: Version, bs: nat, hashes: seq<H>, hash: Bytes -> H, k: nat, last: Frame)
    requires bs > 0 && k <= BlockCount(|w.content|, bs)
    requires if k == BlockCount(|w.content|, bs) then last.FileEnd? else last == Error(IOError)
    ensures DeltaAnswer([DeltaResp(0, |w.content|, w.mtime)] + BlockFrames(w.content, bs, hashes, hash, k) + [last],
                        w, bs, hashes, hash)
  {
    var n := BlockCount(|w.content|, bs);
    var body := BlockFrames(w.content, bs, hashes, hash, k);
    var fs := [DeltaResp(0, |w.content|, w.mtime)] + body + [last];
    forall i: nat | i < n && i + 1 < |fs|
      ensures fs[i + 1] == BlockFrame(w.content, bs, hashes, hash, i) || (i + 2 == |fs| && fs[i + 1] == Error(IOError))
    {
      if i < k {
        BlockFramesAt(w.content, bs, hashes, hash, k, i);
        assert fs[i + 1] == body[i];
      }
    }
  }

  /**
   * handleDelta: the announcement, one frame per block that can be read, and the end marker, or an error report
   * in place of the first block that cannot be read.
   */
  method HandleDelta<H(==)>(found: Lookup, bs: nat, hashes: seq<H>, hash: Bytes -> H, readable: nat)
    returns (fs: seq<Frame>)
    ensures bs == 0 ==> fs == [Error(ProtocolError)]
    ensures bs > 0 && found.Refused? ==> fs == [Error(found.code)]
    ensures bs > 0 && found.Found? ==> DeltaAnswer(fs, found.version, bs, hashes, hash)
    ensures bs > 0 && found.Found? ==>
      var n := BlockCount(|found.version.content|, bs);
      fs == [DeltaResp(0, |found.version.content|, found.version.mtime)]
        + BlockFrames(found.version.content, bs, hashes, hash, Min(readable, n))
        + [if readable < n then Error(IOError) else FileEnd]
  {
    if bs == 0 {
      return [Error(ProtocolError)];
    }
    if found.Refused? {
      return [Error(found.code)];
    }
    var w := found.version;
    var body, failed := StreamBlocks(w.content, bs, hashes, hash, readable);
    var last := if failed then Error(IOError) else FileEnd;
    AssembleDelta(w, bs, hashes, hash, |body|, last);
    fs := [DeltaResp(0, |w.content|, w.mtime)] + body + [last];
  }
}
