/**
 * What the messages look like on the wire: every field at its place, numbers most significant byte first,
 * as the table of message types lays them out. Round trips alone would allow any layout.
 */
module Layout {
  import opened Basics
  import opened Wire
  import opened Messages

  /** The bytes x stand in b from `at` on. */
  predicate BytesAt(b: Bytes, at: nat, x: Bytes) {
    at + |x| <= |b| && b[at..at + |x|] == x
  }

  /** The number v stands in n bytes of b from `at` on: the last of them counts units, those before it the 256s. */
  predicate NumberAt(b: Bytes, at: nat, n: nat, v: nat) {
    at + n <= |b| && (n == 0 || (b[at + n - 1] == v % 0x100 && NumberAt(b, at, n - 1, v / 0x100)))
  }

  /** A string: its length in 4 bytes, then its bytes. */
  predicate StrAt(b: Bytes, at: nat, s: Bytes) {
    NumberAt(b, at, 4, |s|) && BytesAt(b, at + 4, s)
  }

  /** Two's complement. */
  predicate SignedAt(b: Bytes, at: nat, v: i64) {
    NumberAt(b, at, 8, if v < 0 then v + 0x1_0000_0000_0000_0000 else v)
  }

  /** Path, size and time of a listed file; the next one begins at 20 bytes and the path's length further on. */
  predicate EntriesAt(b: Bytes, at: nat, es: seq<FileEntry>)
    decreases |es|
  {
    if es == [] then at == |b|
    else
      var p := es[0].path;
      && StrAt(b, at, p) && NumberAt(b, at + 4 + |p|, 8, es[0].size) && SignedAt(b, at + 12 + |p|, es[0].mtime)
      && EntriesAt(b, at + 20 + |p|, es[1..])
  }

  predicate MountsAt(b: Bytes, at: nat, ms: seq<MountInfo>)
    decreases |ms|
  {
    if ms == [] then at == |b|
    else
      var p := ms[0].mount;
      && StrAt(b, at, p) && NumberAt(b, at + 4 + |p|, 8, ms[0].total) && NumberAt(b, at + 12 + |p|, 8, ms[0].free)
      && MountsAt(b, at + 20 + |p|, ms[1..])
  }

  /** Hash i stands at 32 bytes a hash. */
  predicate HashesAt(b: Bytes, at: nat, hs: seq<Hash>) {
    |b| == at + 32 * |hs| && forall i | 0 <= i < |hs| :: BytesAt(b, at + 32 * i, hs[i])
  }

  predicate StatusAt(b: Bytes, status: u8, total: u64, mtime: i64) {
    |b| == 17 && b[0] == status && NumberAt(b, 1, 8, total) && SignedAt(b, 9, mtime)
  }

  /** The payload b of message m, field by field. */
  predicate LaidOut(b: Bytes, m: Message) {
    match m
    case AuthReq(v, p) => |b| == 5 + |p| && b[0] == v && StrAt(b, 1, p)
    case AuthResp(p, s) => |b| == 5 + |p| && StrAt(b, 0, p) && b[4 + |p|] == s
    case ListReq(r) => |b| == 4 + |r| && StrAt(b, 0, r)
    case ListBatch(last, es) =>
      |b| >= 5 && b[0] == (if last then 1 else 0) && NumberAt(b, 1, 4, |es|) && EntriesAt(b, 5, es)
    case GetReq(p, o) => |b| == 12 + |p| && StrAt(b, 0, p) && NumberAt(b, 4 + |p|, 8, o)
    case GetResp(s, t, mt) => StatusAt(b, s, t, mt)
    case PutReq(p, t, o, mt) =>
      && |b| == 28 + |p| && StrAt(b, 0, p) && NumberAt(b, 4 + |p|, 8, t) && NumberAt(b, 12 + |p|, 8, o)
      && SignedAt(b, 20 + |p|, mt)
    case PutResp(s, r) => |b| == 9 && b[0] == s && NumberAt(b, 1, 8, r)
    case DeltaReq(p, bs, hs) =>
      && StrAt(b, 0, p) && NumberAt(b, 4 + |p|, 4, bs) && NumberAt(b, 8 + |p|, 4, |hs|) && HashesAt(b, 12 + |p|, hs)
    case DeltaResp(s, t, mt) => StatusAt(b, s, t, mt)
    case DiskResp(ms) => |b| >= 1 && b[0] == |ms| % 0x100 && MountsAt(b, 1, ms)
    case ErrorMsg(c, t) => |b| == 6 + |t| && NumberAt(b, 0, 2, c) && StrAt(b, 2, t)
  }

  // ---- Fields ----

  lemma Parts(b: Bytes, at: nat, x: Bytes, y: Bytes)
    requires BytesAt(b, at, x + y)
    ensures BytesAt(b, at, x) && BytesAt(b, at + |x|, y)
  {
    var z := b[at..at + |x + y|];
    assert b[at..at + |x|] == z[..|x|] && b[at + |x|..at + |x| + |y|] == z[|x|..];
  }

  /** Two fields. */
  lemma PairPlaced(x: Bytes, y: Bytes)
    ensures BytesAt(x + y, 0, x) && BytesAt(x + y, |x|, y)
  {
    assert BytesAt(x + y, 0, x + y);
    Parts(x + y, 0, x, y);
  }

  lemma {:induction false} NumberPlaced(b: Bytes, at: nat, n: nat, v: nat)
    requires BytesAt(b, at, BigEndian(n, v))
    ensures NumberAt(b, at, n, v)
  {
    if n > 0 {
      Parts(b, at, BigEndian(n - 1, v / 0x100), [v % 0x100]);
      NumberPlaced(b, at, n - 1, v / 0x100);
      assert b[at + n - 1..at + n][0] == b[at + n - 1];
    }
  }

  lemma StrPlaced(b: Bytes, at: nat, s: Bytes)
    requires BytesAt(b, at, EncodeStr(s))
    ensures StrAt(b, at, s) && |EncodeStr(s)| == 4 + |s|
  {
    Parts(b, at, BigEndian(4, |s|), s);
    NumberPlaced(b, at, 4, |s|);
  }

  lemma BytePlaced(b: Bytes, at: nat, v: nat)
    requires BytesAt(b, at, BigEndian(1, v)) || NumberAt(b, at, 1, v)
    ensures at < |b| && b[at] == v % 0x100
  {
    if BytesAt(b, at, BigEndian(1, v)) {
      NumberPlaced(b, at, 1, v);
    }
  }

  /** A string and two numbers of 8 bytes, the shape of a listed file and of a mount. */
  lemma RecordPlaced(b: Bytes, at: nat, p: Bytes, x: nat, y: nat, rest: Bytes)
    requires BytesAt(b, at, EncodeStr(p) + (BigEndian(8, x) + BigEndian(8, y)) + rest)
    ensures StrAt(b, at, p) && NumberAt(b, at + 4 + |p|, 8, x) && NumberAt(b, at + 12 + |p|, 8, y)
    ensures BytesAt(b, at + 20 + |p|, rest)
  {
    Parts(b, at, EncodeStr(p) + (BigEndian(8, x) + BigEndian(8, y)), rest);
    Parts(b, at, EncodeStr(p), BigEndian(8, x) + BigEndian(8, y));
    StrPlaced(b, at, p);
    Parts(b, at + 4 + |p|, BigEndian(8, x), BigEndian(8, y));
    NumberPlaced(b, at + 4 + |p|, 8, x);
    NumberPlaced(b, at + 12 + |p|, 8, y);
  }

  lemma {:induction false} EntriesPlaced(b: Bytes, at: nat, es: seq<FileEntry>)
    requires BytesAt(b, at, EncodeEntries(es)) && |b| == at + |EncodeEntries(es)|
    ensures EntriesAt(b, at, es)
    decreases |es|
  {
    if es != [] {
      RecordPlaced(b, at, es[0].path, es[0].size, ToUnsigned(es[0].mtime), EncodeEntries(es[1..]));
      EntriesPlaced(b, at + 20 + |es[0].path|, es[1..]);
    }
  }

  lemma {:induction false} MountsPlaced(b: Bytes, at: nat, ms: seq<MountInfo>)
    requires BytesAt(b, at, EncodeMounts(ms)) && |b| == at + |EncodeMounts(ms)|
    ensures MountsAt(b, at, ms)
    decreases |ms|
  {
    if ms != [] {
      RecordPlaced(b, at, ms[0].mount, ms[0].total, ms[0].free, EncodeMounts(ms[1..]));
      MountsPlaced(b, at + 20 + |ms[0].mount|, ms[1..]);
    }
  }

  lemma {:induction false} HashesPlaced(b: Bytes, at: nat, hs: seq<Hash>)
    requires BytesAt(b, at, EncodeHashes(hs)) && |b| == at + |EncodeHashes(hs)|
    ensures HashesAt(b, at, hs)
    decreases |hs|
  {
    if hs != [] {
      Parts(b, at, hs[0], EncodeHashes(hs[1..]));
      HashesPlaced(b, at + 32, hs[1..]);
      forall i | 0 <= i < |hs|
        ensures BytesAt(b, at + 32 * i, hs[i])
      {
        if i > 0 {
          assert BytesAt(b, at + 32 + 32 * (i - 1), hs[1..][i - 1]);
        }
      }
    }
  }

  lemma StatusPlaced(status: u8, total: u64, mtime: i64)
    ensures StatusAt(EncodeStatus(status, total, mtime), status, total, mtime)
  {
    var b := EncodeStatus(status, total, mtime);
    PairPlaced(BigEndian(1, status), BigEndian(8, total) + EncodeI64(mtime));
    Parts(b, 1, BigEndian(8, total), EncodeI64(mtime));
    BytePlaced(b, 0, status);
    NumberPlaced(b, 1, 8, total);
    NumberPlaced(b, 9, 8, ToUnsigned(mtime));
  }

  lemma PutReqPlaced(p: Bytes, t: u64, o: u64, mt: i64)
    ensures LaidOut(EncodePutReq(p, t, o, mt), PutReq(p, t, o, mt))
  {
    var b := EncodePutReq(p, t, o, mt);
    var numbers := BigEndian(8, t) + (BigEndian(8, o) + EncodeI64(mt));
    PairPlaced(EncodeStr(p), numbers);
    StrPlaced(b, 0, p);
    Parts(b, 4 + |p|, BigEndian(8, t), BigEndian(8, o) + EncodeI64(mt));
    Parts(b, 12 + |p|, BigEndian(8, o), EncodeI64(mt));
    NumberPlaced(b, 4 + |p|, 8, t);
    NumberPlaced(b, 12 + |p|, 8, o);
    NumberPlaced(b, 20 + |p|, 8, ToUnsigned(mt));
  }

  lemma DeltaReqPlaced(p: Bytes, bs: u32, hs: seq<Hash>)
    ensures LaidOut(EncodeDeltaReq(p, bs, hs), DeltaReq(p, bs, hs))
  {
    var b := EncodeDeltaReq(p, bs, hs);
    PairPlaced(EncodeStr(p), BigEndian(4, bs) + (BigEndian(4, |hs|) + EncodeHashes(hs)));
    StrPlaced(b, 0, p);
    Parts(b, 4 + |p|, BigEndian(4, bs), BigEndian(4, |hs|) + EncodeHashes(hs));
    Parts(b, 8 + |p|, BigEndian(4, |hs|), EncodeHashes(hs));
    NumberPlaced(b, 4 + |p|, 4, bs);
    NumberPlaced(b, 8 + |p|, 4, |hs|);
    HashesPlaced(b, 12 + |p|, hs);
  }

  lemma FlagAndCount(flag: nat, n: nat, rest: Bytes)
    requires flag < 2
    ensures var b := BigEndian(1, flag) + (BigEndian(4, n) + rest);
            |b| == 5 + |rest| && b[0] == flag && NumberAt(b, 1, 4, n) && BytesAt(b, 5, rest)
  {
    var b := BigEndian(1, flag) + (BigEndian(4, n) + rest);
    PairPlaced(BigEndian(1, flag), BigEndian(4, n) + rest);
    Parts(b, 1, BigEndian(4, n), rest);
    BytePlaced(b, 0, flag);
    NumberPlaced(b, 1, 4, n);
  }

  lemma BatchPlaced(last: bool, es: seq<FileEntry>)
    ensures LaidOut(EncodeListBatch(last, es), ListBatch(last, es))
  {
    FlagAndCount(if last then 1 else 0, |es|, EncodeEntries(es));
    EntriesPlaced(EncodeListBatch(last, es), 5, es);
  }

  lemma MountListPlaced(ms: seq<MountInfo>)
    ensures LaidOut(EncodeDiskResp(ms), DiskResp(ms))
  {
    var b := EncodeDiskResp(ms);
    PairPlaced(BigEndian(1, |ms|), EncodeMounts(ms));
    BytePlaced(b, 0, |ms|);
    MountsPlaced(b, 1, ms);
  }

  lemma StrThenNumber(p: Bytes, n: nat, v: nat)
    ensures var b := EncodeStr(p) + BigEndian(n, v); |b| == 4 + |p| + n && StrAt(b, 0, p) && NumberAt(b, 4 + |p|, n, v)
  {
    var b := EncodeStr(p) + BigEndian(n, v);
    PairPlaced(EncodeStr(p), BigEndian(n, v));
    StrPlaced(b, 0, p);
    NumberPlaced(b, 4 + |p|, n, v);
  }

  lemma NumberThenStr(n: nat, v: nat, p: Bytes)
    ensures var b := BigEndian(n, v) + EncodeStr(p); |b| == n + 4 + |p| && NumberAt(b, 0, n, v) && StrAt(b, n, p)
  {
    var b := BigEndian(n, v) + EncodeStr(p);
    PairPlaced(BigEndian(n, v), EncodeStr(p));
    NumberPlaced(b, 0, n, v);
    StrPlaced(b, n, p);
  }

  lemma AuthReqPlaced(v: u8, p: Bytes)
    ensures LaidOut(Encode(AuthReq(v, p)), AuthReq(v, p))
  {
    NumberThenStr(1, v, p);
    BytePlaced(Encode(AuthReq(v, p)), 0, v);
  }

  lemma AuthRespPlaced(p: Bytes, status: u8)
    ensures LaidOut(Encode(AuthResp(p, status)), AuthResp(p, status))
  {
    StrThenNumber(p, 1, status);
    BytePlaced(Encode(AuthResp(p, status)), 4 + |p|, status);
  }

  lemma PutRespPlaced(status: u8, offset: u64)
    ensures LaidOut(Encode(PutResp(status, offset)), PutResp(status, offset))
  {
    var b := Encode(PutResp(status, offset));
    PairPlaced(BigEndian(1, status), BigEndian(8, offset));
    BytePlaced(b, 0, status);
    NumberPlaced(b, 1, 8, offset);
  }

  /** The messages of one or two fields, and the announcements. */
  lemma ShortIsLaidOut(m: Message)
    requires m.ListReq? || m.GetReq? || m.ErrorMsg? || m.GetResp? || m.DeltaResp?
    ensures LaidOut(Encode(m), m)
  {
    match m
    case ListReq(r) => StrPlaced(EncodeStr(r), 0, r);
    case GetReq(p, o) => StrThenNumber(p, 8, o);
    case ErrorMsg(c, t) => NumberThenStr(2, c, t);
    case GetResp(s, t, mt) => StatusPlaced(s, t, mt);
    case DeltaResp(s, t, mt) => StatusPlaced(s, t, mt);
  }

  /** Every message is laid out field by field as the table of message types says. */
  lemma EncodeIsLaidOut(m: Message)
    ensures LaidOut(Encode(m), m)
  {
    match m
    case AuthReq(v, p) => AuthReqPlaced(v, p);
    case AuthResp(p, s) => AuthRespPlaced(p, s);
    case PutResp(s, r) => PutRespPlaced(s, r);
    case PutReq(p, t, o, mt) => PutReqPlaced(p, t, o, mt);
    case DeltaReq(p, bs, hs) => DeltaReqPlaced(p, bs, hs);
    case ListBatch(last, es) => BatchPlaced(last, es);
    case DiskResp(ms) => MountListPlaced(ms);
    case _ => ShortIsLaidOut(m);
  }

  /** A frame: version 1, the type, the payload's length in 8 bytes, the payload. */
  lemma FrameIsLaidOut(f: RawFrame)
    ensures var b := WriteFrame(f);
            |b| == 10 + |f.payload| && b[0] == 1 && b[1] == f.kind && NumberAt(b, 2, 8, |f.payload|)
            && BytesAt(b, 10, f.payload)
  {
    var b := WriteFrame(f);
    PairPlaced([PROTO_VERSION, f.kind] + BigEndian(8, |f.payload|), f.payload);
    Parts(b, 0, [PROTO_VERSION, f.kind], BigEndian(8, |f.payload|));
    NumberPlaced(b, 2, 8, |f.payload|);
  }

  lemma {:induction false} NumberRead(b: Bytes, at: nat, n: nat, v: nat)
    requires NumberAt(b, at, n, v) && v < Pow256(n)
    ensures FromBigEndian(b[at..at + n]) == v
  {
    if n > 0 {
      NumberRead(b, at, n - 1, v / 0x100);
      assert b[at..at + n][..n - 1] == b[at..at + n - 1] && b[at..at + n][n - 1] == b[at + n - 1];
    }
  }

  /**
   * What reading a frame makes of a stream with the number `length` at its place: a header that is not all
   * there, another version than 1, a length beyond the limit and a payload that is not all there are refused in
   * this order, before anything is taken; otherwise type and payload are taken, and what follows is left.
   */
  lemma FrameIsRead(b: Bytes, maxFrame: u64, length: u64)
    requires |b| >= 10 ==> NumberAt(b, 2, 8, length)
    ensures ReadFrame(b, maxFrame) ==
            if |b| < 10 then Refused(Cut)
            else if b[0] != 1 then Refused(BadVersion)
            else if length > maxFrame then Refused(TooLarge)
            else if |b| < 10 + length then Refused(Cut)
            else Got(RawFrame(b[1], b[10..10 + length]), b[10 + length..])
  {
    if |b| >= 10 {
      PowValues();
      NumberRead(b, 2, 8, length);
    }
  }
}
