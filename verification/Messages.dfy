/**
 * The typed messages: how each is laid out in a payload, how it is parsed, and that parsing inverts
 * encoding, whatever follows it, exactly for the messages that respect the length fields.
 */
module Messages {
  import opened Basics
  import opened Wire
  import Delta
  import DeltaRules
  import Frames
  import Resume

  datatype FileEntry = FileEntry(path: Bytes, size: u64, mtime: i64)
  datatype MountInfo = MountInfo(mount: Bytes, total: u64, free: u64)

  /** A SHA-256 value. */
  type Hash = b: Bytes | |b| == 32 witness seq(32, i => 0)

  datatype Message =
    | AuthReq(protoVersion: u8, ownPassword: Bytes)
    | AuthResp(peerPassword: Bytes, authStatus: u8)
    | ListReq(root: Bytes)
    | ListBatch(isLast: bool, entries: seq<FileEntry>)
    | GetReq(path: Bytes, offset: u64)
    | GetResp(status: u8, totalSize: u64, mtime: i64)
    | PutReq(path: Bytes, totalSize: u64, offset: u64, mtime: i64)
    | PutResp(status: u8, resumeOffset: u64)
    | DeltaReq(path: Bytes, blockSize: u32, hashes: seq<Hash>)
    | DeltaResp(status: u8, totalSize: u64, mtime: i64)
    | DiskResp(mounts: seq<MountInfo>)
    | ErrorMsg(code: u16, message: Bytes)

  /** The message types, as the frame header names them. */
  datatype Kind =
    | KAuthReq | KAuthResp | KListReq | KListBatch | KGetReq | KGetResp | KPutReq | KPutResp
    | KDeltaReq | KDeltaResp | KDiskResp | KError

  function KindOf(m: Message): Kind {
    match m
    case AuthReq(_, _) => KAuthReq
    case AuthResp(_, _) => KAuthResp
    case ListReq(_) => KListReq
    case ListBatch(_, _) => KListBatch
    case GetReq(_, _) => KGetReq
    case GetResp(_, _, _) => KGetResp
    case PutReq(_, _, _, _) => KPutReq
    case PutResp(_, _) => KPutResp
    case DeltaReq(_, _, _) => KDeltaReq
    case DeltaResp(_, _, _) => KDeltaResp
    case DiskResp(_) => KDiskResp
    case ErrorMsg(_, _) => KError
  }

  // ---- Encoding ----

  function EncodeI64(v: i64): Bytes {
    BigEndian(8, ToUnsigned(v))
  }

  function EncodeEntry(e: FileEntry): Bytes {
    EncodeStr(e.path) + (BigEndian(8, e.size) + EncodeI64(e.mtime))
  }

  function EncodeMount(m: MountInfo): Bytes {
    EncodeStr(m.mount) + (BigEndian(8, m.total) + BigEndian(8, m.free))
  }

  function EncodeEntries(es: seq<FileEntry>): Bytes {
    if es == [] then [] else EncodeEntry(es[0]) + EncodeEntries(es[1..])
  }

  function EncodeMounts(ms: seq<MountInfo>): Bytes {
    if ms == [] then [] else EncodeMount(ms[0]) + EncodeMounts(ms[1..])
  }

  function EncodeHashes(hs: seq<Hash>): Bytes {
    if hs == [] then [] else hs[0] + EncodeHashes(hs[1..])
  }

  function EncodeListBatch(last: bool, es: seq<FileEntry>): Bytes {
    BigEndian(1, if last then 1 else 0) + (BigEndian(4, |es|) + EncodeEntries(es))
  }

  function EncodeDeltaReq(p: Bytes, bs: u32, hs: seq<Hash>): Bytes {
    EncodeStr(p) + (BigEndian(4, bs) + (BigEndian(4, |hs|) + EncodeHashes(hs)))
  }

  function EncodeDiskResp(ms: seq<MountInfo>): Bytes {
    BigEndian(1, |ms|) + EncodeMounts(ms)
  }

  function EncodeStatus(status: u8, total: u64, mtime: i64): Bytes {
    BigEndian(1, status) + (BigEndian(8, total) + EncodeI64(mtime))
  }

  function EncodePutReq(p: Bytes, t: u64, o: u64, mt: i64): Bytes {
    EncodeStr(p) + (BigEndian(8, t) + (BigEndian(8, o) + EncodeI64(mt)))
  }

  /** The payload of a message. */
  function Encode(m: Message): Bytes {
    match m
    case AuthReq(v, p) => BigEndian(1, v) + EncodeStr(p)
    case AuthResp(p, s) => EncodeStr(p) + BigEndian(1, s)
    case ListReq(r) => EncodeStr(r)
    case ListBatch(last, es) => EncodeListBatch(last, es)
    case GetReq(p, o) => EncodeStr(p) + BigEndian(8, o)
    case GetResp(s, t, mt) => EncodeStatus(s, t, mt)
    case PutReq(p, t, o, mt) => EncodePutReq(p, t, o, mt)
    case PutResp(s, r) => BigEndian(1, s) + BigEndian(8, r)
    case DeltaReq(p, bs, hs) => EncodeDeltaReq(p, bs, hs)
    case DeltaResp(s, t, mt) => EncodeStatus(s, t, mt)
    case DiskResp(ms) => EncodeDiskResp(ms)
    case ErrorMsg(c, t) => BigEndian(2, c) + EncodeStr(t)
  }

  // ---- Parsing ----

  function ReadEntry(s: Scan): (r: (FileEntry, Scan))
    requires s.Valid()
    ensures Advances(s, r.1) && |r.0.path| < U32_LIMIT
  {
    var (p, s1) := ReadStr(s);
    var (n, s2) := ReadU64(s1);
    var (t, s3) := ReadI64(s2);
    (FileEntry(p, n, t), s3)
  }

  function ReadMount(s: Scan): (r: (MountInfo, Scan))
    requires s.Valid()
    ensures Advances(s, r.1) && |r.0.mount| < U32_LIMIT
  {
    var (p, s1) := ReadStr(s);
    var (n, s2) := ReadU64(s1);
    var (f, s3) := ReadU64(s2);
    (MountInfo(p, n, f), s3)
  }

  /** Thirty-two raw bytes; an underflow leaves the zero hash, as an unfilled array would be. */
  function ReadHash(s: Scan): (r: (Hash, Scan))
    requires s.Valid()
    ensures Advances(s, r.1)
  {
    var (h, s1) := ReadRaw(s, 32);
    if s1.failed then (seq(32, i => 0), s1) else (h, s1)
  }

  // The parse loops: count items, stopping at the first error.

  function ReadEntries(s: Scan, count: nat, acc: seq<FileEntry>): (r: (seq<FileEntry>, Scan))
    requires s.Valid()
    ensures r.1.Valid() && (!s.failed && !r.1.failed ==> |r.0| == |acc| + count)
    decreases count
  {
    if count == 0 then (acc, s)
    else
      var (x, t) := ReadEntry(s);
      if t.failed then (acc, t) else ReadEntries(t, count - 1, acc + [x])
  }

  function ReadMounts(s: Scan, count: nat, acc: seq<MountInfo>): (r: (seq<MountInfo>, Scan))
    requires s.Valid()
    ensures r.1.Valid() && (!s.failed && !r.1.failed ==> |r.0| == |acc| + count)
    decreases count
  {
    if count == 0 then (acc, s)
    else
      var (x, t) := ReadMount(s);
      if t.failed then (acc, t) else ReadMounts(t, count - 1, acc + [x])
  }

  function ReadHashes(s: Scan, count: nat, acc: seq<Hash>): (r: (seq<Hash>, Scan))
    requires s.Valid()
    ensures r.1.Valid() && (!s.failed && !r.1.failed ==> |r.0| == |acc| + count)
    decreases count
  {
    if count == 0 then (acc, s)
    else
      var (x, t) := ReadHash(s);
      if t.failed then (acc, t) else ReadHashes(t, count - 1, acc + [x])
  }

  function ScanListBatch(s: Scan): (r: (Message, Scan))
    requires s.Valid()
    ensures r.0.ListBatch?
  {
    var (last, s1) := ReadUInt(s, 1);
    var (n, s2) := ReadUInt(s1, 4);
    if s2.failed then (ListBatch(last == 1, []), s2)
    else
      var (es, s3) := ReadEntries(s2, n, []);
      (ListBatch(last == 1, es), s3)
  }

  function ScanDeltaReq(s: Scan): (r: (Message, Scan))
    requires s.Valid()
    ensures r.0.DeltaReq?
  {
    PowValues();
    var (p, s1) := ReadStr(s);
    var (bs, s2) := ReadUInt(s1, 4);
    var (n, s3) := ReadUInt(s2, 4);
    if s3.failed then (DeltaReq(p, bs, []), s3)
    else
      var (hs, s4) := ReadHashes(s3, n, []);
      (DeltaReq(p, bs, hs), s4)
  }

  function ScanDiskResp(s: Scan): (r: (Message, Scan))
    requires s.Valid()
    ensures r.0.DiskResp?
  {
    var (n, s1) := ReadUInt(s, 1);
    if s1.failed then (DiskResp([]), s1)
    else
      var (ms, s2) := ReadMounts(s1, n, []);
      (DiskResp(ms), s2)
  }

  function ReadU8(s: Scan): (r: (u8, Scan))
    requires s.Valid()
    ensures r.1.Valid()
  {
    PowValues();
    ReadUInt(s, 1)
  }

  function ReadU16(s: Scan): (r: (u16, Scan))
    requires s.Valid()
    ensures r.1.Valid()
  {
    PowValues();
    ReadUInt(s, 2)
  }

  /** Status, total size, mtime: the layout GET_RESP and DELTA_RESP share. */
  function ReadStatus(s: Scan): (r: ((u8, u64, i64), Scan))
    requires s.Valid()
    ensures r.1.Valid()
  {
    var (v, s1) := ReadU8(s);
    var (t, s2) := ReadU64(s1);
    var (mt, s3) := ReadI64(s2);
    ((v, t, mt), s3)
  }

  function ScanPutReq(s: Scan): (r: (Message, Scan))
    requires s.Valid()
    ensures r.0.PutReq?
  {
    var (p, s1) := ReadStr(s);
    var (t, s2) := ReadU64(s1);
    var (o, s3) := ReadU64(s2);
    var (mt, s4) := ReadI64(s3);
    (PutReq(p, t, o, mt), s4)
  }

  /** The messages without repeated fields. */
  function ScanFixed(k: Kind, s: Scan): (r: (Message, Scan))
    requires s.Valid() && k != KListBatch && k != KDeltaReq && k != KDiskResp
    ensures KindOf(r.0) == k
  {
    match k
    case KAuthReq =>
      var (v, s1) := ReadU8(s);
      var (p, s2) := ReadStr(s1);
      (AuthReq(v, p), s2)
    case KAuthResp =>
      var (p, s1) := ReadStr(s);
      var (v, s2) := ReadU8(s1);
      (AuthResp(p, v), s2)
    case KListReq =>
      var (p, s1) := ReadStr(s);
      (ListReq(p), s1)
    case KGetReq =>
      var (p, s1) := ReadStr(s);
      var (o, s2) := ReadU64(s1);
      (GetReq(p, o), s2)
    case KGetResp =>
      var ((v, t, mt), s1) := ReadStatus(s);
      (GetResp(v, t, mt), s1)
    case KPutReq => ScanPutReq(s)
    case KPutResp =>
      var (v, s1) := ReadU8(s);
      var (o, s2) := ReadU64(s1);
      (PutResp(v, o), s2)
    case KDeltaResp =>
      var ((v, t, mt), s1) := ReadStatus(s);
      (DeltaResp(v, t, mt), s1)
    case KError =>
      var (c, s1) := ReadU16(s);
      var (t, s2) := ReadStr(s1);
      (ErrorMsg(c, t), s2)
  }

  function Scanned(k: Kind, s: Scan): (r: (Message, Scan))
    requires s.Valid()
    ensures KindOf(r.0) == k
  {
    match k
    case KListBatch => ScanListBatch(s)
    case KDeltaReq => ScanDeltaReq(s)
    case KDiskResp => ScanDiskResp(s)
    case _ => ScanFixed(k, s)
  }

  /** A parse: the message, or None when the scanner latched an error. */
  function Parse(k: Kind, p: Bytes): Option<Message> {
    var (m, s) := Scanned(k, Scan(p, 0, false));
    if s.failed then None else Some(m)
  }

  // ---- Limits and round trip ----

  predicate PathsFit(es: seq<FileEntry>) {
    forall i | 0 <= i < |es| :: |es[i].path| < U32_LIMIT
  }

  predicate MountsFit(ms: seq<MountInfo>) {
    forall i | 0 <= i < |ms| :: |ms[i].mount| < U32_LIMIT
  }

  /** The lengths fit their length fields: u32 for strings and counts, u8 for the number of mounts. */
  predicate WithinLimits(m: Message) {
    match m
    case AuthReq(_, p) => |p| < U32_LIMIT
    case AuthResp(p, _) => |p| < U32_LIMIT
    case ListReq(r) => |r| < U32_LIMIT
    case ListBatch(_, es) => |es| < U32_LIMIT && PathsFit(es)
    case GetReq(p, _) => |p| < U32_LIMIT
    case GetResp(_, _, _) => true
    case PutReq(p, _, _, _) => |p| < U32_LIMIT
    case PutResp(_, _) => true
    case DeltaReq(p, _, hs) => |p| < U32_LIMIT && |hs| < U32_LIMIT
    case DeltaResp(_, _, _) => true
    case DiskResp(ms) => |ms| < 0x100 && MountsFit(ms)
    case ErrorMsg(_, t) => |t| < U32_LIMIT
  }

  lemma Regroup<T>(a: seq<T>, b: seq<T>, c: seq<T>)
    ensures a + b + c == a + (b + c)
  {
  }

  lemma EntryRoundTrip(e: FileEntry, s: Scan, rest: Bytes)
    requires |e.path| < U32_LIMIT && s.Valid() && !s.failed && s.Rest() == EncodeEntry(e) + rest
    ensures ReadEntry(s).0 == e && !ReadEntry(s).1.failed && ReadEntry(s).1.Rest() == rest
  {
    var tail := BigEndian(8, e.size) + (EncodeI64(e.mtime) + rest);
    assert s.Rest() == EncodeStr(e.path) + tail;
    StrRoundTrip(s, e.path, tail);
    var s1 := s.Skip(4 + |e.path|);
    U64RoundTrip(s1, e.size, EncodeI64(e.mtime) + rest);
    I64RoundTrip(s1.Skip(8), e.mtime, rest);
  }

  lemma MountRoundTrip(m: MountInfo, s: Scan, rest: Bytes)
    requires |m.mount| < U32_LIMIT && s.Valid() && !s.failed && s.Rest() == EncodeMount(m) + rest
    ensures ReadMount(s).0 == m && !ReadMount(s).1.failed && ReadMount(s).1.Rest() == rest
  {
    var tail := BigEndian(8, m.total) + (BigEndian(8, m.free) + rest);
    assert s.Rest() == EncodeStr(m.mount) + tail;
    StrRoundTrip(s, m.mount, tail);
    var s1 := s.Skip(4 + |m.mount|);
    U64RoundTrip(s1, m.total, BigEndian(8, m.free) + rest);
    var s2 := s1.Skip(8);
    assert s2.Rest() == BigEndian(8, m.free) + rest;
    U64RoundTrip(s2, m.free, rest);
  }

  lemma {:induction false} EntriesRoundTrip(es: seq<FileEntry>, s: Scan, rest: Bytes, acc: seq<FileEntry>)
    requires PathsFit(es)
    requires s.Valid() && !s.failed && s.Rest() == EncodeEntries(es) + rest
    ensures ReadEntries(s, |es|, acc).0 == acc + es && !ReadEntries(s, |es|, acc).1.failed
    decreases |es|
  {
    if es == [] {
      assert acc + es == acc;
    } else {
      Regroup(EncodeEntry(es[0]), EncodeEntries(es[1..]), rest);
      EntryRoundTrip(es[0], s, EncodeEntries(es[1..]) + rest);
      var t := ReadEntry(s).1;
      EntriesRoundTrip(es[1..], t, rest, acc + [es[0]]);
      assert [es[0]] + es[1..] == es;
      Regroup(acc, [es[0]], es[1..]);
    }
  }

  lemma {:induction false} MountsRoundTrip(ms: seq<MountInfo>, s: Scan, rest: Bytes, acc: seq<MountInfo>)
    requires MountsFit(ms)
    requires s.Valid() && !s.failed && s.Rest() == EncodeMounts(ms) + rest
    ensures ReadMounts(s, |ms|, acc).0 == acc + ms && !ReadMounts(s, |ms|, acc).1.failed
    decreases |ms|
  {
    if ms == [] {
      assert acc + ms == acc;
    } else {
      Regroup(EncodeMount(ms[0]), EncodeMounts(ms[1..]), rest);
      MountRoundTrip(ms[0], s, EncodeMounts(ms[1..]) + rest);
      var t := ReadMount(s).1;
      MountsRoundTrip(ms[1..], t, rest, acc + [ms[0]]);
      assert [ms[0]] + ms[1..] == ms;
      Regroup(acc, [ms[0]], ms[1..]);
    }
  }

  lemma {:induction false} HashesRoundTrip(hs: seq<Hash>, s: Scan, rest: Bytes, acc: seq<Hash>)
    requires s.Valid() && !s.failed && s.Rest() == EncodeHashes(hs) + rest
    ensures ReadHashes(s, |hs|, acc).0 == acc + hs && !ReadHashes(s, |hs|, acc).1.failed
    decreases |hs|
  {
    if hs == [] {
      assert acc + hs == acc;
    } else {
      assert s.Rest() == hs[0] + (EncodeHashes(hs[1..]) + rest);
      RawRoundTrip(s, hs[0], EncodeHashes(hs[1..]) + rest);
      HashesRoundTrip(hs[1..], s.Skip(32), rest, acc + [hs[0]]);
      assert acc + [hs[0]] + hs[1..] == acc + hs;
    }
  }

  lemma ListBatchRoundTrip(last: bool, es: seq<FileEntry>, s: Scan, suffix: Bytes)
    requires WithinLimits(ListBatch(last, es)) && s.Valid() && !s.failed
             && s.Rest() == EncodeListBatch(last, es) + suffix
    ensures ScanListBatch(s).0 == ListBatch(last, es) && !ScanListBatch(s).1.failed
  {
    PowValues();
    var flag := if last then 1 else 0;
    var tail := EncodeEntries(es) + suffix;
    assert s.Rest() == BigEndian(1, flag) + (BigEndian(4, |es|) + tail);
    UIntRoundTrip(s, 1, flag, BigEndian(4, |es|) + tail);
    UIntRoundTrip(s.Skip(1), 4, |es|, tail);
    EntriesRoundTrip(es, s.Skip(1).Skip(4), suffix, []);
  }

  lemma DeltaReqRoundTrip(p: Bytes, bs: u32, hs: seq<Hash>, s: Scan, suffix: Bytes)
    requires WithinLimits(DeltaReq(p, bs, hs)) && s.Valid() && !s.failed
             && s.Rest() == EncodeDeltaReq(p, bs, hs) + suffix
    ensures ScanDeltaReq(s).0 == DeltaReq(p, bs, hs) && !ScanDeltaReq(s).1.failed
  {
    PowValues();
    var tail := EncodeHashes(hs) + suffix;
    var t2 := BigEndian(4, |hs|) + tail;
    assert s.Rest() == EncodeStr(p) + (BigEndian(4, bs) + t2);
    StrRoundTrip(s, p, BigEndian(4, bs) + t2);
    var s1 := s.Skip(4 + |p|);
    UIntRoundTrip(s1, 4, bs, t2);
    UIntRoundTrip(s1.Skip(4), 4, |hs|, tail);
    HashesRoundTrip(hs, s1.Skip(4).Skip(4), suffix, []);
  }

  lemma DiskRespRoundTrip(ms: seq<MountInfo>, s: Scan, suffix: Bytes)
    requires WithinLimits(DiskResp(ms)) && s.Valid() && !s.failed && s.Rest() == EncodeDiskResp(ms) + suffix
    ensures ScanDiskResp(s).0 == DiskResp(ms) && !ScanDiskResp(s).1.failed
  {
    PowValues();
    var tail := EncodeMounts(ms) + suffix;
    assert s.Rest() == BigEndian(1, |ms|) + tail;
    UIntRoundTrip(s, 1, |ms|, tail);
    MountsRoundTrip(ms, s.Skip(1), suffix, []);
  }

  lemma U8RoundTrip(s: Scan, v: u8, rest: Bytes)
    requires s.Valid() && !s.failed && s.Rest() == BigEndian(1, v) + rest
    ensures ReadU8(s) == (v, s.Skip(1)) && s.Skip(1).Valid() && s.Skip(1).Rest() == rest
  {
  }

  lemma StatusRoundTrip(s: Scan, v: u8, t: u64, mt: i64, suffix: Bytes)
    requires s.Valid() && !s.failed && s.Rest() == EncodeStatus(v, t, mt) + suffix
    ensures ReadStatus(s).0 == (v, t, mt) && !ReadStatus(s).1.failed
  {
    var tail := BigEndian(8, t) + (EncodeI64(mt) + suffix);
    assert s.Rest() == BigEndian(1, v) + tail;
    U8RoundTrip(s, v, tail);
    U64RoundTrip(s.Skip(1), t, EncodeI64(mt) + suffix);
    I64RoundTrip(s.Skip(1).Skip(8), mt, suffix);
  }

  lemma PutReqRoundTrip(p: Bytes, t: u64, o: u64, mt: i64, s: Scan, suffix: Bytes)
    requires |p| < U32_LIMIT && s.Valid() && !s.failed && s.Rest() == EncodePutReq(p, t, o, mt) + suffix
    ensures ScanPutReq(s).0 == PutReq(p, t, o, mt) && !ScanPutReq(s).1.failed
  {
    var tail := BigEndian(8, o) + (EncodeI64(mt) + suffix);
    assert s.Rest() == EncodeStr(p) + (BigEndian(8, t) + tail);
    StrRoundTrip(s, p, BigEndian(8, t) + tail);
    var s1 := s.Skip(4 + |p|);
    U64RoundTrip(s1, t, tail);
    U64RoundTrip(s1.Skip(8), o, EncodeI64(mt) + suffix);
    I64RoundTrip(s1.Skip(8).Skip(8), mt, suffix);
  }

  lemma StrThenU64(p: Bytes, o: u64, s: Scan, suffix: Bytes)
    requires |p| < U32_LIMIT && s.Valid() && !s.failed && s.Rest() == EncodeStr(p) + BigEndian(8, o) + suffix
    ensures ReadStr(s).0 == p && ReadU64(ReadStr(s).1).0 == o && !ReadU64(ReadStr(s).1).1.failed
  {
    assert s.Rest() == EncodeStr(p) + (BigEndian(8, o) + suffix);
    StrRoundTrip(s, p, BigEndian(8, o) + suffix);
    U64RoundTrip(s.Skip(4 + |p|), o, suffix);
  }

  lemma U8ThenU64(v: u8, o: u64, s: Scan, suffix: Bytes)
    requires s.Valid() && !s.failed && s.Rest() == BigEndian(1, v) + BigEndian(8, o) + suffix
    ensures ReadU8(s).0 == v && ReadU64(ReadU8(s).1).0 == o && !ReadU64(ReadU8(s).1).1.failed
  {
    assert s.Rest() == BigEndian(1, v) + (BigEndian(8, o) + suffix);
    U8RoundTrip(s, v, BigEndian(8, o) + suffix);
    U64RoundTrip(s.Skip(1), o, suffix);
  }

  lemma U8ThenStr(v: u8, p: Bytes, s: Scan, suffix: Bytes)
    requires |p| < U32_LIMIT && s.Valid() && !s.failed && s.Rest() == BigEndian(1, v) + EncodeStr(p) + suffix
    ensures ReadU8(s).0 == v && ReadStr(ReadU8(s).1).0 == p && !ReadStr(ReadU8(s).1).1.failed
  {
    assert s.Rest() == BigEndian(1, v) + (EncodeStr(p) + suffix);
    U8RoundTrip(s, v, EncodeStr(p) + suffix);
    StrRoundTrip(s.Skip(1), p, suffix);
  }

  lemma U16ThenStr(v: u16, p: Bytes, s: Scan, suffix: Bytes)
    requires |p| < U32_LIMIT && s.Valid() && !s.failed && s.Rest() == BigEndian(2, v) + EncodeStr(p) + suffix
    ensures ReadU16(s).0 == v && ReadStr(ReadU16(s).1).0 == p && !ReadStr(ReadU16(s).1).1.failed
  {
    PowValues();
    assert s.Rest() == BigEndian(2, v) + (EncodeStr(p) + suffix);
    UIntRoundTrip(s, 2, v, EncodeStr(p) + suffix);
    StrRoundTrip(s.Skip(2), p, suffix);
  }

  lemma StrThenU8(p: Bytes, v: u8, s: Scan, suffix: Bytes)
    requires |p| < U32_LIMIT && s.Valid() && !s.failed && s.Rest() == EncodeStr(p) + BigEndian(1, v) + suffix
    ensures ReadStr(s).0 == p && ReadU8(ReadStr(s).1).0 == v && !ReadU8(ReadStr(s).1).1.failed
  {
    assert s.Rest() == EncodeStr(p) + (BigEndian(1, v) + suffix);
    StrRoundTrip(s, p, BigEndian(1, v) + suffix);
    U8RoundTrip(s.Skip(4 + |p|), v, suffix);
  }

  predicate Fixed(m: Message) {
    !m.ListBatch? && !m.DeltaReq? && !m.DiskResp?
  }

  lemma FixedRoundTrip(m: Message, s: Scan, suffix: Bytes)
    requires Fixed(m) && WithinLimits(m) && s.Valid() && !s.failed && s.Rest() == Encode(m) + suffix
    ensures ScanFixed(KindOf(m), s).0 == m && !ScanFixed(KindOf(m), s).1.failed
  {
    match m
    case AuthReq(v, p) => U8ThenStr(v, p, s, suffix);
    case AuthResp(p, v) => StrThenU8(p, v, s, suffix);
    case ListReq(p) => StrRoundTrip(s, p, suffix);
    case GetReq(p, o) => StrThenU64(p, o, s, suffix);
    case GetResp(v, t, mt) => StatusRoundTrip(s, v, t, mt, suffix);
    case PutReq(p, t, o, mt) => PutReqRoundTrip(p, t, o, mt, s, suffix);
    case PutResp(v, o) => U8ThenU64(v, o, s, suffix);
    case DeltaResp(v, t, mt) => StatusRoundTrip(s, v, t, mt, suffix);
    case ErrorMsg(c, t) => U16ThenStr(c, t, s, suffix);
  }

  lemma ListBatchParses(m: Message, suffix: Bytes)
    requires m.ListBatch? && WithinLimits(m)
    ensures Parse(KListBatch, Encode(m) + suffix) == Some(m)
  {
    var s := Scan(Encode(m) + suffix, 0, false);
    assert s.Rest() == EncodeListBatch(m.isLast, m.entries) + suffix;
    ListBatchRoundTrip(m.isLast, m.entries, s, suffix);
  }

  lemma DeltaReqParses(m: Message, suffix: Bytes)
    requires m.DeltaReq? && WithinLimits(m)
    ensures Parse(KDeltaReq, Encode(m) + suffix) == Some(m)
  {
    var s := Scan(Encode(m) + suffix, 0, false);
    assert s.Rest() == EncodeDeltaReq(m.path, m.blockSize, m.hashes) + suffix;
    DeltaReqRoundTrip(m.path, m.blockSize, m.hashes, s, suffix);
  }

  lemma DiskRespParses(m: Message, suffix: Bytes)
    requires m.DiskResp? && WithinLimits(m)
    ensures Parse(KDiskResp, Encode(m) + suffix) == Some(m)
  {
    var s := Scan(Encode(m) + suffix, 0, false);
    assert s.Rest() == EncodeDiskResp(m.mounts) + suffix;
    DiskRespRoundTrip(m.mounts, s, suffix);
  }

  lemma FixedParses(m: Message, suffix: Bytes)
    requires Fixed(m) && WithinLimits(m)
    ensures Parse(KindOf(m), Encode(m) + suffix) == Some(m)
  {
    var s := Scan(Encode(m) + suffix, 0, false);
    assert s.Rest() == Encode(m) + suffix;
    FixedRoundTrip(m, s, suffix);
  }

  /** Parsing an encoding followed by anything gives the message back, for every message within its limits. */
  lemma ParseInvertsEncode(m: Message, suffix: Bytes)
    requires WithinLimits(m)
    ensures Parse(KindOf(m), Encode(m) + suffix) == Some(m)
  {
    if Fixed(m) {
      FixedParses(m, suffix);
    } else if m.ListBatch? {
      ListBatchParses(m, suffix);
    } else if m.DeltaReq? {
      DeltaReqParses(m, suffix);
    } else {
      DiskRespParses(m, suffix);
    }
  }

  /** Whatever a parse returns is within the limits. */
  lemma ParsedIsWithinLimits(k: Kind, p: Bytes)
    ensures Parse(k, p).Some? ==> WithinLimits(Parse(k, p).value)
  {
    var s := Scan(p, 0, false);
    match k
    case KListBatch => ScannedEntriesFit(s);
    case KDiskResp => ScannedMountsFit(s);
    case KDeltaReq => ScannedHashesFit(s);
    case _ =>
  }

  lemma ScannedEntriesFit(s: Scan)
    requires s.Valid() && !s.failed
    ensures !ScanListBatch(s).1.failed ==> WithinLimits(ScanListBatch(s).0)
  {
    PowValues();
    var (n, s2) := ReadUInt(ReadUInt(s, 1).1, 4);
    if !s2.failed {
      ReadEntriesFit(s2, n, []);
    }
  }

  lemma ScannedHashesFit(s: Scan)
    requires s.Valid() && !s.failed
    ensures !ScanDeltaReq(s).1.failed ==> WithinLimits(ScanDeltaReq(s).0)
  {
  }

  lemma ScannedMountsFit(s: Scan)
    requires s.Valid() && !s.failed
    ensures !ScanDiskResp(s).1.failed ==> WithinLimits(ScanDiskResp(s).0)
  {
    PowValues();
    var (n, s1) := ReadUInt(s, 1);
    if !s1.failed {
      ReadMountsFit(s1, n, []);
    }
  }

  lemma OnePathMore(es: seq<FileEntry>, e: FileEntry)
    requires PathsFit(es) && |e.path| < U32_LIMIT
    ensures PathsFit(es + [e])
  {
  }

  lemma OneMountMore(ms: seq<MountInfo>, m: MountInfo)
    requires MountsFit(ms) && |m.mount| < U32_LIMIT
    ensures MountsFit(ms + [m])
  {
  }

  lemma {:induction false} ReadEntriesFit(s: Scan, count: nat, acc: seq<FileEntry>)
    requires s.Valid() && !s.failed && PathsFit(acc)
    ensures PathsFit(ReadEntries(s, count, acc).0)
    decreases count
  {
    if count > 0 {
      var (x, t) := ReadEntry(s);
      if !t.failed {
        OnePathMore(acc, x);
        ReadEntriesFit(t, count - 1, acc + [x]);
      }
    }
  }

  lemma {:induction false} ReadMountsFit(s: Scan, count: nat, acc: seq<MountInfo>)
    requires s.Valid() && !s.failed && MountsFit(acc)
    ensures MountsFit(ReadMounts(s, count, acc).0)
    decreases count
  {
    if count > 0 {
      var (x, t) := ReadMount(s);
      if !t.failed {
        OneMountMore(acc, x);
        ReadMountsFit(t, count - 1, acc + [x]);
      }
    }
  }

  /**
   * The exact condition for the codec: a message survives its encoding, followed by anything, iff it is
   * within its limits.
   */
  lemma CodecRoundTrip(m: Message, suffix: Bytes)
    ensures Parse(KindOf(m), Encode(m) + suffix) == Some(m) <==> WithinLimits(m)
  {
    ParsedIsWithinLimits(KindOf(m), Encode(m) + suffix);
    if WithinLimits(m) {
      ParseInvertsEncode(m, suffix);
    }
  }

  lemma {:induction false} HashRequestLength(hashes: seq<Hash>)
    ensures |EncodeHashes(hashes)| == 32 * |hashes|
  {
    if hashes != [] {
      HashRequestLength(hashes[1..]);
    }
  }

  /** The server's size guard, by the request it stands for: it leaves 4 bytes of the frame limit over. */
  lemma GuardIsFrameLimit(path: Bytes, blockSize: u32, hashes: seq<Hash>, size: nat, c: DeltaRules.DeltaConfig)
    requires c.bs > 0 && |path| == c.relLen && |hashes| == Delta.BlockCount(size, c.bs)
    ensures DeltaRules.TooManyHashes(size, c) <==> |Encode(DeltaReq(path, blockSize, hashes))| + 4 > c.maxFrame
  {
    HashRequestLength(hashes);
  }

  /**
   * deltaDownload leaves a file to the full download exactly when its hash request comes within 4 bytes of the
   * frame limit, the old copy cannot be read or the client answers UNSUPPORTED; and every request it makes is a
   * frame that a peer with the same limit accepts.
   */
  lemma GuardedHashRequestFits(prev: Bytes, path: Bytes, blockSize: u32, hashes: seq<Hash>, maxFrame: u64,
                               c: DeltaRules.DeltaConfig, fs: seq<Frames.Frame>, f: DeltaRules.DeltaFaults, rest: Bytes)
    requires c.bs > 0 && c.maxFrame == maxFrame && |path| == c.relLen && |hashes| == Delta.BlockCount(|prev|, c.bs)
    ensures var request := RawFrame(0x24, Encode(DeltaReq(path, blockSize, hashes)));
            && (DeltaRules.GoesFull(prev, c, fs, f)
                <==> || |request.payload| + 4 > maxFrame || f.openOld || f.hashRead
                     || (!f.send && fs != [] && fs[0] == Frames.Error(Frames.Unsupported)))
            && (DeltaRules.Asks(|prev|, c, f) ==> ReadFrame(WriteFrame(request) + rest, maxFrame) == Got(request, rest))
  {
    GuardIsFrameLimit(path, blockSize, hashes, |prev|, c);
    if DeltaRules.Asks(|prev|, c, f) {
      FrameRoundTrip(RawFrame(0x24, Encode(DeltaReq(path, blockSize, hashes))), maxFrame, rest);
    }
  }

  /**
   * A download is a delta exactly when deltas are on, the stored copy has the configured size, its hash request
   * stays 4 bytes within the frame limit, it can be read and the client does not answer UNSUPPORTED.
   */
  lemma DeltaIsUsedIff(b: Resume.Files, path: Bytes, blockSize: u32, hashes: seq<Hash>, c: DeltaRules.DeltaConfig,
                       fs: seq<Frames.Frame>, f: DeltaRules.DeltaFaults)
    requires |path| == c.relLen
    requires c.bs > 0 && b.target.Some? ==> |hashes| == Delta.BlockCount(|b.target.value|, c.bs)
    ensures DeltaRules.UsesDelta(b, c, fs, f)
      <==> && c.min > 0 && c.bs > 0 && b.target.Some? && |b.target.value| >= c.min
           && |Encode(DeltaReq(path, blockSize, hashes))| + 4 <= c.maxFrame && !f.openOld && !f.hashRead
           && (f.send || fs == [] || fs[0] != Frames.Error(Frames.Unsupported))
  {
    if c.bs > 0 && b.target.Some? {
      GuardIsFrameLimit(path, blockSize, hashes, |b.target.value|, c);
    }
  }

  // ---- The Encode and Parse methods ----

  method PutEntry(b: Builder, e: FileEntry)
    modifies b
    ensures b.buf == old(b.buf) + EncodeEntry(e)
  {
    b.Str(e.path);
    b.U64(e.size);
    b.I64(e.mtime);
    Regroup(old(b.buf) + EncodeStr(e.path), BigEndian(8, e.size), EncodeI64(e.mtime));
    Regroup(old(b.buf), EncodeStr(e.path), BigEndian(8, e.size) + EncodeI64(e.mtime));
  }

  method PutMount(b: Builder, m: MountInfo)
    modifies b
    ensures b.buf == old(b.buf) + EncodeMount(m)
  {
    b.Str(m.mount);
    b.U64(m.total);
    b.U64(m.free);
    Regroup(old(b.buf) + EncodeStr(m.mount), BigEndian(8, m.total), BigEndian(8, m.free));
    Regroup(old(b.buf), EncodeStr(m.mount), BigEndian(8, m.total) + BigEndian(8, m.free));
  }

  /** ListBatch.Encode: flag, count, then the entry loop over a mutable Builder. */
  method EncodeListBatchLoop(last: bool, es: seq<FileEntry>) returns (p: Bytes)
    ensures p == Encode(ListBatch(last, es))
  {
    var b := new Builder();
    b.U8(if last then 1 else 0);
    b.U32(|es|);
    ghost var head := b.buf;
    assert head == BigEndian(1, if last then 1 else 0) + BigEndian(4, |es|);
    for i := 0 to |es|
      invariant fresh(b)
      invariant b.buf + EncodeEntries(es[i..]) == head + EncodeEntries(es)
    {
      assert es[i..][1..] == es[i + 1..];
      Regroup(b.buf, EncodeEntry(es[i]), EncodeEntries(es[i + 1..]));
      PutEntry(b, es[i]);
    }
    assert b.buf + EncodeEntries(es[|es|..]) == b.buf;
    p := b.buf;
    Regroup(BigEndian(1, if last then 1 else 0), BigEndian(4, |es|), EncodeEntries(es));
  }

  /** DeltaReq.Encode: path, block size, count, then the hash loop. */
  method EncodeDeltaReqLoop(path: Bytes, bs: u32, hs: seq<Hash>) returns (p: Bytes)
    ensures p == Encode(DeltaReq(path, bs, hs))
  {
    var b := new Builder();
    b.Str(path);
    b.U32(bs);
    b.U32(|hs|);
    ghost var head := b.buf;
    assert head == EncodeStr(path) + BigEndian(4, bs) + BigEndian(4, |hs|);
    for i := 0 to |hs|
      invariant fresh(b)
      invariant b.buf + EncodeHashes(hs[i..]) == head + EncodeHashes(hs)
    {
      assert hs[i..][1..] == hs[i + 1..];
      Regroup(b.buf, hs[i], EncodeHashes(hs[i + 1..]));
      b.Raw(hs[i]);
    }
    assert b.buf + EncodeHashes(hs[|hs|..]) == b.buf;
    p := b.buf;
    Regroup(EncodeStr(path) + BigEndian(4, bs), BigEndian(4, |hs|), EncodeHashes(hs));
    Regroup(EncodeStr(path), BigEndian(4, bs), BigEndian(4, |hs|) + EncodeHashes(hs));
  }

  /** DiskResp.Encode: one-byte count, then the mount loop. */
  method EncodeDiskRespLoop(ms: seq<MountInfo>) returns (p: Bytes)
    ensures p == Encode(DiskResp(ms))
  {
    var b := new Builder();
    b.U8(|ms|);
    ghost var head := b.buf;
    assert head == BigEndian(1, |ms|);
    for i := 0 to |ms|
      invariant fresh(b)
      invariant b.buf + EncodeMounts(ms[i..]) == head + EncodeMounts(ms)
    {
      assert ms[i..][1..] == ms[i + 1..];
      Regroup(b.buf, EncodeMount(ms[i]), EncodeMounts(ms[i + 1..]));
      PutMount(b, ms[i]);
    }
    assert b.buf + EncodeMounts(ms[|ms|..]) == b.buf;
    p := b.buf;
  }

  method TakeEntry(s: Scanner) returns (e: FileEntry)
    requires s.State().Valid()
    modifies s
    ensures (e, s.State()) == ReadEntry(old(s.State()))
  {
    var path := s.Str();
    var size := s.U64();
    var mtime := s.I64();
    e := FileEntry(path, size, mtime);
  }

  method TakeMount(s: Scanner) returns (m: MountInfo)
    requires s.State().Valid()
    modifies s
    ensures (m, s.State()) == ReadMount(old(s.State()))
  {
    var mount := s.Str();
    var total := s.U64();
    var free := s.U64();
    m := MountInfo(mount, total, free);
  }

  method TakeEntries(s: Scanner, count: nat) returns (entries: seq<FileEntry>)
    requires s.State().Valid() && !s.failed
    modifies s
    ensures (entries, s.State()) == ReadEntries(old(s.State()), count, [])
  {
    entries := [];
    for i := 0 to count
      invariant s.State().Valid() && !s.failed
      invariant ReadEntries(old(s.State()), count, []) == ReadEntries(s.State(), count - i, entries)
    {
      var e := TakeEntry(s);
      if s.failed {
        return;
      }
      entries := entries + [e];
    }
  }

  method TakeMounts(s: Scanner, count: nat) returns (mounts: seq<MountInfo>)
    requires s.State().Valid() && !s.failed
    modifies s
    ensures (mounts, s.State()) == ReadMounts(old(s.State()), count, [])
  {
    mounts := [];
    for i := 0 to count
      invariant s.State().Valid() && !s.failed
      invariant ReadMounts(old(s.State()), count, []) == ReadMounts(s.State(), count - i, mounts)
    {
      var m := TakeMount(s);
      if s.failed {
        return;
      }
      mounts := mounts + [m];
    }
  }

  method TakeHash(s: Scanner) returns (h: Hash)
    requires s.State().Valid()
    modifies s
    ensures (h, s.State()) == ReadHash(old(s.State()))
  {
    var raw := s.Bytes(32);
    h := if s.failed then seq(32, i => 0) else raw;
  }

  method TakeHashes(s: Scanner, count: nat) returns (hashes: seq<Hash>)
    requires s.State().Valid() && !s.failed
    modifies s
    ensures (hashes, s.State()) == ReadHashes(old(s.State()), count, [])
  {
    hashes := [];
    for i := 0 to count
      invariant s.State().Valid() && !s.failed
      invariant ReadHashes(old(s.State()), count, []) == ReadHashes(s.State(), count - i, hashes)
    {
      var h := TakeHash(s);
      if s.failed {
        return;
      }
      hashes := hashes + [h];
    }
  }

  /** ParseListBatch: flag, count, then the entry loop over a mutable Scanner. */
  method ParseListBatch(p: Bytes) returns (r: Option<Message>)
    ensures r == Parse(KListBatch, p)
  {
    var s := new Scanner(p);
    var last := s.UInt(1);
    var count := s.UInt(4);
    if s.failed {
      return None;
    }
    var entries := TakeEntries(s, count);
    r := if s.failed then None else Some(ListBatch(last == 1, entries));
  }

  /** ParseDeltaReq: path, block size, count, then the hash loop. */
  method ParseDeltaReq(p: Bytes) returns (r: Option<Message>)
    ensures r == Parse(KDeltaReq, p)
  {
    PowValues();
    var s := new Scanner(p);
    var path := s.Str();
    var bs := s.UInt(4);
    var count := s.UInt(4);
    if s.failed {
      return None;
    }
    var hashes := TakeHashes(s, count);
    r := if s.failed then None else Some(DeltaReq(path, bs, hashes));
  }

  /** ParseDiskResp: count, then the mount loop. */
  method ParseDiskResp(p: Bytes) returns (r: Option<Message>)
    ensures r == Parse(KDiskResp, p)
  {
    var s := new Scanner(p);
    var count := s.UInt(1);
    if s.failed {
      return None;
    }
    var mounts := TakeMounts(s, count);
    r := if s.failed then None else Some(DiskResp(mounts));
  }
}
