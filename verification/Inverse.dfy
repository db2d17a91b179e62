/**
 * The other direction of the round trip: whatever parses begins with the encoding of what it was parsed as,
 * so a payload that is cut short is refused.
 */
module Inverse {
  import opened Basics
  import opened Wire
  import opened Messages

  /** Without an error, scan t is scan s after the bytes x. */
  predicate Took(s: Scan, t: Scan, x: Bytes) {
    && s.Valid() && t.Valid() && !s.failed && !t.failed && t.b == s.b && t.pos == s.pos + |x|
    && s.b[s.pos..t.pos] == x
  }

  lemma TookBoth(s: Scan, t: Scan, u: Scan, x: Bytes, y: Bytes)
    requires Took(s, t, x) && Took(t, u, y)
    ensures Took(s, u, x + y)
  {
    assert s.b[s.pos..u.pos] == s.b[s.pos..t.pos] + s.b[t.pos..u.pos];
  }

  lemma {:induction false} BigEndianBack(b: Bytes)
    ensures BigEndian(|b|, FromBigEndian(b)) == b
  {
    if b != [] {
      BigEndianBack(b[..|b| - 1]);
    }
  }

  lemma UIntTook(s: Scan, n: nat)
    requires s.Valid() && !ReadUInt(s, n).1.failed
    ensures Took(s, ReadUInt(s, n).1, BigEndian(n, ReadUInt(s, n).0))
  {
    BigEndianBack(s.b[s.pos..s.pos + n]);
  }

  lemma I64Took(s: Scan)
    requires s.Valid() && !ReadI64(s).1.failed
    ensures Took(s, ReadI64(s).1, EncodeI64(ReadI64(s).0))
  {
    UIntTook(s, 8);
  }

  lemma StrTook(s: Scan)
    requires s.Valid() && !ReadStr(s).1.failed
    ensures Took(s, ReadStr(s).1, EncodeStr(ReadStr(s).0))
  {
    PowValues();
    var (n, t) := ReadUInt(s, 4);
    UIntTook(s, 4);
    TookBoth(s, t, ReadRaw(t, n).1, BigEndian(4, n), ReadRaw(t, n).0);
  }

  lemma EntryTook(s: Scan)
    requires s.Valid() && !ReadEntry(s).1.failed
    ensures Took(s, ReadEntry(s).1, EncodeEntry(ReadEntry(s).0))
  {
    var (p, s1) := ReadStr(s);
    var (n, s2) := ReadU64(s1);
    var (t, s3) := ReadI64(s2);
    I64Took(s2);
    UIntTook(s1, 8);
    StrTook(s);
    TookBoth(s1, s2, s3, BigEndian(8, n), EncodeI64(t));
    TookBoth(s, s1, s3, EncodeStr(p), BigEndian(8, n) + EncodeI64(t));
  }

  lemma MountTook(s: Scan)
    requires s.Valid() && !ReadMount(s).1.failed
    ensures Took(s, ReadMount(s).1, EncodeMount(ReadMount(s).0))
  {
    var (p, s1) := ReadStr(s);
    var (n, s2) := ReadU64(s1);
    var (f, s3) := ReadU64(s2);
    UIntTook(s2, 8);
    UIntTook(s1, 8);
    StrTook(s);
    TookBoth(s1, s2, s3, BigEndian(8, n), BigEndian(8, f));
    TookBoth(s, s1, s3, EncodeStr(p), BigEndian(8, n) + BigEndian(8, f));
  }

  // ---- The parse loops ----

  /** The reader reads what the encoder writes. */
  ghost predicate Reads<T(!new)>(read: Scan -> (T, Scan), enc: T -> Bytes) {
    forall s: Scan :: !read(s).1.failed ==> Took(s, read(s).1, enc(read(s).0))
  }

  /** The loop that reads `count` items behind those in `acc`. */
  function ReadItems<T>(read: Scan -> (T, Scan), s: Scan, count: nat, acc: seq<T>): (seq<T>, Scan)
    decreases count
  {
    if count == 0 then (acc, s)
    else
      var (x, t) := read(s);
      if t.failed then (acc, t) else ReadItems(read, t, count - 1, acc + [x])
  }

  function EncodeItems<T>(enc: T -> Bytes, xs: seq<T>): Bytes {
    if xs == [] then [] else enc(xs[0]) + EncodeItems(enc, xs[1..])
  }

  lemma {:induction false} ItemsTook<T(!new)>(read: Scan -> (T, Scan), enc: T -> Bytes, s: Scan, count: nat,
                                              acc: seq<T>)
    requires Reads(read, enc) && s.Valid() && !s.failed && !ReadItems(read, s, count, acc).1.failed
    ensures var (xs, t) := ReadItems(read, s, count, acc);
            acc <= xs && |xs| == |acc| + count && Took(s, t, EncodeItems(enc, xs[|acc|..]))
    decreases count
  {
    if count > 0 {
      var (x, t) := read(s);
      var (xs, u) := ReadItems(read, s, count, acc);
      ItemsTook(read, enc, t, count - 1, acc + [x]);
      assert (acc + [x])[|acc|] == x;
      assert xs[|acc|..][0] == x && xs[|acc|..][1..] == xs[|acc + [x]|..];
      TookBoth(s, t, u, enc(x), EncodeItems(enc, xs[|acc + [x]|..]));
    }
  }

  // The readers, refusing a scan that is not valid.

  function EntryAt(s: Scan): (FileEntry, Scan) {
    if s.Valid() then ReadEntry(s) else (FileEntry([], 0, 0), s.(failed := true))
  }

  function MountAt(s: Scan): (MountInfo, Scan) {
    if s.Valid() then ReadMount(s) else (MountInfo([], 0, 0), s.(failed := true))
  }

  function HashAt(s: Scan): (Hash, Scan) {
    if s.Valid() then ReadHash(s) else (seq(32, i => 0), s.(failed := true))
  }

  function HashBytes(h: Hash): Bytes {
    h
  }

  lemma EntryReads()
    ensures Reads(EntryAt, EncodeEntry)
  {
    forall s: Scan | !EntryAt(s).1.failed
      ensures Took(s, EntryAt(s).1, EncodeEntry(EntryAt(s).0))
    {
      EntryTook(s);
    }
  }

  lemma MountReads()
    ensures Reads(MountAt, EncodeMount)
  {
    forall s: Scan | !MountAt(s).1.failed
      ensures Took(s, MountAt(s).1, EncodeMount(MountAt(s).0))
    {
      MountTook(s);
    }
  }

  lemma HashReads()
    ensures Reads(HashAt, HashBytes)
  {
    forall s: Scan | !HashAt(s).1.failed
      ensures Took(s, HashAt(s).1, HashBytes(HashAt(s).0))
    {
    }
  }

  lemma {:induction false} EntriesAreItems(s: Scan, count: nat, acc: seq<FileEntry>)
    requires s.Valid()
    ensures ReadEntries(s, count, acc) == ReadItems(EntryAt, s, count, acc)
    decreases count
  {
    if count > 0 {
      var (x, t) := ReadEntry(s);
      assert EntryAt(s) == (x, t);
      if !t.failed {
        EntriesAreItems(t, count - 1, acc + [x]);
      }
    }
  }

  lemma {:induction false} MountsAreItems(s: Scan, count: nat, acc: seq<MountInfo>)
    requires s.Valid()
    ensures ReadMounts(s, count, acc) == ReadItems(MountAt, s, count, acc)
    decreases count
  {
    if count > 0 {
      var (x, t) := ReadMount(s);
      assert MountAt(s) == (x, t);
      if !t.failed {
        MountsAreItems(t, count - 1, acc + [x]);
      }
    }
  }

  lemma {:induction false} HashesAreItems(s: Scan, count: nat, acc: seq<Hash>)
    requires s.Valid()
    ensures ReadHashes(s, count, acc) == ReadItems(HashAt, s, count, acc)
    decreases count
  {
    if count > 0 {
      var (x, t) := ReadHash(s);
      assert HashAt(s) == (x, t);
      if !t.failed {
        HashesAreItems(t, count - 1, acc + [x]);
      }
    }
  }

  lemma {:induction false} EncodedEntries(es: seq<FileEntry>)
    ensures EncodeEntries(es) == EncodeItems(EncodeEntry, es)
  {
    if es != [] {
      EncodedEntries(es[1..]);
    }
  }

  lemma {:induction false} EncodedMounts(ms: seq<MountInfo>)
    ensures EncodeMounts(ms) == EncodeItems(EncodeMount, ms)
  {
    if ms != [] {
      EncodedMounts(ms[1..]);
    }
  }

  lemma {:induction false} EncodedHashes(hs: seq<Hash>)
    ensures EncodeHashes(hs) == EncodeItems(HashBytes, hs)
  {
    if hs != [] {
      EncodedHashes(hs[1..]);
    }
  }

  lemma EntriesTook(s: Scan, count: nat)
    requires s.Valid() && !s.failed && !ReadEntries(s, count, []).1.failed
    ensures var (es, t) := ReadEntries(s, count, []); |es| == count && Took(s, t, EncodeEntries(es))
  {
    EntryReads();
    EntriesAreItems(s, count, []);
    ItemsTook(EntryAt, EncodeEntry, s, count, []);
    var es := ReadEntries(s, count, []).0;
    assert es[0..] == es;
    EncodedEntries(es);
  }

  lemma MountsTook(s: Scan, count: nat)
    requires s.Valid() && !s.failed && !ReadMounts(s, count, []).1.failed
    ensures var (ms, t) := ReadMounts(s, count, []); |ms| == count && Took(s, t, EncodeMounts(ms))
  {
    MountReads();
    MountsAreItems(s, count, []);
    ItemsTook(MountAt, EncodeMount, s, count, []);
    var ms := ReadMounts(s, count, []).0;
    assert ms[0..] == ms;
    EncodedMounts(ms);
  }

  lemma HashesTook(s: Scan, count: nat)
    requires s.Valid() && !s.failed && !ReadHashes(s, count, []).1.failed
    ensures var (hs, t) := ReadHashes(s, count, []); |hs| == count && Took(s, t, EncodeHashes(hs))
  {
    HashReads();
    HashesAreItems(s, count, []);
    ItemsTook(HashAt, HashBytes, s, count, []);
    var hs := ReadHashes(s, count, []).0;
    assert hs[0..] == hs;
    EncodedHashes(hs);
  }

  // ---- The messages ----

  /** The flag of a batch is set by 1 alone; any other value is read as unset, though 0 is what is written. */
  lemma BatchTook(s: Scan)
    requires s.Valid() && !ScanListBatch(s).1.failed
    ensures var (m, t) := ScanListBatch(s);
            && s.pos < |s.b| && Took(s, t, [s.b[s.pos]] + Encode(m)[1..]) && (m.isLast <==> s.b[s.pos] == 1)
            && Encode(m)[0] == if m.isLast then 1 else 0
  {
    var (last, s1) := ReadUInt(s, 1);
    var (n, s2) := ReadUInt(s1, 4);
    var (es, s3) := ReadEntries(s2, n, []);
    EntriesTook(s2, n);
    NumberTook(s1, 4, n, s2, s3, EncodeEntries(es));
    BatchFlag(s, last, s1, s3, BigEndian(4, n) + EncodeEntries(es));
    FlagByte(if last == 1 then 1 else 0, BigEndian(4, n) + EncodeEntries(es));
  }

  /** A number of k bytes, and what comes after it. */
  lemma NumberTook(s: Scan, k: nat, n: nat, t: Scan, u: Scan, x: Bytes)
    requires s.Valid() && ReadUInt(s, k) == (n, t) && Took(t, u, x)
    ensures Took(s, u, BigEndian(k, n) + x)
  {
    UIntTook(s, k);
    TookBoth(s, t, u, BigEndian(k, n), x);
  }

  lemma BatchFlag(s: Scan, v: nat, t: Scan, u: Scan, x: Bytes)
    requires s.Valid() && ReadUInt(s, 1) == (v, t) && Took(t, u, x)
    ensures s.pos < |s.b| && v == s.b[s.pos] && Took(s, u, [v] + x)
  {
    PowValues();
    UIntTook(s, 1);
    FlagByte(v, x);
    TookBoth(s, t, u, BigEndian(1, v), x);
    assert s.b[s.pos..t.pos][0] == s.b[s.pos];
  }

  lemma FlagByte(v: u8, rest: Bytes)
    ensures BigEndian(1, v) == [v] && (BigEndian(1, v) + rest)[1..] == rest
  {
    assert BigEndian(0, 0) == [];
  }

  lemma DeltaReqTook(s: Scan)
    requires s.Valid() && !ScanDeltaReq(s).1.failed
    ensures Took(s, ScanDeltaReq(s).1, Encode(ScanDeltaReq(s).0))
  {
    PowValues();
    var (p, s1) := ReadStr(s);
    var (bs, s2) := ReadUInt(s1, 4);
    var (n, s3) := ReadUInt(s2, 4);
    var (hs, s4) := ReadHashes(s3, n, []);
    UIntTook(s2, 4);
    UIntTook(s1, 4);
    StrTook(s);
    HashesTook(s3, n);
    TookBoth(s2, s3, s4, BigEndian(4, n), EncodeHashes(hs));
    TookBoth(s1, s2, s4, BigEndian(4, bs), BigEndian(4, n) + EncodeHashes(hs));
    TookBoth(s, s1, s4, EncodeStr(p), BigEndian(4, bs) + (BigEndian(4, n) + EncodeHashes(hs)));
  }

  lemma DiskRespTook(s: Scan)
    requires s.Valid() && !ScanDiskResp(s).1.failed
    ensures Took(s, ScanDiskResp(s).1, Encode(ScanDiskResp(s).0))
  {
    var (n, s1) := ReadUInt(s, 1);
    var (ms, s2) := ReadMounts(s1, n, []);
    MountsTook(s1, n);
    CountedMounts(s, n, s1, ms, s2);
  }

  lemma CountedMounts(s: Scan, n: nat, s1: Scan, ms: seq<MountInfo>, s2: Scan)
    requires s.Valid() && ReadUInt(s, 1) == (n, s1) && |ms| == n && Took(s1, s2, EncodeMounts(ms))
    ensures Took(s, s2, Encode(DiskResp(ms)))
  {
    NumberTook(s, 1, n, s1, s2, EncodeMounts(ms));
  }

  lemma StatusTook(s: Scan)
    requires s.Valid() && !ReadStatus(s).1.failed
    ensures var ((v, t, mt), u) := ReadStatus(s); Took(s, u, EncodeStatus(v, t, mt))
  {
    var (v, s1) := ReadU8(s);
    var (t, s2) := ReadU64(s1);
    var (mt, s3) := ReadI64(s2);
    I64Took(s2);
    UIntTook(s1, 8);
    UIntTook(s, 1);
    TookBoth(s1, s2, s3, BigEndian(8, t), EncodeI64(mt));
    TookBoth(s, s1, s3, BigEndian(1, v), BigEndian(8, t) + EncodeI64(mt));
  }

  lemma PutReqTook(s: Scan)
    requires s.Valid() && !ScanPutReq(s).1.failed
    ensures Took(s, ScanPutReq(s).1, Encode(ScanPutReq(s).0))
  {
    var (p, s1) := ReadStr(s);
    var (t, s2) := ReadU64(s1);
    var (o, s3) := ReadU64(s2);
    var (mt, s4) := ReadI64(s3);
    I64Took(s3);
    UIntTook(s2, 8);
    UIntTook(s1, 8);
    StrTook(s);
    TookBoth(s2, s3, s4, BigEndian(8, o), EncodeI64(mt));
    TookBoth(s1, s2, s4, BigEndian(8, t), BigEndian(8, o) + EncodeI64(mt));
    TookBoth(s, s1, s4, EncodeStr(p), BigEndian(8, t) + (BigEndian(8, o) + EncodeI64(mt)));
  }

  /** A number of n bytes, then a string. */
  lemma NumberStrTook(s: Scan, n: nat)
    requires s.Valid() && !ReadStr(ReadUInt(s, n).1).1.failed
    ensures var (v, s1) := ReadUInt(s, n); Took(s, ReadStr(s1).1, BigEndian(n, v) + EncodeStr(ReadStr(s1).0))
  {
    var (v, s1) := ReadUInt(s, n);
    StrTook(s1);
    UIntTook(s, n);
    TookBoth(s, s1, ReadStr(s1).1, BigEndian(n, v), EncodeStr(ReadStr(s1).0));
  }

  /** A string, then a number of n bytes. */
  lemma StrNumberTook(s: Scan, n: nat)
    requires s.Valid() && !ReadUInt(ReadStr(s).1, n).1.failed
    ensures var (p, s1) := ReadStr(s); Took(s, ReadUInt(s1, n).1, EncodeStr(p) + BigEndian(n, ReadUInt(s1, n).0))
  {
    var (p, s1) := ReadStr(s);
    UIntTook(s1, n);
    StrTook(s);
    TookBoth(s, s1, ReadUInt(s1, n).1, EncodeStr(p), BigEndian(n, ReadUInt(s1, n).0));
  }

  lemma PutRespTook(s: Scan)
    requires s.Valid() && !ScanFixed(KPutResp, s).1.failed
    ensures Took(s, ScanFixed(KPutResp, s).1, Encode(ScanFixed(KPutResp, s).0))
  {
    var (v, s1) := ReadU8(s);
    var (o, s2) := ReadU64(s1);
    UIntTook(s1, 8);
    NumberTook(s, 1, v, s1, s2, BigEndian(8, o));
  }

  lemma FixedTook(k: Kind, s: Scan)
    requires k != KListBatch && k != KDeltaReq && k != KDiskResp && s.Valid() && !ScanFixed(k, s).1.failed
    ensures Took(s, ScanFixed(k, s).1, Encode(ScanFixed(k, s).0))
  {
    match k
    case KAuthReq => NumberStrTook(s, 1);
    case KAuthResp => StrNumberTook(s, 1);
    case KListReq => StrTook(s);
    case KGetReq => StrNumberTook(s, 8);
    case KPutReq => PutReqTook(s);
    case KPutResp => PutRespTook(s);
    case KError => NumberStrTook(s, 2);
    case _ => StatusTook(s);
  }

  /** The payload begins with the bytes e of message m, but for a flag other than 0 that stands for unset. */
  predicate Written(p: Bytes, m: Message, e: Bytes) {
    && |e| <= |p|
    && (p[..|e|] == e || (m.ListBatch? && !m.isLast && e != [] && p[0] > 1 && p[1..|e|] == e[1..]))
  }

  /** Whatever parses begins with the encoding of what it is parsed as. */
  lemma ParsedIsEncoded(k: Kind, p: Bytes)
    requires Parse(k, p).Some?
    ensures var m := Parse(k, p).value; KindOf(m) == k && Written(p, m, Encode(m))
  {
    var s := Scan(p, 0, false);
    match k
    case KListBatch =>
      BatchTook(s);
      BatchIsWritten(p, ScanListBatch(s).0, ScanListBatch(s).1);
    case KDeltaReq => DeltaReqTook(s);
    case KDiskResp => DiskRespTook(s);
    case _ => FixedTook(k, s);
  }

  lemma BatchIsWritten(p: Bytes, m: Message, t: Scan)
    requires m.ListBatch? && p != [] && Encode(m) != [] && Took(Scan(p, 0, false), t, [p[0]] + Encode(m)[1..])
    requires (m.isLast <==> p[0] == 1) && Encode(m)[0] == if m.isLast then 1 else 0
    ensures Written(p, m, Encode(m))
  {
    var e := Encode(m);
    var x := [p[0]] + e[1..];
    assert |x| == |e| && p[..|e|] == x && p[1..|e|] == x[1..] == e[1..];
    if p[0] <= 1 {
      assert x == e;
    }
  }

  /** A message cut short anywhere is refused. */
  lemma CutIsRefused(m: Message, cut: nat)
    requires WithinLimits(m) && cut < |Encode(m)|
    ensures Parse(KindOf(m), Encode(m)[..cut]).None?
  {
    var k, e, p := KindOf(m), Encode(m), Encode(m)[..cut];
    if Parse(k, p).Some? {
      var n := Parse(k, p).value;
      ParsedIsEncoded(k, p);
      ParsedIsWithinLimits(k, p);
      if m.ListBatch? {
        FlagByte(if m.isLast then 1 else 0, BigEndian(4, |m.entries|) + EncodeEntries(m.entries));
      }
      assert p[..|Encode(n)|] == Encode(n);
      assert Encode(n) + e[|Encode(n)|..] == e;
      ParseInvertsEncode(n, e[|Encode(n)|..]);
      assert e + [] == e;
      ParseInvertsEncode(m, []);
    }
  }
}
