/**
 * Payload primitives and frames: the big-endian Builder, the Scanner with its sticky error, and the
 * length-prefixed frame reader. The functions say what the bytes mean; the classes are the mutable
 * objects the messages are driven through.
 */
module Wire {
  import opened Basics

  type u8 = x: int | 0 <= x < 0x100
  type u16 = x: int | 0 <= x < 0x1_0000
  type u32 = x: int | 0 <= x < 0x1_0000_0000
  type u64 = x: int | 0 <= x < 0x1_0000_0000_0000_0000
  type i64 = x: int | -0x8000_0000_0000_0000 <= x < 0x8000_0000_0000_0000

  const U32_LIMIT := 0x1_0000_0000

  // ---- Big-endian numbers ----

  function Pow256(n: nat): (p: nat)
    ensures p > 0
  {
    if n == 0 then 1 else 0x100 * Pow256(n - 1)
  }

  /** The n low bytes of v, most significant first: a value that does not fit is truncated. */
  function BigEndian(n: nat, v: nat): (b: Bytes)
    ensures |b| == n
  {
    if n == 0 then [] else BigEndian(n - 1, v / 0x100) + [v % 0x100]
  }

  function FromBigEndian(b: Bytes): nat {
    if b == [] then 0 else FromBigEndian(b[..|b| - 1]) * 0x100 + b[|b| - 1]
  }

  lemma {:induction false} BigEndianRoundTrip(n: nat, v: nat)
    requires v < Pow256(n)
    ensures FromBigEndian(BigEndian(n, v)) == v
  {
    if n > 0 {
      BigEndianRoundTrip(n - 1, v / 0x100);
      assert BigEndian(n, v)[..n - 1] == BigEndian(n - 1, v / 0x100);
    }
  }

  lemma {:induction false} FromBigEndianBound(b: Bytes)
    ensures FromBigEndian(b) < Pow256(|b|)
  {
    if b != [] {
      FromBigEndianBound(b[..|b| - 1]);
    }
  }

  lemma PowValues()
    ensures Pow256(1) == 0x100 && Pow256(2) == 0x1_0000 && Pow256(4) == U32_LIMIT
    ensures Pow256(8) == 0x1_0000_0000_0000_0000
  {
  }

  /** uint64(v) of a signed value. */
  function ToUnsigned(v: i64): u64 {
    if v < 0 then v + 0x1_0000_0000_0000_0000 else v
  }

  /** int64(v) of an unsigned value. */
  function ToSigned(v: u64): i64 {
    if v < 0x8000_0000_0000_0000 then v else v - 0x1_0000_0000_0000_0000
  }

  /** A string: u32 length, then the bytes. The length field is truncated to 32 bits. */
  function EncodeStr(s: Bytes): Bytes {
    BigEndian(4, |s|) + s
  }

  class Builder {
    var buf: Bytes

    constructor ()
      ensures buf == []
    {
      buf := [];
    }

    /** The argument is what the source converts with uint8(...), so a larger value is truncated. */
    method U8(v: nat)
      modifies this
      ensures buf == old(buf) + BigEndian(1, v)
    {
      buf := buf + BigEndian(1, v);
    }

    /** The argument is what the source converts with uint32(...), so a larger value is truncated. */
    method U32(v: nat)
      modifies this
      ensures buf == old(buf) + BigEndian(4, v)
    {
      buf := buf + BigEndian(4, v);
    }

    method U64(v: u64)
      modifies this
      ensures buf == old(buf) + BigEndian(8, v)
    {
      buf := buf + BigEndian(8, v);
    }

    method I64(v: i64)
      modifies this
      ensures buf == old(buf) + BigEndian(8, ToUnsigned(v))
    {
      U64(ToUnsigned(v));
    }

    method Raw(p: Bytes)
      modifies this
      ensures buf == old(buf) + p
    {
      buf := buf + p;
    }

    method Str(s: Bytes)
      modifies this
      ensures buf == old(buf) + EncodeStr(s)
    {
      U32(|s|);
      buf := buf + s;
    }
  }

  // ---- Scanning ----

  /** What a Scanner holds: the payload, the read position and whether an error was latched. */
  datatype Scan = Scan(b: Bytes, pos: nat, failed: bool) {
    predicate Valid() { pos <= |b| }

    /** The bytes still to read. */
    function Rest(): Bytes
      requires Valid()
    {
      b[pos..]
    }

    function Skip(n: nat): Scan {
      this.(pos := pos + n)
    }
  }

  function Need(s: Scan, n: nat): (r: Scan)
    requires s.Valid()
  {
    if s.failed || s.pos + n <= |s.b| then s else s.(failed := true)
  }

  function ReadRaw(s: Scan, n: nat): (r: (Bytes, Scan))
    requires s.Valid()
    ensures r.1.Valid() && (!r.1.failed ==> |r.0| == n)
  {
    if Need(s, n).failed then ([], Need(s, n)) else (s.b[s.pos..s.pos + n], s.Skip(n))
  }

  function ReadUInt(s: Scan, n: nat): (r: (nat, Scan))
    requires s.Valid()
    ensures r.1.Valid() && r.0 < Pow256(n)
  {
    if Need(s, n).failed then (0, Need(s, n))
    else
      FromBigEndianBound(s.b[s.pos..s.pos + n]);
      (FromBigEndian(s.b[s.pos..s.pos + n]), s.Skip(n))
  }

  function ReadU64(s: Scan): (r: (u64, Scan))
    requires s.Valid()
    ensures r.1.Valid()
  {
    PowValues();
    ReadUInt(s, 8)
  }

  function ReadI64(s: Scan): (r: (i64, Scan))
    requires s.Valid()
    ensures r.1.Valid()
  {
    var (v, t) := ReadU64(s);
    (ToSigned(v), t)
  }

  function ReadStr(s: Scan): (r: (Bytes, Scan))
    requires s.Valid()
    ensures r.1.Valid() && |r.0| < U32_LIMIT
  {
    PowValues();
    var (n, t) := ReadUInt(s, 4);
    ReadRaw(t, n)
  }

  /** A scan that only moves on: it never leaves its payload, never clears an error, and an error stops it. */
  predicate Advances(s: Scan, t: Scan) {
    && t.Valid() && t.b == s.b && s.pos <= t.pos
    && (s.failed ==> t == s)
    && (t.failed ==> t.pos <= |s.b|)
  }

  lemma ReadsAdvance(s: Scan, n: nat)
    requires s.Valid()
    ensures Advances(s, ReadUInt(s, n).1) && Advances(s, ReadRaw(s, n).1) && Advances(s, ReadStr(s).1)
    ensures Advances(s, ReadU64(s).1) && Advances(s, ReadI64(s).1)
  {
  }

  /** Reading back what BigEndian wrote, whatever follows. */
  lemma UIntRoundTrip(s: Scan, n: nat, v: nat, rest: Bytes)
    requires s.Valid() && !s.failed && v < Pow256(n) && s.Rest() == BigEndian(n, v) + rest
    ensures ReadUInt(s, n) == (v, s.Skip(n)) && s.Skip(n).Valid() && s.Skip(n).Rest() == rest
  {
    assert s.b[s.pos..s.pos + n] == s.Rest()[..n];
    assert s.Skip(n).Rest() == s.Rest()[n..];
    BigEndianRoundTrip(n, v);
  }

  lemma U64RoundTrip(s: Scan, v: u64, rest: Bytes)
    requires s.Valid() && !s.failed && s.Rest() == BigEndian(8, v) + rest
    ensures ReadU64(s) == (v, s.Skip(8)) && s.Skip(8).Valid() && s.Skip(8).Rest() == rest
  {
    PowValues();
    UIntRoundTrip(s, 8, v, rest);
  }

  lemma I64RoundTrip(s: Scan, v: i64, rest: Bytes)
    requires s.Valid() && !s.failed && s.Rest() == BigEndian(8, ToUnsigned(v)) + rest
    ensures ReadI64(s) == (v, s.Skip(8)) && s.Skip(8).Valid() && s.Skip(8).Rest() == rest
  {
    U64RoundTrip(s, ToUnsigned(v), rest);
  }

  lemma RawRoundTrip(s: Scan, p: Bytes, rest: Bytes)
    requires s.Valid() && !s.failed && s.Rest() == p + rest
    ensures ReadRaw(s, |p|) == (p, s.Skip(|p|)) && s.Skip(|p|).Valid() && s.Skip(|p|).Rest() == rest
  {
    assert s.b[s.pos..s.pos + |p|] == s.Rest()[..|p|];
    assert s.Skip(|p|).Rest() == s.Rest()[|p|..];
  }

  lemma StrRoundTrip(s: Scan, p: Bytes, rest: Bytes)
    requires s.Valid() && !s.failed && |p| < U32_LIMIT && s.Rest() == EncodeStr(p) + rest
    ensures ReadStr(s) == (p, s.Skip(4 + |p|)) && s.Skip(4 + |p|).Valid() && s.Skip(4 + |p|).Rest() == rest
  {
    PowValues();
    assert s.Rest() == BigEndian(4, |p|) + (p + rest);
    UIntRoundTrip(s, 4, |p|, p + rest);
    RawRoundTrip(s.Skip(4), p, rest);
    assert s.Skip(4).Skip(|p|) == s.Skip(4 + |p|);
  }

  class Scanner {
    const b: Bytes
    var pos: nat
    var failed: bool

    ghost function State(): Scan
      reads this
    {
      Scan(b, pos, failed)
    }

    constructor (b: Bytes)
      ensures State() == Scan(b, 0, false)
    {
      this.b := b;
      pos := 0;
      failed := false;
    }

    method Needs(n: nat) returns (ok: bool)
      requires State().Valid()
      modifies this
      ensures State() == Need(old(State()), n) && ok == !State().failed
    {
      if failed {
        return false;
      }
      if pos + n > |b| {
        failed := true;
        return false;
      }
      return true;
    }

    /** The common body of U8, U16, U32 and U64. */
    method UInt(n: nat) returns (v: nat)
      requires State().Valid()
      modifies this
      ensures (v, State()) == ReadUInt(old(State()), n)
    {
      var ok := Needs(n);
      if !ok {
        return 0;
      }
      v := FromBigEndian(b[pos..pos + n]);
      pos := pos + n;
    }

    method Bytes(n: nat) returns (v: Basics.Bytes)
      requires State().Valid()
      modifies this
      ensures (v, State()) == ReadRaw(old(State()), n)
    {
      var ok := Needs(n);
      if !ok {
        return [];
      }
      v := b[pos..pos + n];
      pos := pos + n;
    }

    method Str() returns (v: Basics.Bytes)
      requires State().Valid()
      modifies this
      ensures (v, State()) == ReadStr(old(State()))
    {
      var n := UInt(4);
      v := Bytes(n);
    }

    method U64() returns (v: u64)
      requires State().Valid()
      modifies this
      ensures (v, State()) == ReadU64(old(State()))
    {
      PowValues();
      v := UInt(8);
    }

    method I64() returns (v: i64)
      requires State().Valid()
      modifies this
      ensures (v, State()) == ReadI64(old(State()))
    {
      var u := U64();
      v := ToSigned(u);
    }
  }

  // ---- Frames ----

  const PROTO_VERSION: u8 := 1
  const HEADER_SIZE := 10

  datatype RawFrame = RawFrame(kind: u8, payload: Bytes)

  /** Version, type, u64 length, payload. */
  function WriteFrame(f: RawFrame): Bytes {
    [PROTO_VERSION, f.kind] + BigEndian(8, |f.payload|) + f.payload
  }

  function WriteAll(fs: seq<RawFrame>): Bytes {
    if fs == [] then [] else WriteFrame(fs[0]) + WriteAll(fs[1..])
  }

  datatype FrameError = Cut | BadVersion | TooLarge

  datatype ReadResult = Got(frame: RawFrame, rest: Bytes) | Refused(error: FrameError)

  /** One frame off a stream whose peer may have gone away at any byte. */
  function ReadFrame(stream: Bytes, maxFrame: u64): (r: ReadResult)
    ensures r.Got? ==> |r.rest| < |stream| && |r.frame.payload| <= maxFrame
  {
    if |stream| < HEADER_SIZE then Refused(Cut)
    else if stream[0] != PROTO_VERSION then Refused(BadVersion)
    else
      var length := FromBigEndian(stream[2..HEADER_SIZE]);
      if length > maxFrame then Refused(TooLarge)
      else if |stream| < HEADER_SIZE + length then Refused(Cut)
      else Got(RawFrame(stream[1], stream[HEADER_SIZE..HEADER_SIZE + length]), stream[HEADER_SIZE + length..])
  }

  /** Every frame up to the end of the stream or the first error, and that error. */
  function ReadAll(stream: Bytes, maxFrame: u64): (r: (seq<RawFrame>, Option<FrameError>))
    decreases |stream|
  {
    if stream == [] then ([], None)
    else
      match ReadFrame(stream, maxFrame)
      case Refused(e) => ([], Some(e))
      case Got(f, rest) =>
        var (fs, e) := ReadAll(rest, maxFrame);
        ([f] + fs, e)
  }

  lemma FrameRoundTrip(f: RawFrame, maxFrame: u64, rest: Bytes)
    requires |f.payload| <= maxFrame
    ensures ReadFrame(WriteFrame(f) + rest, maxFrame) == Got(f, rest)
  {
    var s := WriteFrame(f) + rest;
    PowValues();
    BigEndianRoundTrip(8, |f.payload|);
    assert s[2..HEADER_SIZE] == BigEndian(8, |f.payload|);
    assert s[HEADER_SIZE..HEADER_SIZE + |f.payload|] == f.payload;
    assert s[HEADER_SIZE + |f.payload|..] == rest;
  }

  lemma {:induction false} ReadAllWithinLimit(stream: Bytes, maxFrame: u64)
    ensures forall f | f in ReadAll(stream, maxFrame).0 :: |f.payload| <= maxFrame
    decreases |stream|
  {
    if stream != [] && ReadFrame(stream, maxFrame).Got? {
      ReadAllWithinLimit(ReadFrame(stream, maxFrame).rest, maxFrame);
    }
  }

  lemma {:induction false} WriteAllReadsBack(fs: seq<RawFrame>, maxFrame: u64)
    requires forall f | f in fs :: |f.payload| <= maxFrame
    ensures ReadAll(WriteAll(fs), maxFrame) == (fs, None)
  {
    if fs != [] {
      var rest := WriteAll(fs[1..]);
      FrameRoundTrip(fs[0], maxFrame, rest);
      WriteAllReadsBack(fs[1..], maxFrame);
      var s := WriteFrame(fs[0]) + rest;
      assert WriteAll(fs) == s && ReadFrame(s, maxFrame) == Got(fs[0], rest);
      assert fs == [fs[0]] + fs[1..];
    }
  }

  /** A concatenation of frames reads back as the same list exactly when every frame is within the limit. */
  lemma FramesRoundTrip(fs: seq<RawFrame>, maxFrame: u64)
    ensures ReadAll(WriteAll(fs), maxFrame) == (fs, None) <==> forall f | f in fs :: |f.payload| <= maxFrame
  {
    ReadAllWithinLimit(WriteAll(fs), maxFrame);
    if forall f | f in fs :: |f.payload| <= maxFrame {
      WriteAllReadsBack(fs, maxFrame);
    }
  }

  /**
   * A connection lost after any number of bytes delivers whole frames only, in order: what is read
   * is a prefix of what was sent, and a cut inside a frame is reported as such.
   */
  lemma {:induction false} CutStreamDeliversPrefix(fs: seq<RawFrame>, maxFrame: u64, k: nat)
    requires forall f | f in fs :: |f.payload| <= maxFrame
    requires k <= |WriteAll(fs)|
    ensures var (got, e) := ReadAll(WriteAll(fs)[..k], maxFrame);
            got <= fs && (e == None || e == Some(Cut)) && (e == None ==> WriteAll(got) == WriteAll(fs)[..k])
  {
    var s := WriteAll(fs)[..k];
    if fs != [] && k > 0 {
      var w := WriteFrame(fs[0]);
      var tail := WriteAll(fs[1..]);
      assert WriteAll(fs) == w + tail;
      if k >= |w| {
        assert s == w + tail[..k - |w|];
        FrameRoundTrip(fs[0], maxFrame, tail[..k - |w|]);
        CutStreamDeliversPrefix(fs[1..], maxFrame, k - |w|);
        var got := ReadAll(tail[..k - |w|], maxFrame).0;
        assert ([fs[0]] + got)[1..] == got;
      } else {
        CutFrame(fs[0], maxFrame, k);
        assert s == w[..k];
      }
    }
  }

  lemma CutFrame(f: RawFrame, maxFrame: u64, k: nat)
    requires |f.payload| <= maxFrame && k < |WriteFrame(f)|
    ensures ReadFrame(WriteFrame(f)[..k], maxFrame) == Refused(Cut)
  {
    var s := WriteFrame(f)[..k];
    if k >= HEADER_SIZE {
      PowValues();
      BigEndianRoundTrip(8, |f.payload|);
      assert s[2..HEADER_SIZE] == BigEndian(8, |f.payload|);
    }
  }

  /** A byte stream between two peers: what is written at one end and not yet read at the other. */
  class Stream {
    var data: Bytes

    /** io.ReadFull: n bytes, or nothing if the peer is gone before that. */
    method ReadFull(n: nat) returns (b: Option<Bytes>)
      modifies this
      ensures n <= |old(data)| ==> b == Some(old(data)[..n]) && data == old(data)[n..]
      ensures n > |old(data)| ==> b.None?
    {
      if n > |data| {
        return None;
      }
      b := Some(data[..n]);
      data := data[n..];
    }

    method Write(f: RawFrame)
      modifies this
      ensures data == old(data) + WriteFrame(f)
    {
      var hdr := [PROTO_VERSION, f.kind] + BigEndian(8, |f.payload|);
      data := data + hdr;
      if |f.payload| > 0 {
        data := data + f.payload;
      }
      assert old(data) + hdr + f.payload == old(data) + (hdr + f.payload);
      assert |f.payload| == 0 ==> old(data) + hdr + f.payload == old(data) + hdr;
    }

    /** ReadFrame off the stream; a frame read is taken off it whole. */
    method Read(maxFrame: u64) returns (r: ReadResult)
      modifies this
      ensures r == ReadFrame(old(data), maxFrame) && (r.Got? ==> data == r.rest)
    {
      var hdr := ReadFull(HEADER_SIZE);
      if hdr.None? {
        return Refused(Cut);
      }
      if hdr.value[0] != PROTO_VERSION {
        return Refused(BadVersion);
      }
      var length := FromBigEndian(hdr.value[2..]);
      assert hdr.value[2..] == old(data)[2..HEADER_SIZE];
      if length > maxFrame {
        return Refused(TooLarge);
      }
      var payload: Bytes := [];
      if length > 0 {
        var p := ReadFull(length);
        if p.None? {
          return Refused(Cut);
        }
        payload := p.value;
      }
      assert payload == old(data)[HEADER_SIZE..HEADER_SIZE + length];
      assert data == old(data)[HEADER_SIZE + length..];
      return Got(RawFrame(hdr.value[1], payload), data);
    }
  }
}
