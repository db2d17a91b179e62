/**
 * Where a trashed file lies: the canonical slot keeps the relative path, version n > 0 goes to
 * `<dir>/.versions/<n>/<base>`. Paths are sequences of segments.
 */
module TrashPaths {

  type Path = seq<string>

  const VERSIONS := ".versions"

  function Digit(d: nat): char
    requires d < 10
  {
    "0123456789"[d]
  }

  /** Decimal notation of a number, as strconv.Itoa writes it. */
  function Itoa(n: nat): (s: string)
    ensures s != []
  {
    if n < 10 then [Digit(n)] else Itoa(n / 10) + [Digit(n % 10)]
  }

  predicate IsDigit(c: char) {
    '0' <= c <= '9'
  }

  function DigitValue(c: char): nat {
    if IsDigit(c) then c as int - '0' as int else 0
  }

  function Value(s: string): nat {
    if s == [] then 0 else Value(s[..|s| - 1]) * 10 + DigitValue(s[|s| - 1])
  }

  /** A positive decimal numeral without leading zeros: what Itoa can produce for n > 0. */
  predicate IsNumeral(s: string) {
    s != [] && s[0] != '0' && forall c | c in s :: IsDigit(c)
  }

  lemma {:induction false} ItoaValue(n: nat)
    ensures forall c | c in Itoa(n) :: IsDigit(c)
    ensures Value(Itoa(n)) == n
    ensures n > 0 ==> IsNumeral(Itoa(n))
  {
    if n >= 10 {
      ItoaValue(n / 10);
      assert Itoa(n)[..|Itoa(n)| - 1] == Itoa(n / 10);
    } else {
      assert Value([]) == 0;
      assert [Digit(n)][..0] == [];
    }
  }

  lemma DigitBack(c: char)
    requires IsDigit(c)
    ensures DigitValue(c) < 10 && Digit(DigitValue(c)) == c && (c != '0' ==> DigitValue(c) > 0)
  {
  }

  lemma Tens(v: nat, d: nat)
    requires d < 10
    ensures (v * 10 + d) / 10 == v && (v * 10 + d) % 10 == d
  {
  }

  lemma {:induction false} NumeralIsItoa(s: string)
    requires IsNumeral(s)
    ensures Value(s) > 0 && Itoa(Value(s)) == s
  {
    var init, c := s[..|s| - 1], s[|s| - 1];
    assert s == init + [c];
    DigitBack(c);
    var v, d := Value(init), DigitValue(c);
    assert Value(s) == v * 10 + d;
    Tens(v, d);
    if init == [] {
      assert Value(init) == 0;
    } else {
      NumeralIsItoa(init);
    }
  }

  function Base(rel: Path): string
    requires rel != []
  {
    rel[|rel| - 1]
  }

  /** The slot of a version of rel in the trash; version 0 is the canonical one. */
  function Slot(rel: Path, version: nat): Path
    requires rel != []
  {
    if version == 0 then rel else rel[..|rel| - 1] + [VERSIONS, Itoa(version), Base(rel)]
  }

  /** A relative path that itself looks like a version slot. */
  predicate LooksLikeSlot(rel: Path) {
    |rel| >= 3 && rel[|rel| - 3] == ".versions" && IsNumeral(rel[|rel| - 2])
  }

  lemma NumberedSlots(a: Path, v: nat, b: Path, w: nat)
    requires a != [] && b != [] && v > 0 && w > 0 && Slot(a, v) == Slot(b, w)
    ensures a == b && v == w
  {
    var s := Slot(a, v);
    assert s[|s| - 2] == Itoa(v) == Itoa(w);
    ItoaValue(v);
    ItoaValue(w);
    assert s[|s| - 1] == Base(a) == Base(b);
    assert s[..|s| - 3] == a[..|a| - 1] == b[..|b| - 1];
    assert a == a[..|a| - 1] + [Base(a)];
    assert b == b[..|b| - 1] + [Base(b)];
  }

  lemma SlotLooks(f: Path, v: nat)
    requires f != [] && v > 0
    ensures LooksLikeSlot(Slot(f, v))
  {
    ItoaValue(v);
    var s := Slot(f, v);
    assert s[|s| - 3] == VERSIONS && s[|s| - 2] == Itoa(v);
  }

  lemma LookalikeIsSlot(rel: Path) returns (f: Path, v: nat)
    requires LooksLikeSlot(rel)
    ensures f != [] && v > 0 && Slot(f, v) == rel && |f| == |rel| - 2
  {
    var n := |rel|;
    f, v := rel[..n - 3] + [rel[n - 1]], Value(rel[n - 2]);
    NumeralIsItoa(rel[n - 2]);
    assert f[..|f| - 1] == rel[..n - 3];
    assert rel == rel[..n - 3] + [rel[n - 3], rel[n - 2], rel[n - 1]];
  }

  /** A path is some file's numbered slot exactly when it looks like one. */
  lemma SlotShape(rel: Path)
    ensures (exists f: Path, v: nat :: f != [] && v > 0 && Slot(f, v) == rel) <==> LooksLikeSlot(rel)
  {
    if f: Path, v: nat :| f != [] && v > 0 && Slot(f, v) == rel {
      SlotLooks(f, v);
    }
    if LooksLikeSlot(rel) {
      var f, v := LookalikeIsSlot(rel);
    }
  }

  /** Slots are told apart: distinct (file, version) pairs never share a slot, for files that do not look like slots. */
  lemma SlotInjective(a: Path, v: nat, b: Path, w: nat)
    requires a != [] && b != [] && !LooksLikeSlot(a) && !LooksLikeSlot(b)
    requires Slot(a, v) == Slot(b, w)
    ensures a == b && v == w
  {
    if v > 0 && w > 0 {
      NumberedSlots(a, v, b, w);
    } else if v > 0 {
      SlotLooks(a, v);
    } else if w > 0 {
      SlotLooks(b, w);
    }
  }

  /** The hypothesis is needed: every path that looks like a slot does share one with another file's version. */
  lemma SlotLookalikeCollides(rel: Path)
    requires LooksLikeSlot(rel)
    ensures exists f: Path, v: nat :: f != [] && f != rel && v > 0 && Slot(f, v) == Slot(rel, 0)
  {
    var f, v := LookalikeIsSlot(rel);
  }

  lemma OtherSlot(rel: Path, n: nat)
    requires rel != [] && n > 0
    ensures Slot(rel, n) != rel
  {
  }
}
