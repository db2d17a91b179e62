/**
 * Relative paths: cleaning, and joining to a root without leaving it. Paths use '/', as on Unix,
 * and cleaning is the lexical one: drop "" and ".", let ".." cancel the name before it.
 */
module Paths {

  const DOT := "."
  const UP := ".."
  const EMPTY: string := ""

  function Split(s: string): (segs: seq<string>)
    ensures |segs| > 0
  {
    if s == [] then [[]]
    else
      var r := Split(s[1..]);
      if s[0] == '/' then [[]] + r else [[s[0]] + r[0]] + r[1..]
  }

  function Join(segs: seq<string>): string {
    if segs == [] then [] else if |segs| == 1 then segs[0] else segs[0] + "/" + Join(segs[1..])
  }

  /** The stack of segments after one more. */
  function Push(rooted: bool, st: seq<string>, seg: string): seq<string> {
    if seg == [] || seg == DOT then st
    else if seg != UP then st + [seg]
    else if st != [] && st[|st| - 1] != UP then st[..|st| - 1]
    else if rooted then st
    else st + [UP]
  }

  function Norm(rooted: bool, segs: seq<string>): seq<string> {
    if segs == [] then [] else Push(rooted, Norm(rooted, segs[..|segs| - 1]), segs[|segs| - 1])
  }

  predicate Rooted(s: string) {
    s != [] && s[0] == '/'
  }

  /** path.Clean, for a non-empty path. */
  function Clean(s: string): string {
    var st := Norm(Rooted(s), Split(s));
    if Rooted(s) then "/" + Join(st) else if st == [] then DOT else Join(st)
  }

  function TrimSlash(s: string): string {
    if Rooted(s) then s[1..] else s
  }

  function CleanRel(rel: string): string {
    var r := TrimSlash(rel);
    if r == [] then [] else Clean(r)
  }

  /** SafeJoin's first checks. */
  predicate LooksInside(clean: string) {
    clean != [] && clean != UP && !("../" <= clean) && !Rooted(clean)
  }

  /** SafeJoin's second check, on absolute paths. */
  predicate StaysInside(rootAbs: string, fullAbs: string) {
    fullAbs == rootAbs || rootAbs + "/" <= fullAbs
  }

  datatype Joined = Inside(full: string) | Outside

  /** filepath.Join of two elements, the second of which is not empty. */
  function JoinPath(root: string, clean: string): string {
    Clean(if root == [] then clean else root + "/" + clean)
  }

  /** A path seen from the working directory. */
  function From(cwd: string, p: string): string {
    if Rooted(p) then p else if p == [] then cwd else cwd + "/" + p
  }

  /** filepath.Abs. */
  function Abs(cwd: string, p: string): string {
    Clean(From(cwd, p))
  }

  /** SafeJoin, called in the working directory cwd. */
  function SafeJoin(cwd: string, root: string, rel: string): Joined {
    var clean := CleanRel(rel);
    if !LooksInside(clean) then Outside
    else
      var full := JoinPath(root, clean);
      if StaysInside(Abs(cwd, root), Abs(cwd, full)) then Inside(full) else Outside
  }

  // ---- Segments ----

  predicate Plain(seg: string) {
    seg != [] && '/' !in seg
  }

  predicate Name(seg: string) {
    Plain(seg) && seg != DOT && seg != UP
  }

  /** Some ".." (none if rooted), then names. */
  ghost predicate Normal(rooted: bool, st: seq<string>) {
    && (forall i | 0 <= i < |st| :: Name(st[i]) || (st[i] == UP && !rooted))
    && (forall i, j | 0 <= i < j < |st| && st[j] == UP :: st[i] == UP)
  }

  lemma {:induction false} SplitHasNoSlash(s: string)
    ensures forall seg | seg in Split(s) :: '/' !in seg
  {
    if s != [] {
      SplitHasNoSlash(s[1..]);
    }
  }

  lemma {:induction false} SplitConcat(a: string, b: string)
    ensures Split(a + "/" + b) == Split(a) + Split(b)
  {
    var s := a + "/" + b;
    if a == [] {
      assert s[1..] == b;
    } else {
      assert s[1..] == a[1..] + "/" + b;
      SplitConcat(a[1..], b);
    }
  }

  lemma {:induction false} SplitPlain(seg: string)
    requires '/' !in seg
    ensures Split(seg) == [seg]
  {
    if seg != [] {
      SplitPlain(seg[1..]);
      assert [seg[0]] + seg[1..] == seg;
    }
  }

  lemma {:induction false} SplitJoin(segs: seq<string>)
    requires segs != [] && forall seg | seg in segs :: '/' !in seg
    ensures Split(Join(segs)) == segs
  {
    SplitPlain(segs[0]);
    if |segs| > 1 {
      SplitJoin(segs[1..]);
      SplitConcat(segs[0], Join(segs[1..]));
      assert segs == [segs[0]] + segs[1..];
    } else {
      assert segs == [segs[0]];
    }
  }

  lemma {:induction false} JoinConcat(xs: seq<string>, ys: seq<string>)
    requires xs != [] && ys != []
    ensures Join(xs + ys) == Join(xs) + "/" + Join(ys)
  {
    if |xs| > 1 {
      assert (xs + ys)[1..] == xs[1..] + ys;
      JoinConcat(xs[1..], ys);
    } else {
      assert (xs + ys)[1..] == ys;
    }
  }

  lemma PushNormal(rooted: bool, st: seq<string>, seg: string)
    requires Normal(rooted, st) && '/' !in seg
    ensures Normal(rooted, Push(rooted, st, seg))
  {
  }

  lemma {:induction false} NormNormal(rooted: bool, segs: seq<string>)
    requires forall seg | seg in segs :: '/' !in seg
    ensures Normal(rooted, Norm(rooted, segs))
  {
    if segs != [] {
      NormNormal(rooted, segs[..|segs| - 1]);
      PushNormal(rooted, Norm(rooted, segs[..|segs| - 1]), segs[|segs| - 1]);
    }
  }

  /** Names added to a path stay as they are. */
  lemma {:induction false} NormAppendNames(rooted: bool, xs: seq<string>, names: seq<string>)
    requires forall n | n in names :: Name(n)
    ensures Norm(rooted, xs + names) == Norm(rooted, xs) + names
  {
    if names == [] {
      assert xs + names == xs;
    } else {
      var k, all := |names| - 1, xs + names;
      assert Name(names[k]);
      assert all[..|all| - 1] == xs + names[..k] && all[|all| - 1] == names[k];
      NormAppendNames(rooted, xs, names[..k]);
      assert Norm(rooted, xs) + names[..k] + [names[k]] == Norm(rooted, xs) + names;
    }
  }

  /**
   * The laws of cleaning, at any place of a path: "" and "." count for nothing, ".." takes the name before it
   * away, and at the beginning it is dropped from a rooted path and kept in a relative one.
   */
  lemma CleaningLaws(rooted: bool, xs: seq<string>, name: string)
    requires Name(name)
    ensures Norm(rooted, xs + [EMPTY]) == Norm(rooted, xs) && Norm(rooted, xs + [DOT]) == Norm(rooted, xs)
    ensures Norm(rooted, xs + [name]) == Norm(rooted, xs) + [name]
    ensures Norm(rooted, xs + [name] + [UP]) == Norm(rooted, xs)
    ensures Norm(rooted, xs) == [] ==> Norm(rooted, xs + [UP]) == if rooted then [] else [UP]
    ensures Norm(rooted, xs) != [] && Norm(rooted, xs)[|Norm(rooted, xs)| - 1] == UP && !rooted ==>
              Norm(rooted, xs + [UP]) == Norm(rooted, xs) + [UP]
  {
    NormOneMore(rooted, xs, EMPTY);
    NormOneMore(rooted, xs, DOT);
    NormOneMore(rooted, xs, UP);
    NormOneMore(rooted, xs, name);
    NormOneMore(rooted, xs + [name], UP);
    Unpushed(Norm(rooted, xs), name);
  }

  lemma NormOneMore(rooted: bool, xs: seq<string>, x: string)
    ensures Norm(rooted, xs + [x]) == Push(rooted, Norm(rooted, xs), x)
  {
  }

  lemma Unpushed(st: seq<string>, x: string)
    ensures (st + [x])[..|st|] == st
  {
  }

  /** Normal segments are a fixed point. */
  lemma {:induction false} NormIdempotent(rooted: bool, st: seq<string>)
    requires Normal(rooted, st)
    ensures Norm(rooted, st) == st
  {
    if st != [] {
      var k := |st| - 1;
      NormIdempotent(rooted, st[..k]);
      assert st == st[..k] + [st[k]];
    }
  }

  // ---- Cleaned paths ----

  /** The normal segments of a relative path. */
  function Segments(s: string): seq<string> {
    Norm(false, Split(s))
  }

  function RootSegments(root: string): seq<string> {
    Norm(true, Split(root))
  }

  lemma NormalOf(rooted: bool, s: string)
    ensures Normal(rooted, Norm(rooted, Split(s)))
  {
    SplitHasNoSlash(s);
    NormNormal(rooted, Split(s));
  }

  lemma FirstSlash(j: string, at: nat, i: nat)
    requires at <= |j| && i < |j| && '/' !in j[..at] && j[i] == '/'
    ensures at <= i
  {
  }

  lemma LongerJoin(st: seq<string>)
    requires |st| > 1 && Plain(st[0])
    ensures var j := Join(st);
            && |j| > |st[0]| && j[..|st[0]|] == st[0] && j[|st[0]|] == '/' && j != UP
            && ("../" <= j <==> st[0] == UP)
  {
    var j, first := Join(st), st[0];
    assert j == first + ("/" + Join(st[1..]));
    assert j[..|first|] == first && j[|first|] == '/';
    assert forall i | 0 <= i < |UP| :: UP[i] != '/';
    if "../" <= j {
      assert j[..2] == UP && j[2] == '/';
      FirstSlash(j, |first|, 2);
      FirstSlash(j, 2, |first|);
    }
  }

  lemma PlainAt(seg: string, i: nat)
    requires Plain(seg) && i < |seg|
    ensures seg[i] != '/'
  {
  }

  lemma FirstSegment(st: seq<string>)
    requires st != [] && Plain(st[0])
    ensures !Rooted(Join(st)) && Join(st) != []
    ensures Join(st) == UP <==> st == [UP]
    ensures "../" <= Join(st) <==> |st| > 1 && st[0] == UP
  {
    PlainAt(st[0], 0);
    if |st| > 1 {
      LongerJoin(st);
      assert Join(st)[0] == Join(st)[..|st[0]|][0];
    } else if |st[0]| > 2 {
      PlainAt(st[0], 2);
    }
  }

  /** A cleaned relative path, what it looks like and what it splits into. */
  lemma CleanRelative(s: string)
    requires s != [] && !Rooted(s)
    ensures Normal(false, Segments(s)) && !Rooted(Clean(s)) && Clean(s) != []
    ensures Split(Clean(s)) == if Segments(s) == [] then [DOT] else Segments(s)
    ensures LooksInside(Clean(s)) <==> Segments(s) == [] || Segments(s)[0] != UP
  {
    NormalOf(false, s);
    var st := Segments(s);
    if st == [] {
      SplitPlain(DOT);
    } else {
      SplitJoin(st);
      FirstSegment(st);
    }
  }

  lemma {:induction false} NormalTail(st: seq<string>, i: nat)
    requires Normal(false, st) && i < |st| && st[0] != UP
    ensures Name(st[i])
  {
  }

  lemma CleanRooted(st: seq<string>)
    requires Normal(true, st)
    ensures Clean("/" + Join(st)) == "/" + Join(st) && RootSegments("/" + Join(st)) == st
  {
    var s := "/" + Join(st);
    SplitConcat([], Join(st));
    assert [] + "/" + Join(st) == s;
    NormIdempotent(true, st);
    if st == [] {
      SplitPlain([]);
      NormDropsEmpty([EMPTY]);
      NormDropsEmpty([]);
    } else {
      SplitJoin(st);
      NormDropsEmpty(st);
    }
  }

  lemma {:induction false} NormDropsEmpty(segs: seq<string>)
    ensures Norm(true, [EMPTY] + segs) == Norm(true, segs)
  {
    if segs == [] {
      assert [EMPTY] + segs == [EMPTY] && [EMPTY][..0] == [];
    } else {
      var k := |segs| - 1;
      assert ([EMPTY] + segs)[..k + 1] == [EMPTY] + segs[..k];
      NormDropsEmpty(segs[..k]);
    }
  }

  /** Segments come to the same behind a rooted path whether they are normal already or not yet. */
  ghost predicate Through(base: seq<string>, segs: seq<string>) {
    Norm(true, base + Norm(false, segs)) == Norm(true, base + segs)
  }

  lemma {:induction false} NormThrough(base: seq<string>, segs: seq<string>)
    requires forall i | 0 <= i < |segs| :: '/' !in segs[i]
    ensures Through(base, segs)
  {
    if segs != [] {
      var init, x := segs[..|segs| - 1], segs[|segs| - 1];
      NormThrough(base, init);
      ThroughLast(base, init, x);
      assert init + [x] == segs;
    }
  }

  lemma ThroughLast(base: seq<string>, init: seq<string>, x: string)
    requires Through(base, init) && forall i | 0 <= i < |init| :: '/' !in init[i]
    ensures Through(base, init + [x])
  {
    NormNormal(false, init);
    NormLast(base, init, x);
    PushThrough(base, Norm(false, init), x);
    PushLast(init, x);
  }

  lemma PushLast(init: seq<string>, x: string)
    ensures Norm(false, init + [x]) == Push(false, Norm(false, init), x)
  {
  }

  lemma PushThrough(base: seq<string>, n: seq<string>, x: string)
    requires Normal(false, n)
    ensures Norm(true, base + Push(false, n, x)) == Push(true, Norm(true, base + n), x)
  {
    if x == UP && n != [] && n[|n| - 1] != UP {
      assert n == n[..|n| - 1] + [n[|n| - 1]];
      NormLast(base, n[..|n| - 1], n[|n| - 1]);
    } else {
      NormLast(base, n, x);
    }
  }

  lemma NormLast(base: seq<string>, segs: seq<string>, x: string)
    ensures Norm(true, base + (segs + [x])) == Push(true, Norm(true, base + segs), x)
  {
    var all := base + (segs + [x]);
    assert all[..|all| - 1] == base + segs && all[|all| - 1] == x;
  }

  /** Behind an absolute path, a relative one need not be cleaned first. */
  lemma CleanedFirst(cwd: string, s: string)
    requires Rooted(cwd) && s != [] && !Rooted(s)
    ensures Clean(cwd + "/" + Clean(s)) == Clean(cwd + "/" + s)
  {
    CleanRelative(s);
    SplitHasNoSlash(s);
    SplitConcat(cwd, Clean(s));
    SplitConcat(cwd, s);
    NormThrough(Split(cwd), Split(s));
    if Segments(s) == [] {
      NormLast(Split(cwd), [], DOT);
      assert Split(cwd) + ([] + [DOT]) == Split(cwd) + [DOT] && Split(cwd) + [] == Split(cwd);
    }
  }

  lemma CleanTwice(s: string)
    requires Rooted(s)
    ensures Clean(Clean(s)) == Clean(s)
  {
    NormalOf(true, s);
    CleanRooted(RootSegments(s));
  }

  /** Whatever the root is relative to, the joined path is the root's absolute path joined. */
  lemma JoinedAbs(cwd: string, root: string, clean: string)
    requires Rooted(cwd) && clean != [] && !Rooted(clean)
    ensures Rooted(From(cwd, root))
    ensures Abs(cwd, JoinPath(root, clean)) == Clean(From(cwd, root) + "/" + clean)
  {
    if Rooted(root) {
      CleanTwice(root + "/" + clean);
    } else if root == [] {
      RelativeAbs(cwd, clean);
    } else {
      RelativeAbs(cwd, root + "/" + clean);
      Regroup(cwd, root, clean);
    }
  }

  lemma RelativeAbs(cwd: string, s: string)
    requires Rooted(cwd) && s != [] && !Rooted(s)
    ensures Abs(cwd, Clean(s)) == Clean(cwd + "/" + s)
  {
    CleanRelative(s);
    CleanedFirst(cwd, s);
  }

  lemma Regroup(x: string, y: string, z: string)
    ensures x + "/" + (y + "/" + z) == x + "/" + y + "/" + z
  {
  }

  /**
   * Containment. A path that passes the first checks has no ".." segment, and joined to the root its absolute
   * path is the root's segments followed by its own.
   */
  lemma JoinExtendsRoot(cwd: string, root: string, rel: string)
    requires Rooted(cwd) && LooksInside(CleanRel(rel))
    ensures UP !in Split(CleanRel(rel)) && !Rooted(TrimSlash(rel))
    ensures Rooted(From(cwd, root))
    ensures var st := RootSegments(From(cwd, root)) + Segments(TrimSlash(rel));
            Abs(cwd, JoinPath(root, CleanRel(rel))) == "/" + Join(st) && Normal(true, st)
    ensures forall n | n in Segments(TrimSlash(rel)) :: Name(n)
  {
    JoinedAbs(cwd, root, CleanRel(rel));
    ExtendsAbsolute(From(cwd, root), rel);
  }

  lemma ExtendsAbsolute(root: string, rel: string)
    requires Rooted(root) && LooksInside(CleanRel(rel))
    ensures UP !in Split(CleanRel(rel)) && !Rooted(TrimSlash(rel))
    ensures Clean(root + "/" + CleanRel(rel)) == "/" + Join(RootSegments(root) + Segments(TrimSlash(rel)))
    ensures Normal(true, RootSegments(root) + Segments(TrimSlash(rel)))
    ensures forall n | n in Segments(TrimSlash(rel)) :: Name(n)
  {
    var r := TrimSlash(rel);
    CleanRelative(r);
    SegmentsAreNames(r);
    JoinedSegments(root, r);
    NormalOf(true, root);
  }

  lemma SegmentsAreNames(s: string)
    requires s != [] && !Rooted(s) && LooksInside(Clean(s))
    ensures forall n | n in Segments(s) :: Name(n)
    ensures UP !in Split(Clean(s))
  {
    CleanRelative(s);
    var st := Segments(s);
    forall n | n in st
      ensures Name(n)
    {
      var i :| 0 <= i < |st| && st[i] == n;
      NormalTail(st, i);
    }
  }

  /** The segments of the root joined with a cleaned path of names only. */
  lemma JoinedSegments(root: string, s: string)
    requires Rooted(root) && s != [] && !Rooted(s) && forall n | n in Segments(s) :: Name(n)
    ensures RootSegments(root + "/" + Clean(s)) == RootSegments(root) + Segments(s)
    ensures Clean(root + "/" + Clean(s)) == "/" + Join(RootSegments(root) + Segments(s))
  {
    var st := Segments(s);
    CleanRelative(s);
    SplitConcat(root, Clean(s));
    if st == [] {
      assert (Split(root) + [DOT])[..|Split(root)|] == Split(root);
      assert RootSegments(root) + st == RootSegments(root);
    } else {
      NormAppendNames(true, Split(root), st);
    }
  }

  lemma InsideIff(base: seq<string>, st: seq<string>)
    requires Normal(true, base + st)
    ensures StaysInside("/" + Join(base), "/" + Join(base + st)) <==> base != [] || st == []
  {
    assert forall n | n in base + st :: Plain(n);
    if st == [] {
      assert base + st == base;
    } else if base == [] {
      assert base + st == st;
      FirstSegment(st);
      assert ("/" + Join(st))[1] != '/';
    } else {
      JoinConcat(base, st);
    }
  }

  /**
   * The second check adds nothing, except that it refuses everything but the root itself when the root
   * is "/": SafeJoin succeeds exactly when the first checks pass and not that.
   */
  lemma SecondCheckIsRedundantIff(cwd: string, root: string, rel: string)
    requires Rooted(cwd)
    ensures SafeJoin(cwd, root, rel).Inside?
      <==> LooksInside(CleanRel(rel)) && (Abs(cwd, root) != "/" || CleanRel(rel) == DOT)
  {
    if LooksInside(CleanRel(rel)) {
      JoinExtendsRoot(cwd, root, rel);
      InsideIff(RootSegments(From(cwd, root)), Segments(TrimSlash(rel)));
      DotIff(TrimSlash(rel));
      SlashIff(From(cwd, root));
    }
  }

  lemma DotIff(s: string)
    requires s != [] && !Rooted(s)
    ensures Clean(s) == DOT <==> Segments(s) == []
  {
    CleanRelative(s);
    if Segments(s) != [] {
      assert Split(Clean(s))[0] == Segments(s)[0];
      SplitPlain(DOT);
    }
  }

  lemma SlashIff(root: string)
    requires Rooted(root)
    ensures Clean(root) == "/" <==> RootSegments(root) == []
  {
    NormalOf(true, root);
    if RootSegments(root) != [] {
      FirstSegment(RootSegments(root));
    }
  }

  /** What SafeJoin returns lies under the root, segment by segment. */
  lemma SafeJoinStaysUnderRoot(cwd: string, root: string, rel: string)
    requires Rooted(cwd) && SafeJoin(cwd, root, rel).Inside?
    ensures var full := Abs(cwd, SafeJoin(cwd, root, rel).full);
            && RootSegments(Abs(cwd, root)) <= RootSegments(full)
            && forall n | n in RootSegments(full) :: Name(n)
  {
    JoinExtendsRoot(cwd, root, rel);
    NormalOf(true, From(cwd, root));
    CleanRooted(RootSegments(From(cwd, root)));
    CleanRooted(RootSegments(From(cwd, root)) + Segments(TrimSlash(rel)));
  }

  /**
   * Cleaning again changes nothing, except for a path that began with two slashes: only one is trimmed,
   * the result still begins with one, and cleaning it again gives another path.
   */
  lemma CleanRelIdempotentIff(rel: string)
    ensures CleanRel(CleanRel(rel)) == CleanRel(rel) <==> !Rooted(TrimSlash(rel))
  {
    var r := TrimSlash(rel);
    if r != [] && !Rooted(r) {
      CleanRelative(r);
      var st := Segments(r);
      NormIdempotent(false, st);
      if st == [] {
        SplitPlain(DOT);
        assert [DOT][..0] == [];
      }
    } else if Rooted(r) {
      NormalOf(true, r);
      var st := RootSegments(r);
      assert TrimSlash("/" + Join(st)) == Join(st);
      if st != [] {
        FirstSegment(st);
        CleanRelative(Join(st));
      }
    }
  }
}
