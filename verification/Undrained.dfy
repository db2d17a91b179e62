/**
 * What a connection left undrained does to the downloads after it. One attempt fails to open its partial
 * file and keeps the connection with the rest of the answer on it; the worker goes on, each path being
 * tried up to the retry count, and every attempt adds an answer of its own behind what is unread.
 */
module Undrained {
  import opened Basics
  import opened Frames
  import opened Serving
  import opened Resume
  import opened GetRules
  import opened Download

  // ---- Whose turn it is ----

  /** The path an attempt is for, numbered in the order the worker takes them, and the failed tries before it. */
  datatype Turn = Turn(path: nat, tries: nat)

  /** The turn after this one: the next path after a success or when the tries are used up. */
  function Next(turn: Turn, ok: bool, retries: nat): Turn {
    if ok || turn.tries + 1 >= retries then Turn(turn.path + 1, 0) else Turn(turn.path, turn.tries + 1)
  }

  /** Attempt t's turn, when the attempts up to number `left` fail and the later ones succeed. */
  function TurnAt(t: nat, left: nat, retries: nat): Turn {
    if t == 0 then Turn(0, 0) else Next(TurnAt(t - 1, left, retries), t - 1 > left, retries)
  }

  lemma {:induction false} TurnsAdvance(s: nat, t: nat, left: nat, retries: nat)
    requires s <= t
    ensures TurnAt(s, left, retries).path <= TurnAt(t, left, retries).path
  {
    if s < t {
      TurnsAdvance(s, t - 1, left, retries);
    }
  }

  /** As long as the attempts fail, the first path is left exactly when its tries are used up. */
  lemma {:induction false} FirstPathUntil(t: nat, left: nat, retries: nat)
    requires retries > 0 && t <= left + 1
    ensures TurnAt(t, left, retries).path == 0 <==> t < retries
    ensures t < retries ==> TurnAt(t, left, retries).tries == t
    ensures retries == 1 ==> TurnAt(t, left, retries).path == t
  {
    if t > 0 {
      FirstPathUntil(t - 1, left, retries);
    }
  }

  /**
   * Attempt t stores what was asked for in attempt t - left. That is another path for every attempt after
   * the first success, and for the first success itself exactly when the retries ended before it.
   */
  lemma OtherPathIff(t: nat, left: nat, retries: nat)
    requires retries > 0 && left > 0 && t > left
    ensures TurnAt(t - left, left, retries).path != TurnAt(t, left, retries).path
            <==> t > left + 1 || retries <= left + 1
  {
    if t > left + 1 {
      TurnsAdvance(t - left, t - 1, left, retries);
    } else {
      FirstPathUntil(1, left, retries);
      FirstPathUntil(t, left, retries);
    }
  }

  // ---- The connection ----

  /** Some frames behind each other. */
  function Join(answers: seq<seq<Frame>>): seq<Frame> {
    if answers == [] then [] else answers[0] + Join(answers[1..])
  }

  lemma {:induction false} JoinAppend(answers: seq<seq<Frame>>, last: seq<Frame>)
    ensures Join(answers + [last]) == Join(answers) + last
  {
    if answers == [] {
      assert [last][1..] == [];
    } else {
      assert (answers + [last])[1..] == answers[1..] + [last];
      JoinAppend(answers[1..], last);
      assert answers[0] + (Join(answers[1..]) + last) == answers[0] + Join(answers[1..]) + last;
    }
  }

  /**
   * A whole answer at the front, whoever asked for it: with nothing saved, the download succeeds on it and
   * leaves what is behind it.
   */
  lemma OneBehind(b: Files, x: Version, xs: seq<Frame>, ys: seq<Frame>, tol: int)
    requires Saved(b) == [] && WholeAnswer(xs, x, 0)
    ensures Succeeds(b, xs + ys, NO_FAULTS, tol) && Saved(b) + Payload((xs + ys)[1..]) == x.content
    ensures (xs + ys)[1..][DataRun((xs + ys)[1..]) + 1..] == ys
  {
    var n := DataRun(xs[1..]);
    assert (xs + ys)[1..] == xs[1..] + ys;
    RunIs(xs[1..] + ys, n);
    CarriedAgrees(xs[1..], xs[1..] + ys, n);
    assert x.content[0..] == x.content;
  }

  /** What is unread after attempt t: the rest of the first answer xs, then the answers asked for since. */
  function Unread(xs: seq<Frame>, answers: seq<seq<Frame>>, t: nat): seq<Frame>
    requires |answers| == t && xs != []
  {
    if t < |xs| then xs[t + 1..] + Join(answers) else Join(answers[t + 1 - |xs|..])
  }

  /** The next frame unread in attempt t is frame t of the first answer. */
  lemma NextIsJunk(xs: seq<Frame>, answers: seq<seq<Frame>>, t: nat, own: seq<Frame>)
    requires |answers| + 1 == t < |xs|
    ensures Unread(xs, answers, t - 1) + own == [xs[t]] + Unread(xs, answers + [own], t)
  {
    JoinAppend(answers, own);
    var j := Join(answers);
    assert xs[t..] + j + own == [xs[t]] + (xs[t + 1..] + (j + own));
  }

  /** The frames unread in attempt t begin with the answer asked for as many attempts earlier as frames were left. */
  lemma NextIsAnswer(xs: seq<Frame>, answers: seq<seq<Frame>>, t: nat, own: seq<Frame>)
    requires |answers| + 1 == t >= |xs| > 0
    ensures Unread(xs, answers, t - 1) + own == (answers + [own])[t - |xs|] + Unread(xs, answers + [own], t)
  {
    var queue := answers[t - |xs|..];
    JoinAppend(queue, own);
    assert (answers + [own])[t - |xs|..] == queue + [own];
    assert (queue + [own])[1..] == (answers + [own])[t + 1 - |xs|..];
    assert (queue + [own])[0] == (answers + [own])[t - |xs|];
    assert xs[|xs|..] + Join(queue) == Join(queue);
  }

  /** Each answer is the whole one of the version asked for. */
  ghost predicate AllWhole(answers: seq<seq<Frame>>, asked: seq<Version>) {
    |answers| == |asked| && forall k | 0 <= k < |answers| :: WholeAnswer(answers[k], asked[k], 0)
  }

  /** The attempt that starts it: the announcement is read, the partial file cannot be opened, the rest stays. */
  method FailToOpen(m: Manager, x: Version, xs: seq<Frame>)
    requires WholeAnswer(xs, x, 0) && m.inbox == [] && m.files == Files(None, None, None)
    modifies m
    ensures m.inbox == xs[1..] && Saved(m.files) == []
  {
    assert m.inbox + xs == xs;
    var r := m.Fetch(xs, NO_FAULTS.(open := true), x);
  }

  /** What is next on a connection: a frame no attempt can begin with, or the whole answer for a version. */
  predicate IsNext(front: seq<Frame>, v: Option<Version>) {
    if v.Some? then WholeAnswer(front, v.value, 0) else |front| == 1 && !front[0].GetResp? && !front[0].Error?
  }

  /** An attempt in which nothing fails, for a file of which nothing is saved: it takes what is next. */
  method TakeNext(m: Manager, w: Version, own: seq<Frame>, ghost v: Option<Version>, ghost front: seq<Frame>,
                  ghost rest: seq<Frame>)
    returns (r: Outcome)
    requires m.inbox + own == front + rest && IsNext(front, v) && Saved(m.files) == []
    modifies m
    ensures (r.ok <==> v.Some?) && m.inbox == rest && Saved(m.files) == []
    ensures if r.ok then m.done && m.index == Some(MetaOf(v.value)) && m.files.target == Some(v.value.content)
            else m.files == old(m.files) && !r.dropConn
  {
    assert (front + rest)[0] == front[0] && (|front| == 1 ==> (front + rest)[1..] == rest);
    if v.Some? {
      OneBehind(m.files, v.value, front, rest, m.tolerance);
    }
    r := m.Fetch(own, NO_FAULTS, w);
  }

  /** Attempt t, in which nothing fails any more, for a file of which nothing is saved. */
  method Attempt(m: Manager, ghost x: Version, ghost xs: seq<Frame>, ghost t: nat, w: Version, own: seq<Frame>,
                 ghost answers: seq<seq<Frame>>, ghost asked: seq<Version>)
    returns (r: Outcome)
    requires WholeAnswer(xs, x, 0) && WholeAnswer(own, w, 0) && AllWhole(answers, asked) && |answers| + 1 == t
    requires m.inbox == Unread(xs, answers, t - 1) && Saved(m.files) == []
    modifies m
    ensures m.inbox == Unread(xs, answers + [own], t) && (r.ok <==> t >= |xs|) && Saved(m.files) == []
    ensures r.ok ==> var v := (asked + [w])[t - |xs|];
                     m.done && m.index == Some(MetaOf(v)) && m.files.target == Some(v.content)
  {
    ghost var v, front := None, [];
    if t < |xs| {
      NextIsJunk(xs, answers, t, own);
      front := [xs[t]];
    } else {
      NextIsAnswer(xs, answers, t, own);
      v, front := Some((asked + [w])[t - |xs|]), (answers + [own])[t - |xs|];
    }
    r := TakeNext(m, w, own, v, front, Unread(xs, answers + [own], t));
  }

  /** What attempt t stores: nothing, or the content asked for `left` attempts earlier. */
  function Astray(t: nat, left: nat, turns: nat -> Turn, versions: nat -> Version): Option<Bytes> {
    if t <= left then None else Some(versions(turns(t - left).path).content)
  }

  /** The versions asked for in the attempts from the first retry on. */
  ghost predicate AskedInTurn(asked: seq<Version>, turns: nat -> Turn, versions: nat -> Version) {
    forall k | 0 <= k < |asked| :: asked[k] == versions(turns(k + 1).path)
  }

  lemma AskedNext(answers: seq<seq<Frame>>, asked: seq<Version>, own: seq<Frame>, w: Version, turns: nat -> Turn,
                  versions: nat -> Version)
    requires AllWhole(answers, asked) && AskedInTurn(asked, turns, versions)
    requires WholeAnswer(own, w, 0) && w == versions(turns(|asked| + 1).path)
    ensures AllWhole(answers + [own], asked + [w]) && AskedInTurn(asked + [w], turns, versions)
  {
  }

  /** Attempt after attempt has stored what Astray says. */
  ghost predicate StoredInTurn(stored: seq<Option<Bytes>>, left: nat, turns: nat -> Turn, versions: nat -> Version) {
    forall t | 0 <= t < |stored| :: stored[t] == Astray(t, left, turns, versions)
  }

  /** Attempt t succeeds exactly from number `first` on, and the turns pass accordingly. */
  predicate Advances(turns: nat -> Turn, t: nat, first: nat, retries: nat) {
    turns(t + 1) == Next(turns(t), t >= first, retries)
  }

  /** The worker's connection, the disk for its path, and what it has asked for behind the first attempt. */
  ghost predicate Behind(m: Manager, xs: seq<Frame>, answers: seq<seq<Frame>>, asked: seq<Version>,
                         turns: nat -> Turn, versions: nat -> Version)
    requires xs != []
    reads m
  {
    && m.inbox == Unread(xs, answers, |answers|) && Saved(m.files) == []
    && AllWhole(answers, asked) && AskedInTurn(asked, turns, versions)
  }

  lemma BehindFirst(m: Manager, xs: seq<Frame>, turns: nat -> Turn, versions: nat -> Version)
    requires xs != [] && m.inbox == xs[1..] && Saved(m.files) == []
    ensures Behind(m, xs, [], [], turns, versions)
  {
    assert xs[1..] + [] == xs[1..];
  }

  /** The next attempt of the run, and whose turn it is then; the next path starts with an empty disk. */
  method Round(m: Manager, ghost x: Version, ghost xs: seq<Frame>, turn: Turn, retries: nat, versions: nat -> Version,
               chunk: nat,
               ghost turns: nat -> Turn, ghost answers: seq<seq<Frame>>, ghost asked: seq<Version>)
    returns (content: Option<Bytes>, next: Turn, ghost own: seq<Frame>)
    requires chunk > 0 && WholeAnswer(xs, x, 0) && turn == turns(|answers| + 1)
    requires Behind(m, xs, answers, asked, turns, versions) && Advances(turns, |answers| + 1, |xs|, retries)
    modifies m
    ensures Behind(m, xs, answers + [own], asked + [versions(turn.path)], turns, versions)
    ensures next == turns(|answers| + 2) && content == Astray(|answers| + 1, |xs| - 1, turns, versions)
  {
    var w := versions(turn.path);
    var sent := SendWhole(w, 0, chunk);
    own := sent;
    AskedNext(answers, asked, own, w, turns, versions);
    var r := Attempt(m, x, xs, |answers| + 1, w, sent, answers, asked);
    content := if r.ok then m.files.target else None;
    next := Next(turn, r.ok, retries);
    if next.path != turn.path {
      m.files, m.index, m.done := Files(None, None, None), None, false;
    }
  }

  lemma StoredNext(stored: seq<Option<Bytes>>, left: nat, turns: nat -> Turn, versions: nat -> Version)
    requires StoredInTurn(stored, left, turns, versions)
    ensures StoredInTurn(stored + [Astray(|stored|, left, turns, versions)], left, turns, versions)
  {
  }

  /** The attempts behind the first one, whose answer xs was left unread. */
  method GoOn(m: Manager, ghost x: Version, ghost xs: seq<Frame>, retries: nat, versions: nat -> Version, chunk: nat,
              attempts: nat,
              ghost turns: nat -> Turn)
    returns (stored: seq<Option<Bytes>>)
    requires chunk > 0 && WholeAnswer(xs, x, 0) && m.inbox == xs[1..] && Saved(m.files) == []
    requires turns(0) == Turn(0, 0) && forall t: nat :: Advances(turns, t, |xs|, retries)
    modifies m
    ensures |stored| == attempts + 1 && StoredInTurn(stored, |xs| - 1, turns, versions)
  {
    stored := [None];
    var turn := Next(Turn(0, 0), false, retries);
    assert Advances(turns, 0, |xs|, retries);
    ghost var answers: seq<seq<Frame>>, asked: seq<Version> := [], [];
    BehindFirst(m, xs, turns, versions);
    for t := 1 to attempts + 1
      invariant |stored| == t == |answers| + 1 && turn == turns(t)
      invariant Behind(m, xs, answers, asked, turns, versions) && StoredInTurn(stored, |xs| - 1, turns, versions)
    {
      StoredNext(stored, |xs| - 1, turns, versions);
      ghost var own, w := [], versions(turn.path);
      var content, next;
      content, next, own := Round(m, x, xs, turn, retries, versions, chunk, turns, answers, asked);
      answers, asked := answers + [own], asked + [w];
      stored, turn := stored + [content], next;
    }
  }

  /**
   * How content goes astray, for any retry count and any files: after one failure to open a partial file,
   * as many attempts fail as that answer had frames left, and from then on attempt t stores, indexes and
   * marks done the content asked for in attempt t - left. See OtherPathIff for when that is another path.
   */
  method WrongContentStored(tol: int, retries: nat, versions: nat -> Version, chunk: nat, attempts: nat)
    returns (stored: seq<Option<Bytes>>, left: nat)
    requires chunk > 0 && retries > 0
    ensures left > 0 && |stored| == attempts + 1
    ensures forall t | 0 <= t <= attempts ::
              stored[t] == if t <= left then None else Some(versions(TurnAt(t - left, left, retries).path).content)
  {
    var m := new Manager(tol, Files(None, None, None));
    var xs := SendWhole(versions(0), 0, chunk);
    FailToOpen(m, versions(0), xs);
    left := |xs| - 1;
    stored := GoOn(m, versions(0), xs, retries, versions, chunk, attempts, (k: nat) => TurnAt(k, left, retries));
  }
}
