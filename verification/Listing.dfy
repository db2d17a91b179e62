/**
 * The client listing: the walk and its batches on the client, the streamed load on the server. The
 * file tree is a value; directories that cannot be read and files that cannot be examined are part of
 * it, since the walk passes over them in silence.
 */
module Listing {
  import opened Basics
  import opened Tables
  import Cycle
  import Paths

  /** `rel` is the path below the backup directory; what a directory holds is in walk order. */
  datatype Node =
    | File(rel: string, size: nat, mtime: int, regular: bool, examined: bool)
    | Link(rel: string)
    | Dir(rel: string, readable: bool, children: seq<Node>)

  datatype Entry = Entry(path: string, size: nat, mtime: int)

  /** The masks, as what they decide: which files are included, which directories are cut off. */
  datatype Filter = Filter(included: string -> bool, prunes: string -> bool)

  datatype ListFrame = Batch(last: bool, entries: seq<Entry>) | Error | Other

  // ---- What is listed ----

  function EntryOf(f: Node): Entry
    requires f.File?
  {
    Entry(Paths.CleanRel(f.rel), f.size, f.mtime)
  }

  /** The entries a walk of the node yields, in walk order. */
  function Emitted(node: Node, filter: Filter): seq<Entry> {
    match node
    case File(rel, size, mtime, regular, examined) =>
      if regular && filter.included(rel) && examined then [EntryOf(node)] else []
    case Link(_) => []
    case Dir(rel, readable, children) =>
      if (rel != "." && filter.prunes(rel)) || !readable then [] else EmittedAll(children, filter)
  }

  function EmittedAll(nodes: seq<Node>, filter: Filter): seq<Entry> {
    if nodes == [] then [] else Emitted(nodes[0], filter) + EmittedAll(nodes[1..], filter)
  }

  /** The file can be come to: it lies in the node, below directories that can be read and are not cut off. */
  predicate Reached(node: Node, filter: Filter, f: Node) {
    match node
    case File(_, _, _, _, _) => f == node
    case Link(_) => false
    case Dir(rel, readable, children) =>
      readable && (rel == "." || !filter.prunes(rel)) && ReachedAny(children, filter, f)
  }

  predicate ReachedAny(nodes: seq<Node>, filter: Filter, f: Node) {
    nodes != [] && (Reached(nodes[0], filter, f) || ReachedAny(nodes[1..], filter, f))
  }

  /** What is listed of a file: a regular, included one that could be examined, by its cleaned path, size and time. */
  predicate Lists(f: Node, filter: Filter, e: Entry) {
    && f.File? && f.regular && f.examined && filter.included(f.rel)
    && e.path == Paths.CleanRel(f.rel) && e.size == f.size && e.mtime == f.mtime
  }

  ghost predicate IsListed(root: Node, filter: Filter, e: Entry) {
    exists f :: Reached(root, filter, f) && Lists(f, filter, e)
  }

  /** The walk lists exactly the regular, included, examined files it can come to, as they are. */
  lemma {:induction false} EmittedIff(node: Node, filter: Filter, e: Entry)
    ensures e in Emitted(node, filter) <==> IsListed(node, filter, e)
    decreases node, 1
  {
    match node
    case File(_, _, _, _, _) =>
      if e in Emitted(node, filter) {
        assert Reached(node, filter, node) && Lists(node, filter, e);
      }
    case Link(_) =>
    case Dir(rel, readable, children) =>
      if readable && (rel == "." || !filter.prunes(rel)) {
        EmittedAllIff(children, filter, e);
        if f :| ReachedAny(children, filter, f) && Lists(f, filter, e) {
          assert Reached(node, filter, f);
        }
        if IsListed(node, filter, e) {
          var f :| Reached(node, filter, f) && Lists(f, filter, e);
          assert ReachedAny(children, filter, f);
        }
      }
  }

  lemma {:induction false} EmittedAllIff(nodes: seq<Node>, filter: Filter, e: Entry)
    ensures e in EmittedAll(nodes, filter) <==> exists f :: ReachedAny(nodes, filter, f) && Lists(f, filter, e)
    decreases nodes, 0
  {
    if nodes != [] {
      EmittedIff(nodes[0], filter, e);
      EmittedAllIff(nodes[1..], filter, e);
      if f :| Reached(nodes[0], filter, f) && Lists(f, filter, e) {
        assert ReachedAny(nodes, filter, f);
      }
      if f :| ReachedAny(nodes[1..], filter, f) && Lists(f, filter, e) {
        assert ReachedAny(nodes, filter, f);
      }
      if f :| ReachedAny(nodes, filter, f) && Lists(f, filter, e) {
        assert Reached(nodes[0], filter, f) || ReachedAny(nodes[1..], filter, f);
      }
    }
  }

  /** The file is somewhere in the tree. */
  predicate InTree(node: Node, f: Node) {
    match node
    case File(_, _, _, _, _) => f == node
    case Link(_) => false
    case Dir(_, _, children) => InTrees(children, f)
  }

  predicate InTrees(nodes: seq<Node>, f: Node) {
    nodes != [] && (InTree(nodes[0], f) || InTrees(nodes[1..], f))
  }

  lemma {:induction false} ReachedIsThere(node: Node, filter: Filter, f: Node)
    requires Reached(node, filter, f)
    ensures InTree(node, f)
    decreases node, 1
  {
    if node.Dir? {
      ReachedAnyIsThere(node.children, filter, f);
    }
  }

  lemma {:induction false} ReachedAnyIsThere(nodes: seq<Node>, filter: Filter, f: Node)
    requires ReachedAny(nodes, filter, f)
    ensures InTrees(nodes, f)
    decreases nodes, 0
  {
    if Reached(nodes[0], filter, f) {
      ReachedIsThere(nodes[0], filter, f);
    } else {
      ReachedAnyIsThere(nodes[1..], filter, f);
    }
  }

  /** The entries there would be if everything could be read. */
  function Wanted(node: Node, filter: Filter): seq<Entry> {
    match node
    case File(rel, size, mtime, regular, examined) => if regular && filter.included(rel) then [EntryOf(node)] else []
    case Link(_) => []
    case Dir(rel, readable, children) => if rel != "." && filter.prunes(rel) then [] else WantedAll(children, filter)
  }

  function WantedAll(nodes: seq<Node>, filter: Filter): seq<Entry> {
    if nodes == [] then [] else Wanted(nodes[0], filter) + WantedAll(nodes[1..], filter)
  }

  /** Something the walk could not read hides an included file. */
  predicate Hides(node: Node, filter: Filter) {
    match node
    case File(rel, size, mtime, regular, examined) => regular && filter.included(rel) && !examined
    case Link(_) => false
    case Dir(rel, readable, children) =>
      !(rel != "." && filter.prunes(rel)) && if readable then HidesAny(children, filter) else Wanted(node, filter) != []
  }

  predicate HidesAny(nodes: seq<Node>, filter: Filter) {
    nodes != [] && (Hides(nodes[0], filter) || HidesAny(nodes[1..], filter))
  }

  /** The listing is complete exactly when nothing unreadable hides an included file; it never has more. */
  lemma {:induction false} ListingCompleteIff(node: Node, filter: Filter)
    ensures |Emitted(node, filter)| <= |Wanted(node, filter)|
    ensures Emitted(node, filter) == Wanted(node, filter) <==> !Hides(node, filter)
    ensures Hides(node, filter) ==> |Emitted(node, filter)| < |Wanted(node, filter)|
    decreases node, 1
  {
    if node.Dir? && node.readable {
      ListingsCompleteIff(node.children, filter);
    }
  }

  lemma {:induction false} ListingsCompleteIff(nodes: seq<Node>, filter: Filter)
    ensures |EmittedAll(nodes, filter)| <= |WantedAll(nodes, filter)|
    ensures EmittedAll(nodes, filter) == WantedAll(nodes, filter) <==> !HidesAny(nodes, filter)
    ensures HidesAny(nodes, filter) ==> |EmittedAll(nodes, filter)| < |WantedAll(nodes, filter)|
    decreases nodes, 0
  {
    if nodes != [] {
      ListingCompleteIff(nodes[0], filter);
      ListingsCompleteIff(nodes[1..], filter);
    }
  }

  // ---- Sending ----

  function Entries(batches: seq<ListFrame>): seq<Entry> {
    if batches == [] then []
    else
      var last := batches[|batches| - 1];
      Entries(batches[..|batches| - 1]) + if last.Batch? then last.entries else []
  }

  /** Full batches that are not the last. */
  predicate FullBatches(batches: seq<ListFrame>, limit: nat) {
    forall i | 0 <= i < |batches| :: batches[i].Batch? && !batches[i].last && |batches[i].entries| == limit
  }

  class Scanner {
    const limit: nat
    const filter: Filter
    var batch: seq<Entry>
    var sent: seq<ListFrame>

    constructor (limit: nat, filter: Filter)
      ensures this.limit == limit && this.filter == filter && batch == [] && sent == []
    {
      this.limit, this.filter, batch, sent := limit, filter, [], [];
    }

    ghost predicate Valid()
      reads this
    {
      limit > 0 && |batch| < limit && FullBatches(sent, limit)
    }

    method Flush(last: bool)
      modifies this
      ensures batch == [] && sent == old(sent) + [Batch(last, old(batch))]
      ensures Entries(sent) == Entries(old(sent)) + old(batch)
    {
      assert (sent + [Batch(last, batch)])[..|sent|] == sent;
      sent := sent + [Batch(last, batch)];
      batch := [];
    }

    method Add(e: Entry)
      requires Valid()
      modifies this
      ensures Valid() && Entries(sent) + batch == Entries(old(sent)) + old(batch) + [e]
    {
      batch := batch + [e];
      if |batch| >= limit {
        Flush(false);
      }
    }

    /** The walk: entries go to the buffer, full buffers are sent. */
    method Walk(node: Node)
      requires Valid()
      modifies this
      ensures Valid() && Entries(sent) + batch == Entries(old(sent)) + old(batch) + Emitted(node, filter)
      decreases node
    {
      match node
      case Link(_) =>
      case File(rel, size, mtime, regular, examined) =>
        if regular && filter.included(rel) && examined {
          Add(Entry(Paths.CleanRel(rel), size, mtime));
        }
      case Dir(rel, readable, children) =>
        if rel != "." && filter.prunes(rel) {
          return;
        }
        if !readable {
          return;
        }
        ghost var before := Entries(sent) + batch;
        assert children[0..] == children;
        for i := 0 to |children|
          invariant Valid() && Entries(sent) + batch + EmittedAll(children[i..], filter)
                    == before + EmittedAll(children, filter)
        {
          ghost var here := Entries(sent) + batch;
          assert children[i..][0] == children[i] && children[i..][1..] == children[i + 1..];
          Walk(children[i]);
          Regroup(here, Emitted(children[i], filter), EmittedAll(children[i + 1..], filter));
        }
    }

    /**
     * handleList: whatever the batch limit, the batches together are the walk's entries in order, all
     * but the last are full, and exactly the last one is marked last.
     */
    method HandleList(root: Node)
      requires Valid() && batch == [] && sent == []
      modifies this
      ensures Entries(sent) == Emitted(root, filter) && |sent| > 0
      ensures forall e :: e in Entries(sent) <==> IsListed(root, filter, e)
      ensures FullBatches(sent[..|sent| - 1], limit) && sent[|sent| - 1].Batch? && sent[|sent| - 1].last
      ensures |sent[|sent| - 1].entries| < limit
    {
      forall e
        ensures e in Emitted(root, filter) <==> IsListed(root, filter, e)
      {
        EmittedIff(root, filter, e);
      }
      Walk(root);
      ghost var full := sent;
      Flush(true);
      assert sent[..|sent| - 1] == full;
    }
  }

  lemma Regroup(a: seq<Entry>, b: seq<Entry>, c: seq<Entry>)
    ensures a + b + c == a + (b + c)
  {
  }

  // ---- Loading ----

  /** The row loadList adds for an entry, if it has a path. */
  function RowFor(e: Entry, lower: string -> string): Option<ClientRow> {
    var rel := Paths.CleanRel(e.path);
    if rel == [] then None else Some(ClientRow(rel, lower(Paths.CleanRel(rel)), e.size, e.mtime))
  }

  function RowsOf(entries: seq<Entry>, lower: string -> string): seq<ClientRow> {
    if entries == [] then []
    else
      var row := RowFor(entries[|entries| - 1], lower);
      RowsOf(entries[..|entries| - 1], lower) + if row.Some? then [row.value] else []
  }

  /** The rows are those of the entries that have a path: cleaned once more, with the key of what that gives. */
  lemma {:induction false} RowsMembers(entries: seq<Entry>, lower: string -> string, c: ClientRow)
    ensures c in RowsOf(entries, lower)
      <==> exists e :: && e in entries && Paths.CleanRel(e.path) != [] && c.rel == Paths.CleanRel(e.path)
                       && c.key == lower(Paths.CleanRel(c.rel)) && c.size == e.size && c.mtime == e.mtime
  {
    if entries != [] {
      var n := |entries| - 1;
      RowsMembers(entries[..n], lower, c);
      assert entries == entries[..n] + [entries[n]];
    }
  }

  /** NormKey. */
  function NormKey(lower: string -> string): string -> string {
    (rel: string) => lower(Paths.CleanRel(rel))
  }

  /** The source holds the tree's regular files, by their cleaned paths, which are relative. */
  ghost predicate IsSourceOf(source: Cycle.Source, root: Node) {
    forall f | InTree(root, f) && f.File? && f.regular ::
      && !Paths.Rooted(f.rel) && Paths.CleanRel(f.rel) in source
      && source[Paths.CleanRel(f.rel)] == Cycle.SourceFile(f.size, f.mtime)
  }

  /** What a walk of the tree lists is honest about it. */
  lemma RowsAreHonest(root: Node, filter: Filter, lower: string -> string, source: Cycle.Source)
    requires IsSourceOf(source, root)
    ensures Cycle.Honest(RowsOf(Emitted(root, filter), lower), source, NormKey(lower))
  {
    var rows := RowsOf(Emitted(root, filter), lower);
    forall c | c in rows
      ensures c.rel in source && source[c.rel] == Cycle.SourceFile(c.size, c.mtime) && c.key == NormKey(lower)(c.rel)
    {
      RowsMembers(Emitted(root, filter), lower, c);
      var e :| e in Emitted(root, filter) && c.rel == Paths.CleanRel(e.path) && c.size == e.size && c.mtime == e.mtime;
      EmittedIff(root, filter, e);
      var f :| Reached(root, filter, f) && Lists(f, filter, e);
      ReachedIsThere(root, filter, f);
      Paths.CleanRelIdempotentIff(f.rel);
    }
  }

  /** client_files and the open transaction of its writer, which commits every `txRows` rows. */
  class ClientFiles {
    const txRows: nat
    const lower: string -> string
    var committed: seq<ClientRow>
    var pending: seq<ClientRow>
    var n: nat

    ghost function Rows(): seq<ClientRow>
      reads this
    {
      committed + pending
    }

    /** ResetClientFiles and BeginClientFiles. */
    method Begin()
      modifies this
      ensures committed == [] && pending == [] && n == 0
    {
      committed, pending, n := [], [], 0;
    }

    /** ClientWriter.Commit. */
    method Commit(fails: bool) returns (ok: bool)
      modifies this
      ensures ok == !fails && (ok ==> committed == old(Rows()))
    {
      if fails {
        return false;
      }
      committed, pending := committed + pending, [];
      return true;
    }

    /** ClientWriter.Add, whose insert or commit may fail. */
    method Add(row: ClientRow, insertFails: bool, commitFails: bool) returns (ok: bool)
      requires txRows > 0
      modifies this
      ensures ok ==> Rows() == old(Rows()) + [row] && n == old(n) + 1
      ensures !insertFails && !commitFails ==> ok
      ensures old(committed) <= committed
    {
      if insertFails {
        return false;
      }
      pending := pending + [row];
      n := n + 1;
      if n % txRows == 0 {
        if commitFails {
          return false;
        }
        assert committed + pending == old(Rows()) + [row];
        committed, pending := committed + pending, [];
      }
      return true;
    }
  }

  /** The batches up to and including the first marked last, if they arrive without anything else before it. */
  function Through(frames: seq<ListFrame>): (k: Option<nat>)
    ensures k.Some? ==> && 0 < k.value <= |frames| && frames[k.value - 1].Batch? && frames[k.value - 1].last
                        && forall j | 0 <= j < k.value - 1 :: frames[j].Batch? && !frames[j].last
    ensures k.None? ==> forall j | 0 <= j < |frames| && frames[j].Batch? && frames[j].last ::
                          exists i | 0 <= i < j :: !frames[i].Batch?
    decreases |frames|
  {
    if frames == [] || !frames[0].Batch? then None
    else if frames[0].last then Some(1)
    else
      match Through(frames[1..])
      case None => None
      case Some(k) => Some(k + 1)
  }

  lemma RowsAppend(a: seq<Entry>, e: Entry, lower: string -> string)
    ensures RowsOf(a + [e], lower) == RowsOf(a, lower) + if RowFor(e, lower).Some? then [RowFor(e, lower).value] else []
  {
  }

  /** One entry of a batch; entries without a path are passed over. */
  method LoadEntry(t: ClientFiles, e: Entry, insertFails: bool, commitFails: bool) returns (ok: bool)
    requires t.txRows > 0
    modifies t
    ensures ok ==> t.Rows() == old(t.Rows()) + if RowFor(e, t.lower).Some? then [RowFor(e, t.lower).value] else []
    ensures !insertFails && !commitFails ==> ok
  {
    var rel := Paths.CleanRel(e.path);
    if rel == [] {
      assert t.Rows() + [] == t.Rows();
      return true;
    }
    ok := t.Add(ClientRow(rel, t.lower(Paths.CleanRel(rel)), e.size, e.mtime), insertFails, commitFails);
  }

  ghost predicate StoreWorks(insertFails: nat -> bool, commitFails: nat -> bool) {
    forall i :: !insertFails(i) && !commitFails(i)
  }

  /** The rows of one batch, added behind those of the entries before it. */
  method LoadBatch(t: ClientFiles, ghost before: seq<Entry>, entries: seq<Entry>, insertFails: nat -> bool,
                   commitFails: nat -> bool)
    returns (ok: bool)
    requires t.txRows > 0 && t.Rows() == RowsOf(before, t.lower)
    modifies t
    ensures ok ==> t.Rows() == RowsOf(before + entries, t.lower)
    ensures StoreWorks(insertFails, commitFails) ==> ok
  {
    WholeBatch(before, entries);
    for i := 0 to |entries|
      invariant t.Rows() == RowsOf(before + entries[..i], t.lower)
    {
      RowsNext(before, entries, i, t.lower);
      var added := LoadEntry(t, entries[i], insertFails(t.n), commitFails(t.n));
      if !added {
        return false;
      }
    }
    return true;
  }

  lemma WholeBatch(before: seq<Entry>, entries: seq<Entry>)
    ensures before + entries[..0] == before && before + entries[..|entries|] == before + entries
  {
  }

  lemma RowsNext(before: seq<Entry>, entries: seq<Entry>, i: nat, lower: string -> string)
    requires i < |entries|
    ensures RowsOf(before + entries[..i + 1], lower) == RowsOf(before + entries[..i], lower)
      + if RowFor(entries[i], lower).Some? then [RowFor(entries[i], lower).value] else []
  {
    assert before + entries[..i + 1] == before + entries[..i] + [entries[i]];
    RowsAppend(before + entries[..i], entries[i], lower);
  }

  lemma EntriesNext(frames: seq<ListFrame>, i: nat)
    requires i < |frames|
    ensures Entries(frames[..i + 1]) == Entries(frames[..i]) + if frames[i].Batch? then frames[i].entries else []
  {
    assert frames[..i + 1] == frames[..i] + [frames[i]];
    EntriesAppend(frames[..i], frames[i]);
  }

  /** Where the load of the frames from i on ends, counted from the first. */
  function ThroughFrom(frames: seq<ListFrame>, i: nat): Option<nat>
    requires i <= |frames|
  {
    match Through(frames[i..])
    case None => None
    case Some(k) => Some(i + k)
  }

  lemma ThroughNext(frames: seq<ListFrame>, i: nat)
    requires i < |frames|
    ensures ThroughFrom(frames, i) ==
      if !frames[i].Batch? then None else if frames[i].last then Some(i + 1) else ThroughFrom(frames, i + 1)
  {
  }

  /**
   * loadList. It succeeds only if a batch marked last has arrived and all is committed; then the table
   * holds the rows of every entry up to it in order, whatever the batches and transactions.
   */
  method LoadList(t: ClientFiles, frames: seq<ListFrame>, insertFails: nat -> bool, commitFails: nat -> bool,
                  finalFails: bool)
    returns (ok: bool)
    requires t.txRows > 0
    modifies t
    ensures ok ==> Through(frames).Some? && t.committed == RowsOf(Entries(frames[..Through(frames).value]), t.lower)
    ensures StoreWorks(insertFails, commitFails) && !finalFails ==> (ok <==> Through(frames).Some?)
  {
    t.Begin();
    assert frames[0..] == frames;
    for i := 0 to |frames|
      invariant t.Rows() == RowsOf(Entries(frames[..i]), t.lower) && Through(frames) == ThroughFrom(frames, i)
    {
      EntriesNext(frames, i);
      ThroughNext(frames, i);
      if !frames[i].Batch? {
        return false;
      }
      ok := LoadBatch(t, Entries(frames[..i]), frames[i].entries, insertFails, commitFails);
      if !ok {
        return;
      }
      if frames[i].last {
        ok := t.Commit(finalFails);
        return;
      }
    }
    return false;
  }

  lemma EntriesAppend(frames: seq<ListFrame>, f: ListFrame)
    ensures Entries(frames + [f]) == Entries(frames) + if f.Batch? then f.entries else []
  {
  }

  // ---- Both sides ----

  lemma {:induction false} FullThenLast(batches: seq<ListFrame>, limit: nat)
    requires |batches| > 0 && FullBatches(batches[..|batches| - 1], limit)
    requires batches[|batches| - 1].Batch? && batches[|batches| - 1].last
    ensures Through(batches) == Some(|batches|)
    decreases |batches|
  {
    if |batches| > 1 {
      assert batches[..|batches| - 1][0] == batches[0];
      assert batches[1..][..|batches| - 2] == batches[..|batches| - 1][1..];
      FullThenLast(batches[1..], limit);
    }
  }

  lemma {:induction false} CutNeverEnds(batches: seq<ListFrame>, limit: nat, cut: nat)
    requires cut < |batches| && FullBatches(batches[..|batches| - 1], limit)
    ensures Through(batches[..cut]) == None
    decreases cut
  {
  }

  /**
   * The listing of a pass, as the pass loop sees it: None on failure. If the connection carries only the
   * first `carried` frames, or the store fails, there is no listing; if there is one, it is every entry
   * of the walk, in walk order, whatever the batch limit and the transaction size, and it is honest about
   * the tree.
   */
  method ListClient(root: Node, filter: Filter, limit: nat, carried: nat, t: ClientFiles,
                    insertFails: nat -> bool, commitFails: nat -> bool, finalFails: bool, ghost source: Cycle.Source)
    returns (listing: Option<seq<ClientRow>>)
    requires limit > 0 && t.txRows > 0
    modifies t
    ensures listing.Some? && IsSourceOf(source, root) ==> Cycle.Honest(listing.value, source, NormKey(t.lower))
    ensures listing.Some? ==> listing.value == t.committed == RowsOf(Emitted(root, filter), t.lower)
    ensures StoreWorks(insertFails, commitFails) && !finalFails ==>
              (listing.Some? <==> carried * limit > |Emitted(root, filter)|)
  {
    var scanner := new Scanner(limit, filter);
    scanner.HandleList(root);
    var batches := scanner.sent;
    ghost var all := Emitted(root, filter);
    CarriedEnough(batches, limit, carried);
    var frames := if carried < |batches| then batches[..carried] else batches;
    var ok := LoadList(t, frames, insertFails, commitFails, finalFails);
    listing := if ok then Some(t.committed) else None;
    if IsSourceOf(source, root) {
      RowsAreHonest(root, filter, t.lower, source);
    }
  }

  /** The first `carried` batches end the listing exactly when they are all of them. */
  lemma CarriedEnough(batches: seq<ListFrame>, limit: nat, carried: nat)
    requires |batches| > 0 && FullBatches(batches[..|batches| - 1], limit) && limit > 0
    requires batches[|batches| - 1].Batch? && batches[|batches| - 1].last && |batches[|batches| - 1].entries| < limit
    ensures var frames := if carried < |batches| then batches[..carried] else batches;
            && (Through(frames).Some? <==> carried * limit > |Entries(batches)|)
            && (Through(frames).Some? ==> frames[..Through(frames).value] == batches)
  {
    BatchCount(batches, limit);
    if carried < |batches| {
      CutNeverEnds(batches, limit, carried);
      Times(carried, |batches| - 1, limit);
    } else {
      FullThenLast(batches, limit);
      Times(|batches|, carried, limit);
    }
  }

  lemma Times(a: nat, b: nat, c: nat)
    requires a <= b
    ensures a * c <= b * c
  {
  }

  lemma {:induction false} FullEntries(batches: seq<ListFrame>, limit: nat)
    requires FullBatches(batches, limit)
    ensures |Entries(batches)| == |batches| * limit
  {
    if batches != [] {
      var n := |batches| - 1;
      FullEntries(batches[..n], limit);
      assert batches[n].Batch? && |Entries(batches)| == |Entries(batches[..n])| + limit;
      assert (n + 1) * limit == n * limit + limit;
    }
  }

  /** How many batches there are follows from how many entries there are. */
  lemma BatchCount(batches: seq<ListFrame>, limit: nat)
    requires |batches| > 0 && FullBatches(batches[..|batches| - 1], limit) && limit > 0
    requires batches[|batches| - 1].Batch? && |batches[|batches| - 1].entries| < limit
    ensures (|batches| - 1) * limit <= |Entries(batches)| < |batches| * limit
  {
    FullEntries(batches[..|batches| - 1], limit);
  }

  // ---- What an incomplete listing does ----

  lemma {:induction false} RowsHaveEntries(entries: seq<Entry>, lower: string -> string, key: string)
    ensures ListsKey(RowsOf(entries, lower), key)
      <==> exists e :: && e in entries && Paths.CleanRel(e.path) != []
                       && lower(Paths.CleanRel(Paths.CleanRel(e.path))) == key
  {
    if entries != [] {
      var n := |entries| - 1;
      var e := entries[n];
      assert entries == entries[..n] + [e];
      RowsHaveEntries(entries[..n], lower, key);
      if RowFor(e, lower).Some? {
        KeyOfAppend(RowsOf(entries[..n], lower), RowFor(e, lower).value, key);
      }
    }
  }

  lemma KeyOfAppend(rows: seq<ClientRow>, row: ClientRow, key: string)
    ensures ListsKey(rows + [row], key) <==> ListsKey(rows, key) || row.key == key
  {
  }

  /**
   * A complete load does not mean a complete listing: an index row survives MoveDeleted exactly when its
   * key is among the files the walk could read, so files under an unreadable directory are trashed.
   */
  lemma SurvivesIffEmitted(root: Node, filter: Filter, lower: string -> string, files: seq<FileRow>, f: FileRow)
    ensures f in Listed(files, RowsOf(Emitted(root, filter), lower))
      <==> f in files && exists e :: e in Emitted(root, filter) && Paths.CleanRel(e.path) != []
                                     && lower(Paths.CleanRel(Paths.CleanRel(e.path))) == f.key
  {
    ListedMembers(files, RowsOf(Emitted(root, filter), lower), f);
    RowsHaveEntries(Emitted(root, filter), lower, f.key);
  }

  /** The backup directory itself unreadable, or gone: an empty listing, marked last, and the whole index is trashed. */
  lemma UnreadableRootTrashesAll(children: seq<Node>, filter: Filter, lower: string -> string, files: seq<FileRow>)
    ensures Listed(files, RowsOf(Emitted(Dir(".", false, children), filter), lower)) == []
  {
  }
}
