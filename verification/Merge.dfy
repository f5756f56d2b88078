/// The streaming k-way merge behind compaction and snapshots (src/ltx/compactor.rs).

module Merge {
  // A heap over the inputs' page indexes, one cursor an input. It computes exactly the pages
  // of `LtxFiles.Merged`, in strictly ascending order, and its output passes the encoder's
  // ordering check.

  import opened History
  import opened LtxFiles

  // --- What the merge must find --------------------------------------------------------

  /// Input `w` is the last one carrying page `p`.
  ghost predicate Winner<V>(files: seq<LtxFile<V>>, p: nat, w: nat)
    requires w < |files|
  {
    p in files[w].pages && forall j :: w < j < |files| ==> p !in files[j].pages
  }

  lemma {:induction false} WinnerOverrides<V>(files: seq<LtxFile<V>>, p: nat, w: nat)
    requires w < |files| && Winner(files, p, w)
    ensures p in Override(files) && Override(files)[p] == files[w].pages[p]
    decreases |files|
  {
    var n := |files| - 1;
    if w < n {
      assert p !in files[n].pages;
      WinnerOverrides(files[..n], p, w);
    }
  }

  lemma {:induction false} NobodyCarries<V>(files: seq<LtxFile<V>>, p: nat)
    requires forall j :: 0 <= j < |files| ==> p !in files[j].pages
    ensures p !in Override(files)
  {
    if files != [] {
      NobodyCarries(files[..|files| - 1], p);
    }
  }

  /// Frames of pages that are not there cost nothing.
  lemma {:induction false} SkipAbsent<V>(pages: map<nat, V>, a: nat, b: nat)
    requires a <= b && forall p :: a < p <= b ==> p !in pages
    ensures Frames(pages, b) == Frames(pages, a)
    decreases b
  {
    if a < b {
      SkipAbsent(pages, a, b - 1);
    }
  }

  // --- The heap ------------------------------------------------------------------------------

  /// A heap entry: the next page number of an input, and which input.
  datatype Head = Head(pgno: nat, input: nat)

  predicate NotAfter(a: Head, b: Head) {
    a.pgno < b.pgno || (a.pgno == b.pgno && a.input <= b.input)
  }

  /// The top of the min-heap.
  method Peek(heap: set<Head>) returns (top: Head)
    requires heap != {}
    ensures top in heap && forall h :: h in heap ==> NotAfter(top, h)
  {
    var rest := heap;
    top :| top in rest;
    rest := rest - {top};
    while rest != {}
      invariant top in heap && rest <= heap
      invariant forall h :: h in heap && h !in rest ==> NotAfter(top, h)
      decreases rest
    {
      var h :| h in rest;
      if NotAfter(h, top) {
        top := h;
      }
      rest := rest - {h};
    }
  }

  /// Each input's frames are strictly ascending, as the encoder wrote them.
  ghost predicate Sorted<V>(index: seq<Frame<V>>) {
    forall i, j :: 0 <= i < j < |index| ==> index[i].pgno < index[j].pgno
  }

  /// Input `i` has been read up to, but not including, page `bound`.
  ghost predicate ReadTo<V>(index: seq<Frame<V>>, cursor: nat, bound: nat) {
    && cursor <= |index|
    && (forall k :: 0 <= k < cursor ==> index[k].pgno < bound)
    && (forall k :: cursor <= k < |index| ==> bound <= index[k].pgno)
  }

  /// The heap holds exactly the next frame of each input that has one.
  ghost predicate HeapOf<V>(heap: set<Head>, indexes: seq<seq<Frame<V>>>, cursor: seq<nat>)
    requires |cursor| == |indexes|
  {
    && (forall h :: h in heap ==>
        h.input < |indexes| && cursor[h.input] < |indexes[h.input]| && indexes[h.input][cursor[h.input]].pgno == h.pgno)
    && (forall i :: 0 <= i < |indexes| && cursor[i] < |indexes[i]| ==> Head(indexes[i][cursor[i]].pgno, i) in heap)
  }

  ghost predicate IndexesOf<V>(indexes: seq<seq<Frame<V>>>, files: seq<LtxFile<V>>) {
    |indexes| == |files| &&
    forall i :: 0 <= i < |files| ==> indexes[i] == Frames(files[i].pages, files[i].commit) && Sorted(indexes[i])
  }

  ghost predicate InRange<V>(f: LtxFile<V>) {
    forall p :: p in f.pages ==> 1 <= p <= f.commit
  }

  ghost predicate AllInRange<V>(files: seq<LtxFile<V>>) {
    forall i :: 0 <= i < |files| ==> InRange(files[i])
  }

  /// Pops the top and pushes the next frame of its input, if any.
  method Advance<V>(indexes: seq<seq<Frame<V>>>, heapIn: set<Head>, cursorIn: seq<nat>, top: Head)
    returns (heap: set<Head>, cursor: seq<nat>)
    requires |cursorIn| == |indexes| && HeapOf(heapIn, indexes, cursorIn) && top in heapIn
    ensures top.input < |indexes| && cursor == cursorIn[top.input := cursorIn[top.input] + 1]
    ensures HeapOf(heap, indexes, cursor)
  {
    var i := top.input;
    cursor := cursorIn[i := cursorIn[i] + 1];
    heap := heapIn - {top};
    if cursor[i] < |indexes[i]| {
      heap := heap + {Head(indexes[i][cursor[i]].pgno, i)};
    }
  }

  /// Input `i` has not moved, or has moved past a frame of page `pgno`.
  ghost predicate MovedPast<V>(index: seq<Frame<V>>, was: nat, now: nat, pgno: nat) {
    now == was || (now == was + 1 && was < |index| && index[was].pgno == pgno)
  }

  ghost predicate AllMovedPast<V>(indexes: seq<seq<Frame<V>>>, was: seq<nat>, now: seq<nat>, pgno: nat)
    requires |was| == |now| == |indexes|
  {
    forall i :: 0 <= i < |indexes| ==> MovedPast(indexes[i], was[i], now[i], pgno)
  }

  ghost predicate AllReadTo<V>(indexes: seq<seq<Frame<V>>>, cursor: seq<nat>, bound: nat)
    requires |cursor| == |indexes|
  {
    forall i :: 0 <= i < |indexes| ==> ReadTo(indexes[i], cursor[i], bound)
  }

  ghost predicate AllSorted<V>(indexes: seq<seq<Frame<V>>>) {
    forall i :: 0 <= i < |indexes| ==> Sorted(indexes[i])
  }

  /// Consumes every input sitting at page `pgno`; the highest-numbered one wins.
  method ConsumePage<V>(indexes: seq<seq<Frame<V>>>, heapIn: set<Head>, cursorIn: seq<nat>, pgno: nat)
    returns (heap: set<Head>, cursor: seq<nat>, winner: nat)
    requires |cursorIn| == |indexes| && HeapOf(heapIn, indexes, cursorIn)
    requires AllSorted(indexes) && AllReadTo(indexes, cursorIn, pgno)
    requires exists h :: h in heapIn && h.pgno == pgno
    ensures |cursor| == |indexes| && HeapOf(heap, indexes, cursor)
    ensures AllMovedPast(indexes, cursorIn, cursor, pgno) && AllReadTo(indexes, cursor, pgno + 1)
    ensures winner < |indexes| && cursor[winner] == cursorIn[winner] + 1
    ensures forall i :: winner < i < |indexes| ==> cursor[i] == cursorIn[i]
  {
    heap, cursor, winner := heapIn, cursorIn, 0;
    var have, more := false, true;
    while heap != {} && more
      invariant |cursor| == |indexes| && HeapOf(heap, indexes, cursor)
      invariant AllMovedPast(indexes, cursorIn, cursor, pgno)
      invariant !more ==> have && forall h :: h in heap ==> h.pgno != pgno
      invariant !have ==> cursor == cursorIn && heap == heapIn
      invariant have ==> winner < |indexes| && cursor[winner] == cursorIn[winner] + 1
      invariant have ==> forall i :: winner < i < |indexes| ==> cursor[i] == cursorIn[i]
      decreases more, Unread(indexes, cursor)
    {
      var input;
      heap, cursor, input, more := TakeTop(indexes, heap, cursor, cursorIn, pgno);
      if more && (!have || input > winner) {
        winner, have := input, true;
      }
    }
    AllPast(indexes, heap, cursorIn, cursor, pgno);
  }

  /// Pops the top if it is at page `pgno`.
  method TakeTop<V>(indexes: seq<seq<Frame<V>>>, heapIn: set<Head>, cursorIn: seq<nat>, ghost was: seq<nat>, pgno: nat)
    returns (heap: set<Head>, cursor: seq<nat>, input: nat, taken: bool)
    requires |cursorIn| == |was| == |indexes| && HeapOf(heapIn, indexes, cursorIn) && heapIn != {}
    requires AllSorted(indexes) && AllReadTo(indexes, was, pgno) && AllMovedPast(indexes, was, cursorIn, pgno)
    ensures !taken ==> heap == heapIn && cursor == cursorIn && forall h :: h in heap ==> h.pgno != pgno
    ensures taken ==>
      && input < |indexes| && cursorIn[input] == was[input] && cursor == cursorIn[input := was[input] + 1]
      && HeapOf(heap, indexes, cursor) && AllMovedPast(indexes, was, cursor, pgno)
      && Unread(indexes, cursor) < Unread(indexes, cursorIn)
  {
    var top := Peek(heapIn);
    input := top.input;
    heap, cursor, taken := heapIn, cursorIn, top.pgno == pgno;
    NextIsNotBefore(indexes, was, cursorIn, pgno, input);
    if taken {
      UnreadDrops(indexes, cursorIn, input);
      heap, cursor := Advance(indexes, heapIn, cursorIn, top);
    }
  }

  /// With nothing left at page `pgno`, every input has been read past it.
  lemma AllPast<V>(indexes: seq<seq<Frame<V>>>, heap: set<Head>, was: seq<nat>, now: seq<nat>, pgno: nat)
    requires |was| == |now| == |indexes| && HeapOf(heap, indexes, now)
    requires AllSorted(indexes) && AllReadTo(indexes, was, pgno) && AllMovedPast(indexes, was, now, pgno)
    requires forall h :: h in heap ==> h.pgno != pgno
    ensures AllReadTo(indexes, now, pgno + 1)
  {
    forall i | 0 <= i < |indexes| ensures ReadTo(indexes[i], now[i], pgno + 1) {
      NextIsNotBefore(indexes, was, now, pgno, i);
      assert now[i] < |indexes[i]| ==> Head(indexes[i][now[i]].pgno, i) in heap;
    }
  }

  /// Where input `i` stands, and that it cannot have moved if it stands at `pgno`.
  lemma NextIsNotBefore<V>(indexes: seq<seq<Frame<V>>>, was: seq<nat>, now: seq<nat>, pgno: nat, i: nat)
    requires |was| == |now| == |indexes| && i < |indexes|
    requires AllSorted(indexes) && AllReadTo(indexes, was, pgno) && AllMovedPast(indexes, was, now, pgno)
    ensures now[i] <= |indexes[i]|
    ensures now[i] < |indexes[i]| ==> pgno <= indexes[i][now[i]].pgno
    ensures now[i] < |indexes[i]| && indexes[i][now[i]].pgno == pgno ==> now[i] == was[i]
    ensures now[i] == |indexes[i]| || pgno < indexes[i][now[i]].pgno ==> ReadTo(indexes[i], now[i], pgno + 1)
  {
    assert MovedPast(indexes[i], was[i], now[i], pgno) && ReadTo(indexes[i], was[i], pgno) && Sorted(indexes[i]);
  }

  ghost function Unread<V>(indexes: seq<seq<Frame<V>>>, cursor: seq<nat>): nat
    requires |cursor| == |indexes|
  {
    if indexes == [] then 0
    else
      var n := |indexes| - 1;
      Unread(indexes[..n], cursor[..n]) + if cursor[n] < |indexes[n]| then |indexes[n]| - cursor[n] else 0
  }

  lemma {:induction false} UnreadDrops<V>(indexes: seq<seq<Frame<V>>>, cursor: seq<nat>, i: nat)
    requires |cursor| == |indexes| && i < |indexes| && cursor[i] < |indexes[i]|
    ensures Unread(indexes, cursor[i := cursor[i] + 1]) < Unread(indexes, cursor)
  {
    var n := |indexes| - 1;
    var next := cursor[i := cursor[i] + 1];
    if i < n {
      UnreadDrops(indexes[..n], cursor[..n], i);
      assert next[..n] == cursor[..n][i := cursor[i] + 1];
    } else {
      assert next[..n] == cursor[..n];
    }
  }

  // --- The merge -----------------------------------------------------------------------------

  /// The output once every input has been read to `bound`: the merged file's frames up to
  /// there.
  ghost function EmittedTo<V>(merged: map<nat, V>, commit: nat, bound: nat): seq<Frame<V>>
    requires bound >= 1
  {
    Frames(Trim(merged, commit), if bound - 1 < commit then bound - 1 else commit)
  }

  /// An input read both to `bound` and to `next` by the same cursor has nothing between.
  lemma NothingBetween<V>(file: LtxFile<V>, index: seq<Frame<V>>, cursor: nat, bound: nat, next: nat, p: nat)
    requires index == Frames(file.pages, file.commit) && InRange(file)
    requires ReadTo(index, cursor, bound) && ReadTo(index, cursor, next) && bound <= p < next
    ensures p !in file.pages
  {
    FramesListPages(file.pages, file.commit);
    forall k | 0 <= k < |index| ensures index[k].pgno != p {}
    assert !Seen(index, |index|, p);
  }

  /// A page no input has next is in no input.
  lemma PageNotNext<V>(files: seq<LtxFile<V>>, indexes: seq<seq<Frame<V>>>, cursor: seq<nat>, bound: nat,
    next: nat, p: nat)
    requires IndexesOf(indexes, files) && AllInRange(files) && |cursor| == |indexes|
    requires AllReadTo(indexes, cursor, bound) && AllReadTo(indexes, cursor, next)
    requires bound <= p < next
    ensures p !in Override(files)
  {
    forall j | 0 <= j < |files| ensures p !in files[j].pages {
      assert InRange(files[j]) && ReadTo(indexes[j], cursor[j], bound) && ReadTo(indexes[j], cursor[j], next);
      NothingBetween(files[j], indexes[j], cursor[j], bound, next, p);
    }
    NobodyCarries(files, p);
  }

  /// The winner of a page is the last input carrying it, and the frame just read holds the
  /// merged page.
  lemma WinnerIsMerged<V>(files: seq<LtxFile<V>>, indexes: seq<seq<Frame<V>>>, was: seq<nat>, now: seq<nat>,
    pgno: nat, winner: nat)
    requires IndexesOf(indexes, files) && AllInRange(files) && |was| == |now| == |indexes|
    requires AllReadTo(indexes, was, pgno) && AllReadTo(indexes, now, pgno + 1) && AllMovedPast(indexes, was, now, pgno)
    requires winner < |indexes| && now[winner] == was[winner] + 1
    requires forall i :: winner < i < |indexes| ==> now[i] == was[i]
    ensures 1 <= now[winner] <= |indexes[winner]| && indexes[winner][now[winner] - 1].pgno == pgno
    ensures pgno in Override(files) && Override(files)[pgno] == indexes[winner][now[winner] - 1].data
  {
    assert MovedPast(indexes[winner], was[winner], now[winner], pgno);
    FramesListPages(files[winner].pages, files[winner].commit);
    assert IsFrameOf(indexes[winner][was[winner]], files[winner].pages, files[winner].commit);
    forall j | winner < j < |files| ensures pgno !in files[j].pages {
      assert InRange(files[j]) && ReadTo(indexes[j], was[j], pgno) && ReadTo(indexes[j], now[j], pgno + 1);
      NothingBetween(files[j], indexes[j], was[j], pgno, pgno + 1, pgno);
    }
    WinnerOverrides(files, pgno, winner);
  }

  /// The state of the merge between pages.
  ghost predicate Merging<V>(files: seq<LtxFile<V>>, indexes: seq<seq<Frame<V>>>, heap: set<Head>,
    cursor: seq<nat>, bound: nat) {
    && IndexesOf(indexes, files) && AllInRange(files) && AllSorted(indexes)
    && |cursor| == |indexes| && HeapOf(heap, indexes, cursor)
    && bound >= 1 && AllReadTo(indexes, cursor, bound)
  }

  ghost predicate NoneBetween<V>(pages: map<nat, V>, from: nat, to: nat) {
    forall p :: from <= p < to ==> p !in pages
  }

  /// One turn of the merge loop: the next page, from the input that wins it.
  method NextPage<V>(ghost files: seq<LtxFile<V>>, indexes: seq<seq<Frame<V>>>, heapIn: set<Head>,
    cursorIn: seq<nat>, ghost bound: nat)
    returns (heap: set<Head>, cursor: seq<nat>, pgno: nat, data: V)
    requires Merging(files, indexes, heapIn, cursorIn, bound) && heapIn != {}
    ensures bound <= pgno && Merging(files, indexes, heap, cursor, pgno + 1)
    ensures pgno in Override(files) && Override(files)[pgno] == data
    ensures NoneBetween(Override(files), bound, pgno)
    ensures Unread(indexes, cursor) < Unread(indexes, cursorIn)
  {
    var top := Peek(heapIn);
    pgno := top.pgno;
    AllAtLeast(indexes, cursorIn, heapIn, bound, pgno, top);
    var winner;
    heap, cursor, winner := ConsumePage(indexes, heapIn, cursorIn, pgno);
    UnreadMoved(indexes, cursorIn, cursor, pgno, winner);
    WinnerIsMerged(files, indexes, cursorIn, cursor, pgno, winner);
    forall p | bound <= p < pgno ensures p !in Override(files) {
      PageNotNext(files, indexes, cursorIn, bound, pgno, p);
    }
    data := indexes[winner][cursor[winner] - 1].data;
  }

  /// Cursors at the first frame of each input, and a heap of those frames.
  method Start<V>(ghost files: seq<LtxFile<V>>, indexes: seq<seq<Frame<V>>>) returns (heap: set<Head>, cursor: seq<nat>)
    requires IndexesOf(indexes, files) && AllSorted(indexes) && AllInRange(files)
    requires AllReadTo(indexes, seq(|files|, _ => 0), 1)
    ensures Merging(files, indexes, heap, cursor, 1)
  {
    cursor := seq(|indexes|, _ => 0);
    heap := {};
    for i := 0 to |indexes|
      invariant forall h :: h in heap ==> h.input < i && indexes[h.input] != [] && indexes[h.input][0].pgno == h.pgno
      invariant forall k :: 0 <= k < i && indexes[k] != [] ==> Head(indexes[k][0].pgno, k) in heap
    {
      if indexes[i] != [] {
        heap := heap + {Head(indexes[i][0].pgno, i)};
      }
    }
    forall i | 0 <= i < |indexes| ensures ReadTo(indexes[i], cursor[i], 1) {
      assert ReadTo(indexes[i], seq(|files|, _ => 0)[i], 1);
    }
  }

  /// `merge_to_writer`: the frames it hands the encoder are exactly those of the merged
  /// file at size `commit`: ascending, each page once, in its newest version, none past
  /// the end.
  method MergeToWriter<V>(files: seq<LtxFile<V>>, commit: nat) returns (out: seq<Frame<V>>)
    requires AllInRange(files)
    ensures out == Frames(Trim(Override(files), commit), commit)
  {
    var indexes := seq(|files|, i requires 0 <= i < |files| => Frames(files[i].pages, files[i].commit));
    IndexesSorted(files, indexes);
    var heap, cursor := Start(files, indexes);
    out := Drain(files, indexes, heap, cursor, commit);
  }

  /// The loop of the merge, one page a turn.
  method Drain<V>(ghost files: seq<LtxFile<V>>, indexes: seq<seq<Frame<V>>>, heapIn: set<Head>, cursorIn: seq<nat>,
    commit: nat)
    returns (out: seq<Frame<V>>)
    requires Merging(files, indexes, heapIn, cursorIn, 1)
    ensures out == Frames(Trim(Override(files), commit), commit)
  {
    var heap, cursor := heapIn, cursorIn;
    out := [];
    ghost var bound := 1;
    while heap != {}
      invariant Merging(files, indexes, heap, cursor, bound)
      invariant out == EmittedTo(Override(files), commit, bound)
      decreases Unread(indexes, cursor)
    {
      heap, cursor, out, bound := Turn(files, indexes, heap, cursor, bound, commit, out);
    }
    AllEmitted(files, indexes, cursor, heap, bound, commit);
  }

  /// One turn: the next page, emitted if it still fits.
  method Turn<V>(ghost files: seq<LtxFile<V>>, indexes: seq<seq<Frame<V>>>, heapIn: set<Head>, cursorIn: seq<nat>,
    ghost bound: nat,
    commit: nat, outIn: seq<Frame<V>>)
    returns (heap: set<Head>, cursor: seq<nat>, out: seq<Frame<V>>, ghost next: nat)
    requires Merging(files, indexes, heapIn, cursorIn, bound) && heapIn != {}
    requires outIn == EmittedTo(Override(files), commit, bound)
    ensures Merging(files, indexes, heap, cursor, next) && out == EmittedTo(Override(files), commit, next)
    ensures Unread(indexes, cursor) < Unread(indexes, cursorIn)
  {
    var pgno, data;
    heap, cursor, pgno, data := NextPage(files, indexes, heapIn, cursorIn, bound);
    out := EmitPage(outIn, Override(files), commit, bound, pgno, data);
    next := pgno + 1;
  }

  method EmitPage<V>(outIn: seq<Frame<V>>, ghost merged: map<nat, V>, commit: nat, ghost bound: nat, pgno: nat, data: V)
    returns (out: seq<Frame<V>>)
    requires 1 <= bound <= pgno && outIn == EmittedTo(merged, commit, bound)
    requires pgno in merged && merged[pgno] == data && NoneBetween(merged, bound, pgno)
    ensures out == EmittedTo(merged, commit, pgno + 1)
  {
    PageEmitted(merged, commit, bound, pgno);
    out := outIn;
    if pgno <= commit {
      out := out + [Frame(pgno, data)];
    }
  }

  /// With the heap empty, no page is left.
  lemma AllEmitted<V>(files: seq<LtxFile<V>>, indexes: seq<seq<Frame<V>>>, cursor: seq<nat>, heap: set<Head>,
    bound: nat, commit: nat)
    requires Merging(files, indexes, heap, cursor, bound) && heap == {}
    ensures EmittedTo(Override(files), commit, bound) == Frames(Trim(Override(files), commit), commit)
  {
    forall p | bound <= p <= commit ensures p !in Override(files) {
      AllExhausted(indexes, cursor, heap, bound, p + 1);
      PageNotNext(files, indexes, cursor, bound, p + 1, p);
    }
    if bound <= commit {
      SkipAbsent(Trim(Override(files), commit), bound - 1, commit);
    }
  }

  lemma UnreadMoved<V>(indexes: seq<seq<Frame<V>>>, was: seq<nat>, now: seq<nat>, pgno: nat, w: nat)
    requires |was| == |now| == |indexes| && w < |indexes| && now[w] == was[w] + 1
    requires AllMovedPast(indexes, was, now, pgno) && AllReadTo(indexes, was, pgno)
    ensures Unread(indexes, now) < Unread(indexes, was)
  {
    forall i | 0 <= i < |indexes| ensures was[i] <= now[i] <= |indexes[i]| {
      assert MovedPast(indexes[i], was[i], now[i], pgno) && ReadTo(indexes[i], was[i], pgno);
    }
    UnreadFalls(indexes, was, now, w);
  }

  lemma IndexesSorted<V>(files: seq<LtxFile<V>>, indexes: seq<seq<Frame<V>>>)
    requires |indexes| == |files| && forall i :: 0 <= i < |files| ==>
      indexes[i] == Frames(files[i].pages, files[i].commit)
    ensures IndexesOf(indexes, files) && AllSorted(indexes)
    ensures AllReadTo(indexes, seq(|files|, _ => 0), 1)
  {
    forall i | 0 <= i < |files| ensures Sorted(indexes[i]) && ReadTo(indexes[i], 0, 1) {
      FramesListPages(files[i].pages, files[i].commit);
      forall k | 0 <= k < |indexes[i]| ensures 1 <= indexes[i][k].pgno {
        assert IsFrameOf(indexes[i][k], files[i].pages, files[i].commit);
      }
    }
  }

  lemma AllAtLeast<V>(indexes: seq<seq<Frame<V>>>, cursor: seq<nat>, heap: set<Head>, bound: nat, pgno: nat, top: Head)
    requires |cursor| == |indexes| && AllSorted(indexes) && HeapOf(heap, indexes, cursor) &&
      AllReadTo(indexes, cursor, bound)
    requires top in heap && top.pgno == pgno && forall h :: h in heap ==> NotAfter(top, h)
    ensures bound <= pgno && AllReadTo(indexes, cursor, pgno)
  {
    assert ReadTo(indexes[top.input], cursor[top.input], bound);
    forall i | 0 <= i < |indexes| ensures ReadTo(indexes[i], cursor[i], pgno) {
      assert ReadTo(indexes[i], cursor[i], bound) && Sorted(indexes[i]);
      if cursor[i] < |indexes[i]| {
        assert Head(indexes[i][cursor[i]].pgno, i) in heap;
      }
    }
  }

  lemma AllExhausted<V>(indexes: seq<seq<Frame<V>>>, cursor: seq<nat>, heap: set<Head>, bound: nat, next: nat)
    requires |cursor| == |indexes| && HeapOf(heap, indexes, cursor) && AllReadTo(indexes, cursor, bound)
    requires heap == {} && bound <= next
    ensures AllReadTo(indexes, cursor, next)
  {
    forall i | 0 <= i < |indexes| ensures ReadTo(indexes[i], cursor[i], next) {
      assert ReadTo(indexes[i], cursor[i], bound);
    }
  }

  lemma {:induction false} UnreadFalls<V>(indexes: seq<seq<Frame<V>>>, was: seq<nat>, now: seq<nat>, w: nat)
    requires |was| == |now| == |indexes| && w < |indexes|
    requires forall i :: 0 <= i < |indexes| ==> was[i] <= now[i] <= |indexes[i]|
    requires was[w] < now[w]
    ensures Unread(indexes, now) < Unread(indexes, was)
  {
    var n := |indexes| - 1;
    if w < n {
      UnreadFalls(indexes[..n], was[..n], now[..n], w);
    } else {
      UnreadNoMore(indexes[..n], was[..n], now[..n]);
    }
  }

  lemma {:induction false} UnreadNoMore<V>(indexes: seq<seq<Frame<V>>>, was: seq<nat>, now: seq<nat>)
    requires |was| == |now| == |indexes|
    requires forall i :: 0 <= i < |indexes| ==> was[i] <= now[i] <= |indexes[i]|
    ensures Unread(indexes, now) <= Unread(indexes, was)
  {
    if indexes != [] {
      var n := |indexes| - 1;
      UnreadNoMore(indexes[..n], was[..n], now[..n]);
    }
  }

  /// Emitting one page after skipping absent ones extends the output by exactly its frame.
  lemma PageEmitted<V>(pages: map<nat, V>, commit: nat, bound: nat, pgno: nat)
    requires 1 <= bound <= pgno && pgno in pages
    requires forall p :: bound <= p < pgno ==> p !in pages
    ensures EmittedTo(pages, commit, pgno + 1)
      == EmittedTo(pages, commit, bound) + if pgno <= commit then [Frame(pgno, pages[pgno])] else []
  {
    var merged := Trim(pages, commit);
    if pgno <= commit {
      SkipAbsent(merged, bound - 1, pgno - 1);
    } else if bound - 1 < commit {
      SkipAbsent(merged, bound - 1, commit);
    }
  }

  // --- Compaction -----------------------------------------------------------------------------

  datatype CompactResult<V> =
    | Compacted(min: nat, max: nat, commit: nat, frames: seq<Frame<V>>)
    | NoInputs
    | BadRange
    | BadPageSize(size: nat)

  /// Inputs `0..n` have one page size and ranges that adjoin.
  ghost predicate Compactable<V>(files: seq<LtxFile<V>>, sizes: seq<nat>, n: nat)
    requires n <= |files| == |sizes|
  {
    forall i :: 0 < i < n ==> sizes[i] == sizes[0] && AdjoinsAt(files, i)
  }

  /// `compact_to_writer`, on inputs and the page sizes in their headers: refused exactly with
  /// no inputs or at the first input with another page size or a range that does not adjoin
  /// the one before; otherwise the frames and header range of the merged file.
  method CompactToWriter<V>(files: seq<LtxFile<V>>, sizes: seq<nat>) returns (r: CompactResult<V>)
    requires AllInRange(files) && |sizes| == |files|
    ensures r.NoInputs? <==> files == []
    ensures r.BadPageSize? <==> exists i :: 0 < i < |files| && Compactable(files, sizes, i) && sizes[i] != sizes[0]
    ensures r.BadRange? <==>
      exists i :: 0 < i < |files| && Compactable(files, sizes, i) && sizes[i] == sizes[0] && !AdjoinsAt(files, i)
    ensures r.BadPageSize? ==> exists i :: 0 < i < |files| && r.size == sizes[i] != sizes[0]
    ensures r.Compacted? ==>
      var m := Merged(files);
      && Compactable(files, sizes, |files|)
      && r.min == m.min && r.max == m.max && r.commit == m.commit && r.frames == Frames(m.pages, m.commit)
  {
    if files == [] {
      return NoInputs;
    }
    for i := 1 to |files|
      invariant Compactable(files, sizes, i)
    {
      if sizes[i] != sizes[0] {
        return BadPageSize(sizes[i]);
      }
      if files[i].min > files[i - 1].max + 1 || files[i].max <= files[i - 1].max {
        assert !AdjoinsAt(files, i);
        return BadRange;
      }
    }
    var last := files[|files| - 1];
    var frames := MergeToWriter(files, last.commit);
    return Compacted(files[0].min, last.max, last.commit, frames);
  }
}
