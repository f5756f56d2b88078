/// Serving single pages straight from a replica (src/sync/reader.rs), from the bytes of its
/// files up; and that what compaction merges is always a file the encoder accepts.

module Reader {
  import opened Bytes
  import opened History
  import opened LtxFiles
  import opened Planner
  import opened Apply
  import opened Codec
  import opened Decoder

  type Data = seq<Byte>

  // --- Files of a history can always be written -------------------------------------------------

  ghost predicate Sized(h: History<Data>, pageSize: nat) {
    forall i :: 0 <= i < |h| ==> SizedPages(h[i].pages, pageSize)
  }

  ghost predicate SizedPages(pages: map<nat, Data>, pageSize: nat) {
    forall p :: p in pages ==> |pages[p]| == pageSize
  }

  /// The header a file of a history is written with.
  ghost predicate HeaderFor(header: Header, f: LtxFile<Data>) {
    && Validate(header).Fine?
    && header.minTxid == f.min && header.maxTxid == f.max && header.commit == f.commit
  }

  /// A complete file's frames are pages 1, 2, 3 and so on, without the lock page.
  lemma {:induction false} FramesContiguous(pages: map<nat, Data>, lock: nat, n: nat)
    requires 1 < lock && forall p :: 1 <= p <= n ==> (p in pages <==> p != lock)
    ensures |Frames(pages, n)| == if n < lock then n else n - 1
    ensures forall i :: 0 <= i < |Frames(pages, n)| ==>
      Frames(pages, n)[i].pgno == if i + 1 < lock then i + 1 else i + 2
  {
    if n > 0 {
      FramesContiguous(pages, lock, n - 1);
    }
  }

  lemma FileIsComplete(h: History<Data>, lock: nat, f: LtxFile<Data>, p: nat)
    requires WellFormed(h, lock) && Describes(h, f) && f.min == 1 && 1 <= p <= f.commit
    ensures p in f.pages <==> p != lock
  {
    SummaryPage(h, lock, 1, f.max, p, []);
    if p != lock {
      StateIsLastWrite(h, lock, f.max, p, []);
    }
  }

  lemma PageSized(h: History<Data>, lock: nat, pageSize: nat, f: LtxFile<Data>, p: nat)
    requires Sized(h, pageSize) && Describes(h, f) && p in f.pages
    ensures |f.pages[p]| == pageSize
  {
    NewestIsLastWrite(h, f.min, f.max, p);
    var w := LastWrite(h, p, f.max);
    assert SizedPages(h[w - 1].pages, pageSize);
  }

  /// Every file of a history, merged or not, incremental or snapshot, passes every check the
  /// encoder makes, page order and the skip over the lock page included.
  lemma DescribedIsWritable(h: History<Data>, header: Header, f: LtxFile<Data>)
    requires HeaderFor(header, f) && Describes(h, f)
    requires WellFormed(h, LockPgno(header.pageSize)) && Sized(h, header.pageSize)
    ensures Writable(header, Frames(f.pages, f.commit))
  {
    var lock, pages := LockPgno(header.pageSize), Frames(f.pages, f.commit);
    FramesListPages(f.pages, f.commit);
    LockIsLarge(header.pageSize);
    if f.min == 1 {
      forall p | 1 <= p <= f.commit ensures p in f.pages <==> p != lock { FileIsComplete(h, lock, f, p); }
      FramesContiguous(f.pages, lock, f.commit);
    }
    forall i | 0 <= i < |pages| ensures PageAccepted(header, pages, i) {
      assert IsFrameOf(pages[i], f.pages, f.commit);
      PageSized(h, lock, header.pageSize, f, pages[i].pgno);
      SummaryPage(h, lock, f.min, f.max, pages[i].pgno, []);
    }
  }

  // --- The page reader ------------------------------------------------------------------------------

  /// The stored bytes are a file holding exactly `f`.
  ghost predicate Stores(lz: Lz4, bytes: seq<Byte>, f: LtxFile<Data>, pageSize: nat) {
    && (forall p :: p in f.pages ==> 1 <= p <= f.commit)
    && exists h: Header, t: Trailer :: h.pageSize == pageSize && Readable(lz, bytes, h, Frames(f.pages, f.commit), t)
  }

  /// Every file of a history, encoded, is stored: its pages can be read back one by one.
  method StoreFile(lz: Lz4, header: Header, f: LtxFile<Data>, post: nat, ghost h: History<Data>)
    returns (bytes: seq<Byte>)
    requires HeaderFor(header, f) && Describes(h, f) && Lossless(lz)
    requires WellFormed(h, LockPgno(header.pageSize)) && Sized(h, header.pageSize)
    requires Representable(header) && post < Limit(8) && OffsetsFit(lz, Frames(f.pages, f.commit))
    ensures Stores(lz, bytes, f, header.pageSize)
  {
    var pages := Frames(f.pages, f.commit);
    DescribedIsWritable(h, header, f);
    ghost var t;
    var written;
    written, t := WriteFile(lz, header, pages, post);
    bytes := written.value;
    ReadsBack(lz, header, pages, t);
    forall p | p in f.pages ensures 1 <= p <= f.commit {
      SummaryPage(h, LockPgno(header.pageSize), f.min, f.max, p, []);
    }
  }

  datatype PageRead = Found(data: Data) | Absent | Missing(key: FileKey)

  ghost function IndexMap(lz: Lz4, f: LtxFile<Data>): map<nat, Slot> {
    MapOf(IndexOf(lz, Frames(f.pages, f.commit)))
  }

  function MapOf(index: seq<Frame<Slot>>): map<nat, Slot> {
    if index == [] then map[] else MapOf(index[..|index| - 1])[index[|index| - 1].pgno := index[|index| - 1].data]
  }

  /// Every file of the plan after the `i`-th is there and does not have the page.
  ghost predicate LackingAfter(plan: seq<FileKey>, store: map<FileKey, seq<Byte>>, files: map<FileKey, LtxFile<Data>>,
    i: nat, pgno: nat)
  {
    forall j :: i < j < |plan| ==> plan[j] in store && plan[j] in files && pgno !in files[plan[j]].pages
  }

  lemma LackingToo(plan: seq<FileKey>, store: map<FileKey, seq<Byte>>, files: map<FileKey, LtxFile<Data>>, i: nat,
    pgno: nat)
    requires 0 < i < |plan| && LackingAfter(plan, store, files, i, pgno)
    requires plan[i] in store && plan[i] in files && pgno !in files[plan[i]].pages
    ensures LackingAfter(plan, store, files, i - 1, pgno)
  {
  }

  /// A stored file's index is that of its pages.
  lemma StoredIndex(lz: Lz4, bytes: seq<Byte>, f: LtxFile<Data>, pageSize: nat)
    requires Stores(lz, bytes, f, pageSize)
    ensures IndexIn(bytes).Fine? && MapOf(IndexIn(bytes).value) == IndexMap(lz, f)
  {
    var h: Header, t: Trailer :| h.pageSize == pageSize && Readable(lz, bytes, h, Frames(f.pages, f.commit), t);
    IndexInReadable(lz, bytes, h, Frames(f.pages, f.commit), t);
  }

  class ReplicaReader {
    const lz: Lz4
    const store: map<FileKey, seq<Byte>>
    const plan: seq<FileKey>
    const pageSize: nat
    var indexes: map<FileKey, map<nat, Slot>>
    ghost const files: map<FileKey, LtxFile<Data>>

    /// What is cached is what the files say; what is stored is readable.
    ghost predicate Valid()
      reads this
    {
      && (forall k :: k in plan ==> k in files)
      && (forall k :: k in plan && k in store ==> Stores(lz, store[k], files[k], pageSize))
      && (forall k :: k in indexes ==> k in plan && k in store && indexes[k] == IndexMap(lz, files[k]))
    }

    ghost function Plan(): (fs: seq<LtxFile<Data>>)
      requires forall k :: k in plan ==> k in files
      ensures |fs| == |plan|
    {
      seq(|plan|, i requires 0 <= i < |plan| => files[plan[i]])
    }

    constructor (lz: Lz4, store: map<FileKey, seq<Byte>>, plan: seq<FileKey>, pageSize: nat,
      ghost files: map<FileKey, LtxFile<Data>>)
      requires forall k :: k in plan ==> k in files
      requires forall k :: k in plan && k in store ==> Stores(lz, store[k], files[k], pageSize)
      ensures Valid() && this.files == files && this.plan == plan && this.store == store
    {
      this.lz, this.store, this.plan, this.pageSize, this.files, indexes := lz, store, plan, pageSize, files, map[];
    }

    /// `load_index`: reads a file's index through its footer the first time, then caches it.
    method LoadIndex(key: FileKey) returns (index: map<nat, Slot>)
      requires Valid() && key in plan && key in store
      modifies this`indexes
      ensures Valid() && index == IndexMap(lz, files[key])
    {
      if key in indexes {
        return indexes[key];
      }
      StoredIndex(lz, store[key], files[key], pageSize);
      var entries := PageIndex(store[key]);
      index := MapOf(entries.value);
      indexes := indexes[key := index];
    }

    /// `read_page`: from the newest file of the plan back, the first that has the page.
    /// However many pages were read before, and whatever is cached, this is the version a
    /// restore resolves; it fails only on an object that is gone, when every newer file of the
    /// plan is there and lacks the page.
    method ReadPage(pgno: nat) returns (r: PageRead)
      requires Valid()
      modifies this`indexes
      ensures Valid()
      ensures match r
        case Found(data) => Resolve(Plan(), pgno) == Version(data)
        case Absent => Resolve(Plan(), pgno) == Nowhere
        case Missing(key) =>
          key !in store && exists i :: 0 <= i < |plan| && plan[i] == key && LackingAfter(plan, store, files, i, pgno)
    {
      var i := |plan|;
      assert Plan()[..i] == Plan();
      while i > 0
        invariant 0 <= i <= |plan| && Valid()
        invariant Resolve(Plan()[..i], pgno) == Resolve(Plan(), pgno)
        invariant i > 0 ==> LackingAfter(plan, store, files, i - 1, pgno)
      {
        i := i - 1;
        assert Plan()[..i + 1][..i] == Plan()[..i];
        r := LookIn(plan[i], pgno);
        if !r.Absent? {
          return;
        }
        if i > 0 {
          LackingToo(plan, store, files, i, pgno);
        }
      }
      return Absent;
    }

    /// Looks for a page in one file of the plan.
    method LookIn(key: FileKey, pgno: nat) returns (r: PageRead)
      requires Valid() && key in plan
      modifies this`indexes
      ensures Valid()
      ensures match r
        case Found(data) => pgno in files[key].pages && data == files[key].pages[pgno]
        case Absent => key in store && pgno !in files[key].pages
        case Missing(k) => k == key && key !in store
    {
      if key !in store {
        return Missing(key);
      }
      var index := LoadIndex(key);
      IndexServes(lz, store[key], files[key], pageSize, index, pgno);
      if pgno in index {
        var slot := index[pgno];
        var page := DecodePageFrame(lz, store[key][slot.offset..slot.offset + slot.size], pageSize);
        return Found(page.value.data);
      }
      return Absent;
    }
  }

  lemma {:induction false} MapOfEntries(index: seq<Frame<Slot>>)
    requires Ascend(index)
    ensures forall i :: 0 <= i < |index| ==>
      index[i].pgno in MapOf(index) && MapOf(index)[index[i].pgno] == index[i].data
    ensures forall p :: p in MapOf(index) ==> Seen(index, |index|, p)
  {
    if index != [] {
      var n := |index| - 1;
      var init := index[..n];
      MapOfEntries(init);
      forall p | p in MapOf(index) ensures Seen(index, |index|, p) {
        if p == index[n].pgno {
          assert index[n].pgno == p;
        } else {
          assert Seen(init, n, p);
          var j :| 0 <= j < n && init[j].pgno == p;
          assert index[j].pgno == p;
        }
      }
    }
  }

  /// The cached map of an index finds each page's slot, and no other page.
  lemma MapOfIndex(lz: Lz4, pages: seq<Page>)
    requires Ascend(pages)
    ensures forall i :: 0 <= i < |pages| ==>
      pages[i].pgno in MapOf(IndexOf(lz, pages)) &&
      MapOf(IndexOf(lz, pages))[pages[i].pgno] == IndexOf(lz, pages)[i].data
    ensures forall p :: p in MapOf(IndexOf(lz, pages)) ==> Seen(pages, |pages|, p)
  {
    var index := IndexOf(lz, pages);
    IndexPgnos(lz, pages);
    MapOfEntries(index);
    forall p | p in MapOf(index) ensures Seen(pages, |pages|, p) {
      var j :| 0 <= j < |index| && index[j].pgno == p;
      assert pages[j].pgno == p;
    }
  }

  /// Through `index`, page `p` reads as `data`.
  ghost predicate Serves(lz: Lz4, bytes: seq<Byte>, index: map<nat, Slot>, pageSize: nat, p: nat, data: Data) {
    && p in index && index[p].offset + index[p].size <= |bytes|
    && DecodePageFrame(lz, bytes[index[p].offset..index[p].offset + index[p].size], pageSize) == Fine(Frame(p, data))
  }

  lemma ServesFrame(lz: Lz4, bytes: seq<Byte>, pages: seq<Page>, pageSize: nat, i: nat)
    requires Ascend(pages) && i < |pages| && SlotReads(lz, bytes, pages, i, pageSize)
    ensures Serves(lz, bytes, MapOf(IndexOf(lz, pages)), pageSize, pages[i].pgno, pages[i].data)
  {
    EntryInMap(lz, pages, i);
    var p, data := pages[i].pgno, pages[i].data;
    assert pages[i] == Frame(p, data);
  }

  lemma EntryInMap(lz: Lz4, pages: seq<Page>, i: nat)
    requires Ascend(pages) && i < |pages|
    ensures pages[i].pgno in MapOf(IndexOf(lz, pages)) &&
      MapOf(IndexOf(lz, pages))[pages[i].pgno] == IndexOf(lz, pages)[i].data
  {
    MapOfIndex(lz, pages);
  }

  lemma FrameOfPage(pages: map<nat, Data>, commit: nat, p: nat) returns (i: nat)
    requires 1 <= p <= commit && p in pages
    ensures i < |Frames(pages, commit)| && Frames(pages, commit)[i] == Frame(p, pages[p])
  {
    var frames := Frames(pages, commit);
    FramesListPages(pages, commit);
    assert Seen(frames, |frames|, p);
    i :| 0 <= i < |frames| && frames[i].pgno == p;
    assert IsFrameOf(frames[i], pages, commit);
  }

  lemma NoOtherSlot(lz: Lz4, pages: map<nat, Data>, commit: nat, p: nat)
    requires p !in pages
    ensures p !in MapOf(IndexOf(lz, Frames(pages, commit)))
  {
    var frames := Frames(pages, commit);
    FramesListPages(pages, commit);
    MapOfIndex(lz, frames);
    forall i | 0 <= i < |frames| ensures frames[i].pgno != p {}
  }

  /// A stored file's index has exactly its pages, and each slot reads as its page.
  lemma SlotOfPage(lz: Lz4, bytes: seq<Byte>, f: LtxFile<Data>, pageSize: nat, p: nat)
    requires Stores(lz, bytes, f, pageSize)
    ensures p !in f.pages ==> p !in IndexMap(lz, f)
    ensures p in f.pages ==> Serves(lz, bytes, IndexMap(lz, f), pageSize, p, f.pages[p])
  {
    if p in f.pages {
      var frames := Frames(f.pages, f.commit);
      var i := FrameOfPage(f.pages, f.commit, p);
      FileServes(lz, bytes, frames, pageSize, i);
    } else {
      NoOtherSlot(lz, f.pages, f.commit, p);
    }
  }

  lemma IndexServes(lz: Lz4, bytes: seq<Byte>, f: LtxFile<Data>, pageSize: nat, index: map<nat, Slot>, p: nat)
    requires Stores(lz, bytes, f, pageSize) && index == IndexMap(lz, f)
    ensures p in index <==> p in f.pages
    ensures p in index ==>
      && index[p].offset + index[p].size <= |bytes|
      && var slot := bytes[index[p].offset..index[p].offset + index[p].size];
      DecodePageFrame(lz, slot, pageSize) == Fine(Frame(p, f.pages[p]))
  {
    SlotOfPage(lz, bytes, f, pageSize, p);
  }

  lemma FileServes(lz: Lz4, bytes: seq<Byte>, pages: seq<Page>, pageSize: nat, i: nat)
    requires i < |pages| && exists h: Header, t: Trailer :: h.pageSize == pageSize && Readable(lz, bytes, h, pages, t)
    ensures Serves(lz, bytes, MapOf(IndexOf(lz, pages)), pageSize, pages[i].pgno, pages[i].data)
  {
    var h: Header, t: Trailer :| h.pageSize == pageSize && Readable(lz, bytes, h, pages, t);
    ServesFrame(lz, bytes, pages, pageSize, i);
  }

  /// Every non-lock page inside the database resolves, and to exactly the page a full restore
  /// of the plan holds.
  lemma ResolvedPageIsRestored(h: History<Data>, lock: nat, files: seq<LtxFile<Data>>, p: nat, zero: Data)
    requires WellFormed(h, lock) && AllDescribe(h, files) && ChainFrom(0, files) && files != []
    ensures EndOf(0, files) <= |h|
    ensures 1 <= p <= CommitAt(h, EndOf(0, files)) && p != lock ==>
      Resolve(files, p) == Version(State(h, EndOf(0, files), zero)[p - 1])
  {
    ChainReplays(h, lock, 0, files, zero);
    if 1 <= p <= CommitAt(h, EndOf(0, files)) && p != lock {
      OldestFirstPage([], files, lock, p, zero);
    }
  }
}
