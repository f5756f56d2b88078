/// The retention decisions of src/sync/retention.rs: which files of a level may go. Each
/// is the source's loop, proved to compute a function whose properties follow.

module Retention {
  import opened LtxFiles

  datatype Age = Unknown | At(time: int)

  /// A listed file with its creation time, which a backend may not report.
  datatype Entry<V> = Entry(file: LtxFile<V>, created: Age)

  type Level<V> = seq<Entry<V>>

  predicate Expired<V>(e: Entry<V>, cutoff: int) {
    e.created.At? && e.created.time < cutoff
  }

  predicate TooNew<V>(e: Entry<V>, cutoff: int) {
    e.created.At? && e.created.time > cutoff
  }

  // --- Selecting entries ---------------------------------------------------------------

  function Select<V>(files: Level<V>, p: Entry<V> -> bool): (r: Level<V>)
    ensures |r| <= |files|
  {
    if files == [] then []
    else
      var init, last := files[..|files| - 1], files[|files| - 1];
      Select(init, p) + if p(last) then [last] else []
  }

  lemma {:induction false} SelectMembers<V>(files: Level<V>, p: Entry<V> -> bool)
    ensures forall e :: e in Select(files, p) ==> e in files && p(e)
    ensures forall e :: e in files && p(e) ==> e in Select(files, p)
  {
    if files != [] {
      var init, last := files[..|files| - 1], files[|files| - 1];
      assert files == init + [last];
      SelectMembers(init, p);
    }
  }

  function IsExpired<V>(cutoff: int): Entry<V> -> bool {
    (e: Entry<V>) => Expired(e, cutoff)
  }

  function EndsBy<V>(txid: nat): Entry<V> -> bool {
    (e: Entry<V>) => e.file.max <= txid
  }

  function EndsBefore<V>(txid: nat): Entry<V> -> bool {
    (e: Entry<V>) => e.file.max < txid
  }

  function NotIn<V(==)>(gone: Level<V>): Entry<V> -> bool {
    (e: Entry<V>) => e !in gone
  }

  /// The level without the entries of `gone`.
  function Without<V(==)>(files: Level<V>, gone: Level<V>): Level<V> {
    Select(files, NotIn(gone))
  }

  lemma WithoutMembers<V>(files: Level<V>, gone: Level<V>)
    ensures forall e :: e in Without(files, gone) ==> e in files && e !in gone
    ensures forall e :: e in files && e !in gone ==> e in Without(files, gone)
  {
    SelectMembers(files, NotIn(gone));
  }

  /// Listed in TXID order: later entries reach further.
  ghost predicate Ordered<V>(files: Level<V>) {
    forall i, j :: 0 <= i < j < |files| ==> files[i].file.max < files[j].file.max
  }

  function Last<V>(files: Level<V>): Entry<V>
    requires files != []
  {
    files[|files| - 1]
  }

  /// How far a level reaches: the largest `max` in it, 0 when empty.
  function Reach<V>(files: Level<V>): nat {
    if files == [] then 0 else Last(files).file.max
  }

  /// Selection keeps the order, and keeps the newest entry if it selects it.
  lemma {:induction false} SelectOrdered<V>(files: Level<V>, p: Entry<V> -> bool)
    requires Ordered(files)
    ensures Ordered(Select(files, p))
    ensures files != [] && p(Last(files)) ==> Select(files, p) != [] && Last(Select(files, p)) == Last(files)
  {
    if files != [] {
      var init, last := files[..|files| - 1], files[|files| - 1];
      SelectOrdered(init, p);
      SelectMembers(init, p);
      var kept := Select(init, p);
      forall i | 0 <= i < |kept| ensures kept[i].file.max < last.file.max {
        assert kept[i] in init;
        var k :| 0 <= k < |init| && init[k] == kept[i];
        assert files[k] == kept[i];
      }
    }
  }

  /// What no entry of an ordered level fails is everything, and what is monotone along it
  /// selects a prefix.
  lemma {:induction false} SelectPrefix<V>(files: Level<V>, p: Entry<V> -> bool, n: nat)
    requires n <= |files|
    requires forall i :: 0 <= i < |files| ==> (p(files[i]) <==> i < n)
    ensures Select(files, p) == files[..n]
  {
    if files != [] {
      var k := |files| - 1;
      var init := files[..k];
      SelectPrefix(init, p, if n < k then n else k);
      if n == |files| {
        assert files[..n] == init + [files[k]];
      } else {
        assert init[..n] == files[..n];
      }
    }
  }

  lemma {:induction false} SelectSuffix<V>(files: Level<V>, p: Entry<V> -> bool, n: nat)
    requires n <= |files|
    requires forall i :: 0 <= i < |files| ==> (p(files[i]) <==> i >= n)
    ensures Select(files, p) == files[n..]
  {
    if files != [] {
      var k := |files| - 1;
      var init := files[..k];
      SelectSuffix(init, p, if n < k then n else k);
      if n <= k {
        assert files[n..] == init[n..] + [files[k]];
      }
    }
  }

  // --- The decisions -----------------------------------------------------------------------

  /// Never delete the newest file of a level.
  function KeepNewest<V(==)>(files: Level<V>, deleted: Level<V>): (r: Level<V>)
    ensures r <= deleted
  {
    if files != [] && deleted != [] && Last(deleted) == Last(files) then deleted[..|deleted| - 1] else deleted
  }

  /// The smallest `max` among entries not expired, 0 if there is none.
  function MinRetained<V>(files: Level<V>, cutoff: int): nat {
    if files == [] then 0
    else
      var m, last := MinRetained(files[..|files| - 1], cutoff), files[|files| - 1];
      if Expired(last, cutoff) then m
      else if m == 0 || last.file.max < m then last.file.max else m
  }

  /// It is the `max` of an entry, and no entry kept by age ends before it.
  lemma {:induction false} MinRetainedIsLeast<V>(files: Level<V>, cutoff: int)
    requires forall i :: 0 <= i < |files| ==> files[i].file.max > 0
    ensures MinRetained(files, cutoff) > 0 <==> exists i :: 0 <= i < |files| && !Expired(files[i], cutoff)
    ensures MinRetained(files, cutoff) > 0 ==>
      exists i :: 0 <= i < |files| && !Expired(files[i], cutoff) && files[i].file.max == MinRetained(files, cutoff)
    ensures forall i :: 0 <= i < |files| && !Expired(files[i], cutoff) ==>
      MinRetained(files, cutoff) <= files[i].file.max
  {
    if files != [] {
      var n := |files| - 1;
      var init := files[..n];
      MinRetainedIsLeast(init, cutoff);
      assert forall i :: 0 <= i < n ==> init[i] == files[i];
      assert MinRetained(init, cutoff) > 0 ==>
        exists i :: 0 <= i < n && files[i] == init[i] && !Expired(init[i], cutoff);
    }
  }

  ghost function ExpiredSnapshots<V>(files: Level<V>, cutoff: int): Level<V> {
    KeepNewest(files, Select(files, IsExpired<V>(cutoff)))
  }

  /// `snapshot_expired`: of a listed level, in order, exactly the entries known to be older
  /// than the cutoff other than the newest.
  method SnapshotExpired<V(==)>(files: Level<V>, cutoff: int) returns (deleted: Level<V>, minRetained: nat)
    ensures deleted == ExpiredSnapshots(files, cutoff)
    ensures Ordered(files) ==> Ordered(deleted)
    ensures Ordered(files) ==> forall e :: e in deleted <==>
      e in files && e.created.At? && e.created.time < cutoff && e != Last(files)
    ensures minRetained == MinRetained(files, cutoff)
  {
    deleted, minRetained := [], 0;
    for i := 0 to |files|
      invariant deleted == Select(files[..i], IsExpired<V>(cutoff))
      invariant minRetained == MinRetained(files[..i], cutoff)
    {
      assert files[..i + 1][..i] == files[..i];
      if Expired(files[i], cutoff) {
        deleted := deleted + [files[i]];
      } else if minRetained == 0 || files[i].file.max < minRetained {
        minRetained := files[i].file.max;
      }
    }
    assert files[..|files|] == files;
    deleted := KeepNewest(files, deleted);
    if Ordered(files) {
      SelectOrdered(files, IsExpired<V>(cutoff));
      forall e
        ensures e in deleted <==> e in files && e.created.At? && e.created.time < cutoff && e != Last(files)
      {
        KeepsNewest(files, IsExpired<V>(cutoff), e);
      }
    }
  }

  /// The entries before the first one newer than the cutoff.
  ghost function OldHead<V>(files: Level<V>, cutoff: int): (r: Level<V>)
    ensures r <= files
  {
    if files == [] || TooNew(files[0], cutoff) then [] else [files[0]] + OldHead(files[1..], cutoff)
  }

  ghost function ExpiredL0<V>(files: Level<V>, maxL1: nat, cutoff: int): Level<V> {
    if maxL1 == 0 then []
    else
      var head := OldHead(files, cutoff);
      var deleted := Select(head, EndsBy<V>(maxL1));
      if head == files then KeepNewest(files, deleted) else deleted
  }

  lemma {:induction false} OldHeadIs<V>(files: Level<V>, cutoff: int, n: nat)
    requires n <= |files|
    requires forall i :: 0 <= i < n ==> !TooNew(files[i], cutoff)
    requires n < |files| ==> TooNew(files[n], cutoff)
    ensures OldHead(files, cutoff) == files[..n]
  {
    if n > 0 {
      OldHeadIs(files[1..], cutoff, n - 1);
      assert files[..n] == [files[0]] + files[1..][..n - 1];
    }
  }

  /// It ends at the first entry newer than the cutoff.
  lemma {:induction false} OldHeadEnds<V>(files: Level<V>, cutoff: int)
    ensures forall i :: 0 <= i < |OldHead(files, cutoff)| ==> !TooNew(files[i], cutoff)
    ensures |OldHead(files, cutoff)| < |files| ==> TooNew(files[|OldHead(files, cutoff)|], cutoff)
  {
    if files != [] && !TooNew(files[0], cutoff) {
      OldHeadEnds(files[1..], cutoff);
    }
  }

  /// `l0_expired`: of a listed level, exactly the leading entries that are folded into L1
  /// and not the newest, up to the first known to be newer than the cutoff.
  method L0Expired<V(==)>(files: Level<V>, maxL1: nat, cutoff: int) returns (deleted: Level<V>)
    ensures deleted == ExpiredL0(files, maxL1, cutoff)
    ensures Ordered(files) ==> deleted <= files
    ensures Ordered(files) ==> forall i :: 0 <= i < |files| ==>
      (i < |deleted| <==>
        && 0 < maxL1 && files[i].file.max <= maxL1 && i < |files| - 1
        && forall j :: 0 <= j <= i && files[j].created.At? ==> files[j].created.time <= cutoff)
  {
    if Ordered(files) {
      var n := L0ExpiredIsPrefix(files, maxL1, cutoff);
    }
    deleted := [];
    if maxL1 == 0 {
      return;
    }
    var processedAll, i := true, 0;
    while i < |files|
      invariant 0 <= i <= |files|
      invariant processedAll && forall j :: 0 <= j < i ==> !TooNew(files[j], cutoff)
      invariant deleted == Select(files[..i], EndsBy<V>(maxL1))
    {
      if TooNew(files[i], cutoff) {
        processedAll := false;
        break;
      }
      assert files[..i + 1][..i] == files[..i];
      if files[i].file.max <= maxL1 {
        deleted := deleted + [files[i]];
      }
      i := i + 1;
    }
    OldHeadIs(files, cutoff, i);
    if processedAll {
      assert files[..i] == files;
      deleted := KeepNewest(files, deleted);
    }
  }

  ghost function ExpiredBelow<V>(files: Level<V>, txid: nat): Level<V> {
    KeepNewest(files, Select(files, EndsBefore<V>(txid)))
  }

  /// `below_txid`: of a listed level, a prefix, and exactly the entries ending below `txid`
  /// other than the newest.
  method BelowTxid<V(==)>(files: Level<V>, txid: nat) returns (deleted: Level<V>)
    ensures deleted == ExpiredBelow(files, txid)
    ensures Ordered(files) ==> deleted <= files
    ensures Ordered(files) ==> forall e :: e in deleted <==> e in files && e.file.max < txid && e != Last(files)
  {
    deleted := KeepNewest(files, Select(files, EndsBefore<V>(txid)));
    if Ordered(files) {
      var n := BelowTxidIsPrefix(files, txid);
      forall e ensures e in deleted <==> e in files && e.file.max < txid && e != Last(files) {
        KeepsNewest(files, EndsBefore<V>(txid), e);
      }
    }
  }

  // --- What the decisions promise ----------------------------------------------------------

  /// Every decision deletes only listed files and never the newest; snapshot and TXID
  /// retention delete exactly the other eligible ones.
  lemma KeepsNewest<V>(files: Level<V>, p: Entry<V> -> bool, e: Entry<V>)
    requires Ordered(files)
    ensures e in KeepNewest(files, Select(files, p)) <==> e in files && p(e) && e != Last(files)
  {
    SelectOrdered(files, p);
    SelectMembers(files, p);
    NewestKept(files, Select(files, p), e);
  }

  lemma NewestKept<V>(files: Level<V>, deleted: Level<V>, e: Entry<V>)
    requires Ordered(deleted) && forall d :: d in deleted ==> d in files
    requires files != [] && Last(files) in deleted ==> deleted != [] && Last(deleted) == Last(files)
    ensures e in KeepNewest(files, deleted) <==> e in deleted && e != Last(files)
  {
    if deleted != [] {
      var n := |deleted| - 1;
      assert deleted == deleted[..n] + [deleted[n]];
      assert deleted[n] !in deleted[..n];
    }
  }

  lemma KeepNewestPrefix<V>(files: Level<V>, n: nat)
    requires Ordered(files) && n <= |files|
    ensures KeepNewest(files, files[..n]) == files[..if 0 < n == |files| then n - 1 else n]
  {
    if 0 < n == |files| {
      assert files[..n] == files;
      assert files[..n][..n - 1] == files[..n - 1];
    }
  }

  /// On an ordered level, L0 retention deletes a proper prefix: exactly as far as everything
  /// is folded into L1 and nothing is known to be newer than the cutoff.
  lemma L0ExpiredIsPrefix<V>(files: Level<V>, maxL1: nat, cutoff: int) returns (n: nat)
    requires Ordered(files)
    ensures n <= |files| && (files != [] ==> n < |files|)
    ensures ExpiredL0(files, maxL1, cutoff) == files[..n]
    ensures forall i :: 0 <= i < |files| ==>
      (i < n <==>
        && 0 < maxL1 && files[i].file.max <= maxL1 && i < |files| - 1
        && forall j :: 0 <= j <= i && files[j].created.At? ==> files[j].created.time <= cutoff)
  {
    n := 0;
    if maxL1 == 0 {
      return;
    }
    OldHeadEnds(files, cutoff);
    var k := |OldHead(files, cutoff)|;
    assert OldHead(files, cutoff) == files[..k];
    n := FoldedPrefix(files, k, maxL1);
    if k == |files| {
      KeepNewestPrefix(files, n);
      n := if 0 < n == |files| then n - 1 else n;
    }
  }

  /// Of the first `k` entries, those ending by `bound` are again a prefix.
  lemma FoldedPrefix<V>(files: Level<V>, k: nat, bound: nat) returns (n: nat)
    requires Ordered(files) && k <= |files|
    ensures n <= k && Select(files[..k], EndsBy(bound)) == files[..n]
    ensures forall i :: 0 <= i < k ==> (files[i].file.max <= bound <==> i < n)
  {
    var head := files[..k];
    n := CountUpTo(head, bound);
    SelectPrefix(head, EndsBy(bound), n);
    assert head[..n] == files[..n];
    forall i | 0 <= i < k ensures files[i].file.max <= bound <==> i < n {
      assert head[i] == files[i];
    }
  }

  /// How many leading entries of an ordered level end by `bound`.
  lemma {:induction false} CountUpTo<V>(files: Level<V>, bound: nat) returns (n: nat)
    requires Ordered(files)
    ensures n <= |files|
    ensures forall i :: 0 <= i < |files| ==> (files[i].file.max <= bound <==> i < n)
  {
    n := 0;
    while n < |files| && files[n].file.max <= bound
      invariant n <= |files|
      invariant forall i :: 0 <= i < n ==> files[i].file.max <= bound
    {
      n := n + 1;
    }
  }

  /// On an ordered level, TXID retention deletes a proper prefix too.
  lemma BelowTxidIsPrefix<V>(files: Level<V>, txid: nat) returns (n: nat)
    requires Ordered(files)
    ensures n <= |files| && (files != [] ==> n < |files|)
    ensures ExpiredBelow(files, txid) == files[..n]
    ensures forall i :: 0 <= i < n ==> files[i].file.max < txid
  {
    n := 0;
    if txid == 0 {
      SelectPrefix(files, EndsBefore<V>(txid), 0);
      return;
    }
    n := CountUpTo(files, txid - 1);
    SelectPrefix(files, EndsBefore<V>(txid), n);
    KeepNewestPrefix(files, n);
    n := if 0 < n == |files| then n - 1 else n;
  }

  /// Deleting a prefix of an ordered level leaves the suffix.
  lemma WithoutPrefix<V>(files: Level<V>, n: nat)
    requires Ordered(files) && n <= |files|
    ensures Without(files, files[..n]) == files[n..]
  {
    forall i | 0 <= i < |files| ensures files[i] !in files[..n] <==> i >= n {
      if i < n { assert files[..n][i] == files[i]; }
    }
    SelectSuffix(files, NotIn(files[..n]), n);
  }
}
