/// The semantic base: a replicated database is a history of transactions, each a partial map
/// from page numbers to page contents plus the size it commits.

module History {
  // Everything is generic in the page contents `V`, because the same algebra is used for page
  // images (restore, merge) and for WAL frame offsets (the WAL reader).

  /// One replicated transaction. TXIDs are 1-based: `h[t - 1]` is transaction `t`.
  datatype Tx<V> = Tx(pages: map<nat, V>, commit: nat)

  type History<V> = seq<Tx<V>>

  /// Database size in pages after transaction `t`; the empty database has size 0.
  ghost function CommitAt<V>(h: History<V>, t: nat): nat
    requires t <= |h|
  {
    if t == 0 then 0 else h[t - 1].commit
  }

  /// Transaction `t` writes page `p`.
  ghost predicate Writes<V>(h: History<V>, t: nat, p: nat)
    requires 1 <= t <= |h|
  {
    p in h[t - 1].pages
  }

  /// SQLite's promise, named at src/sync/restore.rs:601-604: a transaction that grows
  /// the database writes every page it adds, and nothing ever writes page 0 or the
  /// lock page.
  ghost predicate WellFormedAt<V>(h: History<V>, lock: nat, t: nat)
    requires 1 <= t <= |h|
  {
    && !Writes(h, t, 0)
    && !Writes(h, t, lock)
    && forall p :: CommitAt(h, t - 1) < p <= CommitAt(h, t) && p != lock ==> Writes(h, t, p)
  }

  ghost predicate WellFormed<V>(h: History<V>, lock: nat) {
    forall t :: 1 <= t <= |h| ==> WellFormedAt(h, lock, t)
  }

  /// Resize `image` to `commit` pages (zero-filling growth), then lay `pages` over it.
  function Overlay<V>(image: seq<V>, pages: map<nat, V>, commit: nat, zero: V): (r: seq<V>)
    ensures |r| == commit
  {
    seq(commit, i requires 0 <= i < commit =>
      if i + 1 in pages then pages[i + 1] else if i < |image| then image[i] else zero)
  }

  /// The database image after transaction `t`.
  ghost function State<V>(h: History<V>, t: nat, zero: V): (r: seq<V>)
    requires t <= |h|
    ensures |r| == CommitAt(h, t)
  {
    if t == 0 then [] else Overlay(State(h, t - 1, zero), h[t - 1].pages, h[t - 1].commit, zero)
  }

  /// Every page written by transactions `a..=b`, the latest write winning.
  ghost function Newest<V>(h: History<V>, a: nat, b: nat): map<nat, V>
    requires b <= |h|
  {
    if b < a || b == 0 then map[] else Newest(h, a, b - 1) + h[b - 1].pages
  }

  function Trim<V>(pages: map<nat, V>, commit: nat): map<nat, V> {
    map p | p in pages && p <= commit :: pages[p]
  }

  /// What an LTX file for `a..=b` holds: the newest version of each page written in
  /// the range, without the pages past the database size at `b`.
  ghost function Summary<V>(h: History<V>, a: nat, b: nat): map<nat, V>
    requires b <= |h|
  {
    Trim(Newest(h, a, b), CommitAt(h, b))
  }

  /// The last transaction at or before `b` that wrote page `p`, or 0.
  ghost function LastWrite<V>(h: History<V>, p: nat, b: nat): (t: nat)
    requires b <= |h|
    ensures t <= b
    ensures t > 0 ==> Writes(h, t, p)
    ensures forall u :: t < u <= b ==> !Writes(h, u, p)
  {
    if b == 0 then 0 else if p in h[b - 1].pages then b else LastWrite(h, p, b - 1)
  }

  lemma LastWriteUnique<V>(h: History<V>, p: nat, t: nat, b: nat)
    requires t <= b <= |h|
    requires LastWrite(h, p, b) <= t
    ensures LastWrite(h, p, t) == LastWrite(h, p, b)
  {
    var u, v := LastWrite(h, p, t), LastWrite(h, p, b);
    assert u > 0 ==> Writes(h, u, p);
    assert v > 0 ==> Writes(h, v, p);
  }

  lemma {:induction false} NewestIsLastWrite<V>(h: History<V>, a: nat, b: nat, p: nat)
    requires 1 <= a && b <= |h|
    ensures p in Newest(h, a, b) <==> LastWrite(h, p, b) >= a
    ensures p in Newest(h, a, b) ==> Newest(h, a, b)[p] == h[LastWrite(h, p, b) - 1].pages[p]
  {
    if a <= b && p !in h[b - 1].pages {
      NewestIsLastWrite(h, a, b - 1, p);
    }
  }

  /// A page inside the database at `b` has been inside it ever since its last write:
  /// had the database shrunk below it and grown back, growth would have written it.
  lemma {:induction false} AliveSinceLastWrite<V>(h: History<V>, lock: nat, p: nat, u: nat, b: nat)
    requires WellFormed(h, lock)
    requires u <= b <= |h|
    requires 1 <= p <= CommitAt(h, b) && p != lock
    requires LastWrite(h, p, b) <= u
    ensures 1 <= LastWrite(h, p, b)
    ensures p <= CommitAt(h, u)
    decreases b
  {
    assert WellFormedAt(h, lock, b);
    if !Writes(h, b, p) {
      assert p <= CommitAt(h, b - 1);
      if u < b {
        AliveSinceLastWrite(h, lock, p, u, b - 1);
      } else {
        AliveSinceLastWrite(h, lock, p, b - 1, b - 1);
      }
    }
  }

  /// Shrinks and regrowths leave no trace: each page of `State(t)` is its last write,
  /// and the lock page is always zero.
  lemma {:induction false} StateIsLastWrite<V>(h: History<V>, lock: nat, t: nat, p: nat, zero: V)
    requires WellFormed(h, lock)
    requires t <= |h| && 1 <= p <= CommitAt(h, t)
    ensures p == lock ==> State(h, t, zero)[p - 1] == zero
    ensures p != lock ==>
      1 <= LastWrite(h, p, t) && State(h, t, zero)[p - 1] == h[LastWrite(h, p, t) - 1].pages[p]
  {
    assert WellFormedAt(h, lock, t);
    if !Writes(h, t, p) && p <= CommitAt(h, t - 1) {
      StateIsLastWrite(h, lock, t - 1, p, zero);
    }
  }

  /// A page is in `Summary(a, b)` exactly when it lies inside the database at `b` and
  /// was last written at or after `a`; its content is then the page of `State(b)`.
  lemma SummaryPage<V>(h: History<V>, lock: nat, a: nat, b: nat, p: nat, zero: V)
    requires WellFormed(h, lock) && 1 <= a && b <= |h|
    ensures p in Summary(h, a, b) <==>
      1 <= p <= CommitAt(h, b) && p != lock && LastWrite(h, p, b) >= a
    ensures p in Summary(h, a, b) ==> Summary(h, a, b)[p] == State(h, b, zero)[p - 1]
  {
    NewestIsLastWrite(h, a, b, p);
    var w := LastWrite(h, p, b);
    if w >= 1 { assert WellFormedAt(h, lock, w); }
    if 1 <= p <= CommitAt(h, b) {
      StateIsLastWrite(h, lock, b, p, zero);
    }
  }

  /// A page of `State(b)` that no transaction in `a..=b` wrote was already there, with
  /// the same content, at every TXID from `a - 1` on.
  lemma UnwrittenPage<V>(h: History<V>, lock: nat, t: nat, b: nat, p: nat, zero: V)
    requires WellFormed(h, lock) && t <= b <= |h|
    requires 1 <= p <= CommitAt(h, b)
    requires LastWrite(h, p, b) <= t
    ensures p != lock ==> p <= CommitAt(h, t)
    ensures p <= CommitAt(h, t) ==> State(h, t, zero)[p - 1] == State(h, b, zero)[p - 1]
  {
    StateIsLastWrite(h, lock, b, p, zero);
    if p != lock {
      AliveSinceLastWrite(h, lock, p, t, b);
    }
    if p <= CommitAt(h, t) {
      StateIsLastWrite(h, lock, t, p, zero);
      LastWriteUnique(h, p, t, b);
    }
  }

  /// The step every restore rests on: laying a file for `a..=b` over *any* state it is
  /// contiguous with or straddles gives exactly `State(b)`.
  lemma ApplySummary<V>(h: History<V>, lock: nat, t: nat, a: nat, b: nat, zero: V)
    requires WellFormed(h, lock)
    requires 1 <= a <= t + 1 && t <= b <= |h|
    ensures Overlay(State(h, t, zero), Summary(h, a, b), CommitAt(h, b), zero) == State(h, b, zero)
  {
    var over := Overlay(State(h, t, zero), Summary(h, a, b), CommitAt(h, b), zero);
    forall i | 0 <= i < |over| ensures over[i] == State(h, b, zero)[i] {
      var p := i + 1;
      SummaryPage(h, lock, a, b, p, zero);
      StateIsLastWrite(h, lock, b, p, zero);
      if LastWrite(h, p, b) <= t {
        UnwrittenPage(h, lock, t, b, p, zero);
      } else if p == lock {
        assert WellFormedAt(h, lock, LastWrite(h, p, b));
      }
    }
  }

  /// `State`, `Summary` and `CommitAt` of a TXID never change as the history grows.
  lemma {:induction false} PrefixStable<V>(h: History<V>, k: History<V>, a: nat, b: nat, zero: V)
    requires h <= k && b <= |h|
    ensures CommitAt(k, b) == CommitAt(h, b)
    ensures State(k, b, zero) == State(h, b, zero)
    ensures Newest(k, a, b) == Newest(h, a, b)
    ensures Summary(k, a, b) == Summary(h, a, b)
  {
    if b > 0 {
      PrefixStable(h, k, a, b - 1, zero);
    }
  }

  lemma WellFormedPrefix<V>(h: History<V>, k: History<V>, lock: nat)
    requires h <= k && WellFormed(k, lock)
    ensures WellFormed(h, lock)
  {
    forall t | 1 <= t <= |h| ensures WellFormedAt(h, lock, t) {
      assert WellFormedAt(k, lock, t);
      assert CommitAt(h, t - 1) == CommitAt(k, t - 1);
      assert forall p :: Writes(h, t, p) <==> Writes(k, t, p);
    }
  }

  /// Dropping unshipped pages (those past a transaction's own commit size) and grouping
  /// consecutive transactions into one both leave every image unchanged: this is what
  /// lets a single sync ship several application commits as one transaction.
  lemma GroupingPreservesState<V>(h: History<V>, lock: nat, t: nat, zero: V)
    requires WellFormed(h, lock) && t < |h|
    ensures var grouped := h[..t] + [Tx(Summary(h, t + 1, |h|), CommitAt(h, |h|))];
      && WellFormed(grouped, lock)
      && State(grouped, t + 1, zero) == State(h, |h|, zero)
  {
    var g := Tx(Summary(h, t + 1, |h|), CommitAt(h, |h|));
    var grouped := h[..t] + [g];
    PrefixStable(h[..t], h, 1, t, zero);
    PrefixStable(h[..t], grouped, 1, t, zero);
    ApplySummary(h, lock, t, t + 1, |h|, zero);
    GroupingIsWellFormed(h, lock, t, zero);
  }

  lemma GroupingIsWellFormed<V>(h: History<V>, lock: nat, t: nat, zero: V)
    requires WellFormed(h, lock) && t < |h|
    ensures WellFormed(h[..t] + [Tx(Summary(h, t + 1, |h|), CommitAt(h, |h|))], lock)
  {
    var g := Tx(Summary(h, t + 1, |h|), CommitAt(h, |h|));
    var grouped := h[..t] + [g];
    forall u | 1 <= u <= t + 1 ensures WellFormedAt(grouped, lock, u) {
      if u <= t {
        assert WellFormedAt(h, lock, u);
        assert forall p :: Writes(grouped, u, p) <==> Writes(h, u, p);
        assert CommitAt(grouped, u - 1) == CommitAt(h, u - 1);
      } else {
        SummaryPage(h, lock, t + 1, |h|, 0, zero);
        SummaryPage(h, lock, t + 1, |h|, lock, zero);
        forall p | CommitAt(grouped, t) < p <= g.commit && p != lock ensures Writes(grouped, u, p) {
          assert CommitAt(grouped, t) == CommitAt(h, t);
          SummaryPage(h, lock, t + 1, |h|, p, zero);
          if LastWrite(h, p, |h|) <= t {
            AliveSinceLastWrite(h, lock, p, t, |h|);
          }
        }
      }
    }
  }
}
