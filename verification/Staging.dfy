/// The staging directory between the WAL and the replica (src/sync/mod.rs:288-340, 1075-1141,
/// 1196-1228; src/storage/mod.rs:102-178): write to a temporary name, rename, upload, remove,
/// with power failing anywhere, and what the next `open` makes of what is left.

module Staging {
  import opened Planner
  import opened Options

  const MULTIPART_THRESHOLD: nat := 16 * 1024 * 1024

  /// An LTX file as bytes to ship: the WAL position its header records, its size, the rest.
  datatype Object<F> = Object(walOffset: nat, walSize: nat, salt1: nat, salt2: nat, size: nat, body: F)

  type Objects<F> = map<FileKey, Object<F>>

  datatype Shipment = Shipped | Equivocation(txid: nat) | Died

  /// A small staged file whose key the replica holds with other contents.
  ghost predicate ConflictAt<F>(store: Objects<F>, staged: Objects<F>, k: FileKey) {
    k in staged && staged[k].size < MULTIPART_THRESHOLD && k in store && store[k] != staged[k]
  }

  ghost predicate Conflict<F>(store: Objects<F>, staged: Objects<F>) {
    exists k :: ConflictAt(store, staged, k)
  }

  /// Between two moments of recovery, no staged file was lost, nothing was shipped but staged
  /// files, and a conflicting object was not overwritten.
  ghost predicate Conserved<F>(store0: Objects<F>, staged0: Objects<F>, store: Objects<F>, staged: Objects<F>) {
    && (forall k :: k in staged ==> k in staged0 && staged[k] == staged0[k])
    && (forall k :: k in staged0 && k !in staged ==> k in store && store[k] == staged0[k])
    && (forall k :: k in store ==> (k in store0 && store[k] == store0[k]) || (k in staged0 && store[k] == staged0[k]))
    && (forall k :: k in store0 ==>
      k in store && (k !in staged0 || ConflictAt(store0, staged0, k) ==> store[k] == store0[k]))
  }

  /// Upload order.
  predicate Before(a: FileKey, b: FileKey) {
    a.min < b.min || (a.min == b.min && (a.max < b.max || (a.max == b.max && a.level <= b.level)))
  }

  lemma {:induction false} LeastKey(keys: set<FileKey>) returns (k: FileKey)
    requires keys != {}
    ensures k in keys && forall j :: j in keys ==> Before(k, j)
    decreases keys
  {
    var first :| first in keys;
    var others := keys - {first};
    assert keys == others + {first};
    k := first;
    if others != {} {
      var least := LeastKey(others);
      k := if Before(least, first) then least else first;
    }
  }

  // --- The machine --------------------------------------------------------------------------

  /// `power` is how many more operations complete before the machine dies. A renamed `.ltx`
  /// is durable and complete; a `.tmp` may be anything.
  class Site<F(==)> {
    var tmp: set<FileKey>
    var staged: Objects<F>
    var store: Objects<F>
    var power: nat

    method Step() returns (alive: bool)
      modifies this`power
      ensures alive <==> old(power) > 0
      ensures power == if alive then old(power) - 1 else 0
    {
      alive := power > 0;
      if alive {
        power := power - 1;
      }
    }

    /// `stage`: a crash leaves either no new `.ltx` or the complete one.
    method Stage(key: FileKey, file: Object<F>) returns (alive: bool)
      modifies this`tmp, this`staged, this`power
      ensures alive <==> old(power) >= 2
      ensures alive ==> staged == old(staged)[key := file] && tmp == old(tmp) - {key} && power == old(power) - 2
      ensures !alive ==> staged == old(staged)
    {
      alive := Step();
      if !alive { return; }
      tmp := tmp + {key};
      alive := Step();
      if !alive { return; }
      tmp := tmp - {key};
      staged := staged[key := file];
    }

    /// `upload_ltx_file`: put (if absent, for small files), then remove the staged copy.
    method UploadLtxFile(key: FileKey) returns (r: Shipment)
      requires key in staged
      modifies this`staged, this`store, this`power
      ensures Conserved(old(store), old(staged), store, staged)
      ensures r.Shipped? ==> staged == old(staged) - {key} && store == old(store)[key := old(staged)[key]]
      ensures r.Equivocation? ==> ConflictAt(old(store), old(staged), key) && r.txid == key.max
      ensures r.Shipped? ==> !ConflictAt(old(store), old(staged), key)
      ensures !r.Shipped? ==> staged == old(staged)
      ensures r.Died? ==> old(power) < 2
      ensures r.Shipped? ==> power == old(power) - 2
    {
      var file := staged[key];
      var alive := Step();
      if !alive { return Died; }
      if file.size >= MULTIPART_THRESHOLD || key !in store {
        store := store[key := file];
      } else if store[key] != file {
        return Equivocation(key.max);
      }
      alive := Step();
      if !alive { return Died; }
      staged := staged - {key};
      return Shipped;
    }

    /// `recover_staging`: drops debris, then ships every staged file in TXID order. Without a
    /// crash it ends with everything shipped, or with an equivocation exactly if some small
    /// file's key is taken by other contents; with a crash, nothing is lost. However it ends, what
    /// is no longer staged comes before what is, and an equivocation names the next in line.
    method RecoverStaging() returns (r: Shipment)
      modifies this
      ensures tmp == {}
      ensures Conserved(old(store), old(staged), store, staged)
      ensures r.Shipped? ==> staged == map[] && store == old(store) + old(staged) && !Conflict(old(store), old(staged))
      ensures r.Equivocation? ==> Conflict(old(store), old(staged))
      ensures ShippedInOrder(old(staged), staged)
      ensures r.Equivocation? ==> StopsAt(old(store), old(staged), staged, r.txid)
      ensures r.Died? ==> old(power) < 2 * |old(staged)|
      ensures r.Shipped? ==> power == old(power) - 2 * |old(staged)|
    {
      tmp := {};
      ghost var store0, staged0 := store, staged;
      var pending := staged.Keys;
      r := Shipped;
      while r.Shipped? && pending != {}
        invariant tmp == {} && Conserved(store0, staged0, store, staged) && ShippedInOrder(staged0, staged)
        invariant r.Shipped? ==>
          && Recovering(store0, staged0, store, staged) && pending == staged.Keys
          && power - 2 * |pending| == old(power) - 2 * |staged0|
        invariant r.Equivocation? ==> Conflict(store0, staged0) && StopsAt(store0, staged0, staged, r.txid)
        invariant r.Died? ==> old(power) < 2 * |staged0|
        decreases pending, r.Shipped?
      {
        ghost var least := LeastKey(pending);
        var key :| key in pending && forall j :: j in pending ==> Before(key, j);
        NextInOrder(staged0, staged, key);
        r := ShipNext(key, store0, staged0);
        if r.Shipped? {
          pending := pending - {key};
        } else {
          StopsHere(store0, staged0, staged, key);
        }
      }
      if r.Shipped? {
        Recovered(store0, staged0, store, staged);
      }
    }

    method ShipNext(key: FileKey, ghost store0: Objects<F>, ghost staged0: Objects<F>) returns (r: Shipment)
      requires key in staged && Recovering(store0, staged0, store, staged)
      modifies this`staged, this`store, this`power
      ensures Conserved(store0, staged0, store, staged)
      ensures r.Shipped? ==> staged == old(staged) - {key} && Recovering(store0, staged0, store, staged)
      ensures !r.Shipped? ==> staged == old(staged)
      ensures r.Equivocation? ==> ConflictAt(store0, staged0, key) && r.txid == key.max
      ensures r.Died? ==> old(power) < 2
      ensures r.Shipped? ==> power == old(power) - 2
    {
      ghost var store1, staged1 := store, staged;
      r := UploadLtxFile(key);
      ShippedOne(store0, staged0, store1, staged1, store, staged, key, r.Shipped?);
    }
  }

  /// Files are shipped first to last: by TXIDs, then by level.
  ghost predicate ShippedInOrder<F>(staged0: Objects<F>, staged: Objects<F>) {
    forall j, k :: j in staged0 && j !in staged && k in staged ==> Before(j, k)
  }

  /// The first file still staged is one whose key is taken.
  ghost predicate StopsAt<F>(store0: Objects<F>, staged0: Objects<F>, staged: Objects<F>, txid: nat) {
    exists k :: k in staged && k.max == txid && ConflictAt(store0, staged0, k) && IsFirst(staged, k)
  }

  ghost predicate IsFirst<F>(staged: Objects<F>, k: FileKey) {
    forall j :: j in staged ==> Before(k, j)
  }

  lemma StopsHere<F>(store0: Objects<F>, staged0: Objects<F>, staged: Objects<F>, k: FileKey)
    requires k in staged && IsFirst(staged, k)
    ensures ConflictAt(store0, staged0, k) ==> Conflict(store0, staged0) && StopsAt(store0, staged0, staged, k.max)
  {
  }

  lemma NextInOrder<F>(staged0: Objects<F>, staged: Objects<F>, key: FileKey)
    requires ShippedInOrder(staged0, staged) && IsFirst(staged, key)
    ensures ShippedInOrder(staged0, staged - {key})
  {
  }

  /// Part way through recovery: what was shipped is exactly what is no longer staged, and none
  /// of it was in conflict.
  ghost predicate Recovering<F>(store0: Objects<F>, staged0: Objects<F>, store: Objects<F>, staged: Objects<F>) {
    && Conserved(store0, staged0, store, staged)
    && store == store0 + (staged0 - staged.Keys)
    && forall k :: k in staged0 && k !in staged ==> !ConflictAt(store0, staged0, k)
  }

  /// However many times power fails during recovery, the run that completes leaves exactly
  /// what one uninterrupted run would have.
  method RecoverRepeatedly<F(==)>(site: Site<F>, powers: seq<nat>) returns (r: Shipment)
    requires powers != [] && !Conflict(site.store, site.staged)
    modifies site
    ensures !r.Equivocation? && Conserved(old(site.store), old(site.staged), site.store, site.staged)
    ensures r.Shipped? ==> site.staged == map[] && site.tmp == {} && site.store == old(site.store) + old(site.staged)
    ensures r.Died? ==> powers[|powers| - 1] < 2 * |old(site.staged)|
  {
    r := Died;
    for i := 0 to |powers|
      invariant Conserved(old(site.store), old(site.staged), site.store, site.staged)
      invariant !r.Equivocation? && (i > 0 && r.Died? ==> powers[i - 1] < 2 * |old(site.staged)|)
      invariant r.Shipped? ==> site.staged == map[] && site.tmp == {}
    {
      ghost var store, staged := site.store, site.staged;
      StillNoConflict(old(site.store), old(site.staged), store, staged);
      NoMoreStaged(old(site.staged), staged);
      site.power := powers[i];
      r := site.RecoverStaging();
      ConservedComposes(old(site.store), old(site.staged), store, staged, site.store, site.staged);
    }
    if r.Shipped? {
      AllShipped(old(site.store), old(site.staged), site.store);
    }
  }

  lemma Recovered<F>(store0: Objects<F>, staged0: Objects<F>, store: Objects<F>, staged: Objects<F>)
    requires Recovering(store0, staged0, store, staged) && staged.Keys == {}
    ensures staged == map[] && store == store0 + staged0 && !Conflict(store0, staged0)
  {
    assert staged0 - staged.Keys == staged0;
  }

  lemma ShippedOne<F>(store0: Objects<F>, staged0: Objects<F>, store1: Objects<F>, staged1: Objects<F>,
    store: Objects<F>, staged: Objects<F>, key: FileKey, shipped: bool)
    requires Recovering(store0, staged0, store1, staged1) && key in staged1
    requires Conserved(store1, staged1, store, staged)
    requires shipped ==>
      staged == staged1 - {key} && store == store1[key := staged1[key]] && !ConflictAt(store1, staged1, key)
    ensures Conserved(store0, staged0, store, staged)
    ensures shipped ==> Recovering(store0, staged0, store, staged)
    ensures ConflictAt(store1, staged1, key) ==> ConflictAt(store0, staged0, key)
  {
    StillConflicting(store0, staged0, store1, staged1);
    if shipped {
      assert staged0 - staged.Keys == (staged0 - staged1.Keys)[key := staged0[key]];
      assert store == store0 + (staged0 - staged.Keys);
    }
  }

  /// What was in conflict at the start is all that is in conflict later.
  lemma StillConflicting<F>(store0: Objects<F>, staged0: Objects<F>, store: Objects<F>, staged: Objects<F>)
    requires Recovering(store0, staged0, store, staged)
    ensures forall k :: k in staged0 ==> (ConflictAt(store0, staged0, k) <==> ConflictAt(store, staged, k))
  {
  }

  lemma NoMoreStaged<F>(staged0: Objects<F>, staged: Objects<F>)
    requires staged.Keys <= staged0.Keys
    ensures |staged| <= |staged0|
  {
    assert staged0.Keys == staged.Keys + (staged0.Keys - staged.Keys);
    assert |staged| == |staged.Keys| && |staged0| == |staged0.Keys|;
  }

  lemma StillNoConflict<F>(store0: Objects<F>, staged0: Objects<F>, store: Objects<F>, staged: Objects<F>)
    requires !Conflict(store0, staged0) && Conserved(store0, staged0, store, staged)
    ensures !Conflict(store, staged)
  {
    forall k ensures !ConflictAt(store, staged, k) {
      assert !ConflictAt(store0, staged0, k);
    }
  }

  lemma ConservedComposes<F>(store0: Objects<F>, staged0: Objects<F>, store1: Objects<F>, staged1: Objects<F>,
    store2: Objects<F>, staged2: Objects<F>)
    requires Conserved(store0, staged0, store1, staged1) && Conserved(store1, staged1, store2, staged2)
    requires !Conflict(store0, staged0)
    ensures Conserved(store0, staged0, store2, staged2)
  {
    forall k ensures !ConflictAt(store0, staged0, k) {}
    forall k | k in staged0 && k !in staged2 ensures k in store2 && store2[k] == staged0[k] {
      if k !in staged1 {
        assert k in store1 && store1[k] == staged0[k];
      }
    }
  }

  lemma AllShipped<F>(store0: Objects<F>, staged0: Objects<F>, store: Objects<F>)
    requires Conserved(store0, staged0, store, map[]) && !Conflict(store0, staged0)
    ensures store == store0 + staged0
  {
    forall k | k in store ensures k in store0 + staged0 && store[k] == (store0 + staged0)[k] {
      assert !ConflictAt(store0, staged0, k);
    }
  }

  // --- The position -----------------------------------------------------------------------------

  datatype Position = Position(txid: nat, walOffset: nat, salt1: nat, salt2: nat)

  /// The position a file's header records.
  function Recorded<F>(k: FileKey, f: Object<F>): Position {
    Position(k.max, f.walOffset + f.walSize, f.salt1, f.salt2)
  }

  /// `derive_position`: the newest TXID at any level, and the WAL state of the newest L0.
  method DerivePosition<F>(store: Objects<F>) returns (pos: Position)
    ensures store == map[] ==> pos == Position(0, 0, 0, 0)
    ensures forall k :: k in store ==> k.max <= pos.txid
    ensures store != map[] ==> exists k :: k in store && k.max == pos.txid
    ensures (forall k :: k in store ==> k.level != 0) ==> pos.walOffset == 0 && pos.salt1 == 0 && pos.salt2 == 0
    ensures forall k :: k in store && IsNewestL0(store, k) ==>
      pos.walOffset == store[k].walOffset + store[k].walSize && pos.salt1 == store[k].salt1 &&
        pos.salt2 == store[k].salt2
  {
    var txid: nat := 0;
    var newest: Option<FileKey> := None;
    var rest := store.Keys;
    while rest != {}
      invariant rest <= store.Keys
      invariant forall k :: k in store && k !in rest ==> k.max <= txid
      invariant if rest == store.Keys then txid == 0 else exists k :: k in store && k.max == txid
      invariant newest.Some? ==> newest.value in store && newest.value.level == 0
      invariant forall k :: k in store && k !in rest && k.level == 0 ==> newest.Some? && k.max <= newest.value.max
      decreases rest
    {
      var k :| k in rest;
      rest := rest - {k};
      if k.max >= txid { txid := k.max; }
      if k.level == 0 && (newest.None? || k.max > newest.value.max) { newest := Some(k); }
    }
    match newest {
      case None => pos := Position(txid, 0, 0, 0);
      case Some(k) =>
        pos := Recorded(k, store[k]).(txid := txid);
        forall j | j in store && IsNewestL0(store, j) ensures j == k {}
    }
  }

  /// The one L0 file reaching furthest.
  ghost predicate IsNewestL0<F>(store: Objects<F>, k: FileKey)
    requires k in store
  {
    k.level == 0 && forall j :: j in store && j.level == 0 && j != k ==> j.max < k.max
  }

  // --- Any number of boots -------------------------------------------------------------------------

  function L0Key(txid: nat): FileKey {
    FileKey(0, txid, txid)
  }

  /// `log` is every L0 file ever made durable, TXID 1 first. The newest is staged or stored,
  /// nothing else is staged, and nothing in the replica reaches past it.
  ghost predicate Tracks<F>(log: seq<Object<F>>, store: Objects<F>, staged: Objects<F>) {
    && (forall k :: k in staged ==> log != [] && k == L0Key(|log|) && staged[k] == log[|log| - 1])
    && (forall k :: k in store ==> 1 <= k.min <= k.max <= |log| && (k.level == 0 ==> k == L0Key(k.max)))
    && (L0Key(|log|) in store && log != [] ==> store[L0Key(|log|)] == log[|log| - 1])
    && (log != [] ==> L0Key(|log|) in store || L0Key(|log|) in staged)
  }

  /// What compaction, snapshots and retention may do to the replica between syncs: anything
  /// that keeps the newest L0 file and reaches no further.
  ghost predicate Maintains<F>(log: seq<Object<F>>, store: Objects<F>, next: Objects<F>) {
    && (forall k :: k in next ==> 1 <= k.min <= k.max <= |log| && (k.level == 0 ==> k in store && next[k] == store[k]))
    && (log != [] && L0Key(|log|) in store ==> L0Key(|log|) in next)
  }

  datatype Action<F> = SyncFile(file: Object<F>) | Maintenance(next: Objects<F>)

  datatype Boot<F> = Boot(power: nat, actions: seq<Action<F>>)

  /// `open`: recovery always succeeds unless power fails again, and the position derived is
  /// exactly the one recorded by the newest L0 file ever made durable.
  method Open<F(==)>(site: Site<F>, ghost log: seq<Object<F>>) returns (alive: bool, pos: Position)
    requires Tracks(log, site.store, site.staged)
    modifies site
    ensures Tracks(log, site.store, site.staged)
    ensures alive ==> site.staged == map[] && site.tmp == {} && site.power >= old(site.power) - 2
    ensures !alive ==> old(site.power) < 2
    ensures alive ==> pos == if log == [] then Position(0, 0, 0, 0) else Recorded(L0Key(|log|), log[|log| - 1])
  {
    pos := Position(0, 0, 0, 0);
    NoConflict(log, site.store, site.staged);
    AtMostOneStaged(log, site.store, site.staged);
    ghost var store, staged := site.store, site.staged;
    var r := site.RecoverStaging();
    RecoveryTracks(log, store, staged, site.store, site.staged);
    alive := r.Shipped?;
    if alive {
      pos := DerivePosition(site.store);
      if log != [] {
        NewestIsLogged(log, site.store);
      }
    }
  }

  lemma AtMostOneStaged<F>(log: seq<Object<F>>, store: Objects<F>, staged: Objects<F>)
    requires Tracks(log, store, staged)
    ensures |staged| <= 1
  {
    assert staged.Keys <= {L0Key(|log|)};
    assert {L0Key(|log|)} == staged.Keys + ({L0Key(|log|)} - staged.Keys);
    assert |staged| == |staged.Keys|;
  }

  lemma NoConflict<F>(log: seq<Object<F>>, store: Objects<F>, staged: Objects<F>)
    requires Tracks(log, store, staged)
    ensures !Conflict(store, staged)
  {
    forall k ensures !ConflictAt(store, staged, k) {}
  }

  lemma RecoveryTracks<F>(log: seq<Object<F>>, store0: Objects<F>, staged0: Objects<F>, store: Objects<F>,
    staged: Objects<F>)
    requires Tracks(log, store0, staged0) && Conserved(store0, staged0, store, staged)
    ensures Tracks(log, store, staged)
  {
  }

  lemma NewestIsLogged<F>(log: seq<Object<F>>, store: Objects<F>)
    requires Tracks(log, store, map[]) && log != []
    ensures L0Key(|log|) in store && IsNewestL0(store, L0Key(|log|)) && store[L0Key(|log|)] == log[|log| - 1]
  {
  }

  /// One sync: stage the next TXID's file, upload it, advance the position.
  method SyncOne<F(==)>(site: Site<F>, pos: Position, file: Object<F>, ghost log: seq<Object<F>>)
    returns (alive: bool, after: Position, ghost grown: seq<Object<F>>)
    requires Tracks(log, site.store, site.staged) && site.staged == map[] && pos.txid == |log|
    modifies site
    ensures Tracks(grown, site.store, site.staged)
    ensures grown == log || grown == log + [file]
    ensures alive ==> grown == log + [file] && site.staged == map[] && after == Recorded(L0Key(|grown|), file)
    ensures alive ==> site.power >= old(site.power) - 4
    ensures !alive ==> old(site.power) < 4
  {
    after, grown := pos, log;
    var key := L0Key(pos.txid + 1);
    alive := site.Stage(key, file);
    if !alive { return; }
    grown := log + [file];
    ghost var store, staged := site.store, site.staged;
    var r := site.UploadLtxFile(key);
    NoConflict(grown, store, staged);
    RecoveryTracks(grown, store, staged, site.store, site.staged);
    alive := r.Shipped?;
    if alive {
      after := Recorded(key, file);
    }
  }

  /// The files that `actions` sync.
  ghost function Synced<F>(actions: seq<Action<F>>): seq<Object<F>> {
    if actions == [] then []
    else
      var last := actions[|actions| - 1];
      Synced(actions[..|actions| - 1]) + if last.SyncFile? then [last.file] else []
  }

  /// The files of the first `done[i]` actions of each boot.
  ghost function Logged<F>(boots: seq<Boot<F>>, done: seq<nat>): seq<Object<F>>
    requires |done| <= |boots| && forall i :: 0 <= i < |done| ==> done[i] <= |boots[i].actions|
  {
    if done == [] then []
    else
      var i := |done| - 1;
      Logged(boots, done[..i]) + Synced(boots[i].actions[..done[i]])
  }

  /// Over any number of boots, each syncing and maintaining until it is done or dies at any
  /// operation: every file durably staged reaches the replica, none that was not, no boot ever
  /// reports an equivocation, and while alive the position in memory is exactly the one the
  /// newest durable file records. The log holds the files of each boot's first actions, all of
  /// them if its power lasts for what opening and syncing take.
  method Boots<F(==)>(site: Site<F>, boots: seq<Boot<F>>) returns (ghost log: seq<Object<F>>, ghost done: seq<nat>)
    requires site.store == map[] && site.staged == map[]
    modifies site
    ensures Tracks(log, site.store, site.staged)
    ensures |done| == |boots| && forall i :: 0 <= i < |boots| ==> done[i] <= |boots[i].actions|
    ensures log == Logged(boots, done)
    ensures forall i :: 0 <= i < |boots| && boots[i].power >= 2 + 4 * |boots[i].actions| ==>
      done[i] == |boots[i].actions|
  {
    log, done := [], [];
    for i := 0 to |boots|
      invariant Tracks(log, site.store, site.staged)
      invariant |done| == i && forall k :: 0 <= k < i ==> done[k] <= |boots[k].actions|
      invariant log == Logged(boots, done)
      invariant forall k :: 0 <= k < i && boots[k].power >= 2 + 4 * |boots[k].actions| ==> done[k] == |boots[k].actions|
    {
      ghost var n;
      log, n := RunBoot(site, boots[i], log);
      assert (done + [n])[..i] == done;
      done := done + [n];
    }
  }

  /// One boot.
  method RunBoot<F(==)>(site: Site<F>, boot: Boot<F>, ghost was: seq<Object<F>>)
    returns (ghost log: seq<Object<F>>, ghost done: nat)
    requires Tracks(was, site.store, site.staged)
    modifies site
    ensures Tracks(log, site.store, site.staged)
    ensures done <= |boot.actions| && log == was + Synced(boot.actions[..done])
    ensures boot.power >= 2 + 4 * |boot.actions| ==> done == |boot.actions|
  {
    log, done := was, 0;
    site.power := boot.power;
    var alive, pos := Open(site, log);
    var j := 0;
    while alive && j < |boot.actions|
      invariant Tracks(log, site.store, site.staged)
      invariant done <= j <= |boot.actions| && log == was + Synced(boot.actions[..done])
      invariant alive ==> done == j && site.power >= boot.power - 2 - 4 * j && site.staged == map[]
      invariant alive ==> pos == if log == [] then Position(0, 0, 0, 0) else Recorded(L0Key(|log|), log[|log| - 1])
      invariant !alive ==> boot.power < 2 + 4 * |boot.actions|
      decreases alive, |boot.actions| - j
    {
      assert boot.actions[..j + 1][..j] == boot.actions[..j];
      ghost var grown;
      alive, pos, grown := Act(site, pos, boot.actions[j], log);
      j := j + 1;
      done := if alive || grown != log then j else done;
      log := grown;
    }
  }

  /// One action of a boot.
  method Act<F(==)>(site: Site<F>, pos: Position, action: Action<F>, ghost log: seq<Object<F>>)
    returns (alive: bool, after: Position, ghost grown: seq<Object<F>>)
    requires Tracks(log, site.store, site.staged) && site.staged == map[]
    requires pos == if log == [] then Position(0, 0, 0, 0) else Recorded(L0Key(|log|), log[|log| - 1])
    modifies site
    ensures Tracks(grown, site.store, site.staged)
    ensures grown == log || (action.SyncFile? && grown == log + [action.file])
    ensures alive ==> (action.SyncFile? ==> grown == log + [action.file])
    ensures alive ==> site.power >= old(site.power) - 4 && site.staged == map[]
    ensures alive ==>
      after == if grown == [] then Position(0, 0, 0, 0) else Recorded(L0Key(|grown|), grown[|grown| - 1])
    ensures !alive ==> old(site.power) < 4
  {
    match action {
      case SyncFile(file) =>
        alive, after, grown := SyncOne(site, pos, file, log);
      case Maintenance(next) =>
        alive, after, grown := true, pos, log;
        var allowed := MaintenanceAllowed(site.store, next, pos.txid, log);
        if allowed {
          site.store := next;
        }
    }
  }

  /// Whether a proposed maintenance step is one the replica's own operations could make.
  method MaintenanceAllowed<F(==)>(store: Objects<F>, next: Objects<F>, txid: nat, ghost log: seq<Object<F>>)
    returns (ok: bool)
    requires txid == |log| && Tracks(log, store, map[])
    ensures ok <==> Maintains(log, store, next)
    ensures ok ==> Tracks(log, next, map[])
  {
    ok := (forall k :: k in next ==>
      1 <= k.min <= k.max <= txid && (k.level == 0 ==> k in store && next[k] == store[k]))
      && (txid > 0 && L0Key(txid) in store ==> L0Key(txid) in next);
  }
}
