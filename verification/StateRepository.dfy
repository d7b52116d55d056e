/**
 The repository in front of the storage (mls-rs/src/group/state_repo.rs): it collects new epochs and
 changes to old ones, and hands them to one transaction.
 */
module StateRepository {
  import opened Bytes
  import opened GroupState

  datatype RepoError = GroupIdMismatch | InvalidEpoch | GroupStorageError | KeyPackageRepoError

  /** `pending_commit` of the repository of one group, and whether it has a key package to remove. */
  datatype Repo = Repo(group: GroupId, inserts: seq<EpochRecord>, updates: seq<EpochRecord>, removal: bool)

  /** The largest stored epoch of the group, as the storage answers. */
  ghost function MaxEpoch(t: EpochTable, g: GroupId): (r: Option<nat>)
    ensures IsMaxEpoch(t, g, r)
  {
    if Ids(t, g) == {} then None
    else
      HasMaximum(Ids(t, g));
      var m :| m in Ids(t, g) && forall id :: id in Ids(t, g) ==> id <= m;
      Some(m)
  }

  lemma {:induction false} HasMaximum(s: set<nat>)
    requires s != {}
    ensures exists m :: m in s && forall x :: x in s ==> x <= m
  {
    var x :| x in s;
    if s != {x} {
      var s' := s - {x};
      HasMaximum(s');
      var m :| m in s' && forall y :: y in s' ==> y <= m;
      var top := if x > m then x else m;
      assert top in s && forall y :: y in s ==> y <= top by {
        forall y | y in s ensures y <= top { if y != x { assert y in s'; } }
      }
    } else {
      assert forall y :: y in s ==> y <= x;
    }
  }

  ghost function FindMaxId(t: EpochTable, r: Repo): Option<nat> {
    if |r.inserts| > 0 then Some(r.inserts[|r.inserts| - 1].id) else MaxEpoch(t, r.group)
  }

  /** `insert`: only the successor of the newest known epoch is accepted, anything if none is known. */
  ghost function InsertEpoch(t: EpochTable, r: Repo, g: GroupId, rec: EpochRecord): Result<Repo, RepoError> {
    if g != r.group then Err(GroupIdMismatch)
    else
      var newest := FindMaxId(t, r);
      if newest.Some? && rec.id != newest.value + 1 then Err(InvalidEpoch)
      else Ok(r.(inserts := r.inserts + [rec]))
  }

  /** The caller changes an epoch it obtained through `get_epoch_mut`. */
  function ChangeEpoch(t: EpochTable, r: Repo, id: nat, data: ByteSeq): Repo {
    if |r.inserts| > 0 && id >= r.inserts[0].id then
      var at := id - r.inserts[0].id;
      if at < |r.inserts| then r.(inserts := r.inserts[at := EpochRecord(r.inserts[at].id, data)]) else r
    else if exists i :: 0 <= i < |r.updates| && r.updates[i].id == id then
      r.(updates := Changed(r.updates, id, data))
    else if (r.group, id) in t then r.(updates := r.updates + [EpochRecord(id, data)])
    else r
  }

  function Changed(recs: seq<EpochRecord>, id: nat, data: ByteSeq): seq<EpochRecord> {
    if |recs| == 0 then []
    else if recs[0].id == id then [EpochRecord(id, data)] + recs[1..]
    else [recs[0]] + Changed(recs[1..], id, data)
  }

  /** The tables, the unforgetting store beside them, and the repositories, one to a group. */
  datatype World = World(tables: Tables, history: History, repos: map<GroupId, Repo>)

  datatype Action =
    | Open(owner: GroupId, removal: bool)   // a new repository, in place of any before it
    | Insert(owner: GroupId, group: GroupId, rec: EpochRecord)
    | Change(owner: GroupId, id: nat, data: ByteSeq)
    | Flush(owner: GroupId, snapshot: ByteSeq, fails: bool, deleteFails: bool)   // write_to_storage

  /** The storage runs a transaction or leaves everything as it was. */
  function Attempted(w: World, retention: nat, write: Write, fails: bool): Option<World> {
    var r := Transact(w.tables, retention, write);
    if fails || r.None? then None else Some(w.(tables := r.value, history := Recorded(w.history, write)))
  }

  function FlushWrite(r: Repo, snapshot: ByteSeq): Write {
    Write(r.group, snapshot, r.inserts, r.updates)
  }

  /**
   `write_to_storage`: the storage commits first, then the key package is deleted, and only then are the
   pending epochs forgotten. The removal itself stays pending for the next call.
   */
  function Flushed(w: World, retention: nat, g: GroupId, snapshot: ByteSeq, fails: bool, deleteFails: bool)
    : (World, Result<(), RepoError>)
    requires g in w.repos
  {
    var repo := w.repos[g];
    var r := Attempted(w, retention, FlushWrite(repo, snapshot), fails);
    if r.None? then (w, Err(GroupStorageError))
    else if repo.removal && deleteFails then (r.value, Err(KeyPackageRepoError))
    else (r.value.(repos := w.repos[g := Repo(repo.group, [], [], repo.removal)]), Ok(()))
  }

  /** One action; without a repository there is nothing to act on. */
  ghost function Next(w: World, retention: nat, a: Action): World {
    if a.Open? then w.(repos := w.repos[a.owner := Repo(a.owner, [], [], a.removal)])
    else if a.owner !in w.repos then w
    else
      var repo := w.repos[a.owner];
      match a
      case Insert(owner, g, rec) =>
        var r := InsertEpoch(w.tables.epochs, repo, g, rec);
        if r.Ok? then w.(repos := w.repos[owner := r.value]) else w
      case Change(owner, id, data) =>
        w.(repos := w.repos[owner := ChangeEpoch(w.tables.epochs, repo, id, data)])
      case Flush(owner, snapshot, fails, deleteFails) =>
        Flushed(w, retention, owner, snapshot, fails, deleteFails).0
  }

  predicate Chained(r: Repo) {
    forall i :: 0 < i < |r.inserts| ==> r.inserts[i].id == r.inserts[i - 1].id + 1
  }

  /** Pending epochs are consecutive and continue where the storage stopped. */
  predicate Continues(h: History, r: Repo) {
    Chained(r) && (|r.inserts| > 0 && r.group in h.last ==> r.inserts[0].id == h.last[r.group] + 1)
  }

  predicate HasPending(r: Repo, id: nat) {
    exists i :: 0 <= i < |r.inserts| && r.inserts[i].id == id
  }

  /** Pending epochs are consecutive and the epoch stored last is still among them. */
  predicate Stale(h: History, r: Repo) {
    Chained(r) && r.group in h.last && HasPending(r, h.last[r.group])
  }

  ghost predicate Good(w: World, retention: nat) {
    && Windowed(w.tables.epochs, w.history, retention)
    && forall g :: g in w.repos ==>
         w.repos[g].group == g && (Continues(w.history, w.repos[g]) || Stale(w.history, w.repos[g]))
  }

  predicate StaleIn(w: World, g: GroupId) {
    g in w.repos && Stale(w.history, w.repos[g])
  }

  lemma {:induction false} Consecutive(r: Repo, i: nat, j: nat)
    requires Chained(r) && i <= j < |r.inserts|
    ensures r.inserts[j].id == r.inserts[i].id + (j - i)
    decreases j
  {
    if i < j { Consecutive(r, i, j - 1); }
  }

  /** A repository does not both continue the storage and lag behind it. */
  lemma {:induction false} StaleOrContinues(h: History, r: Repo)
    requires Continues(h, r)
    ensures !Stale(h, r)
  {
    if Stale(h, r) {
      var i :| 0 <= i < |r.inserts| && r.inserts[i].id == h.last[r.group];
      Consecutive(r, 0, i);
    }
  }

  /** What a repository that continues the storage hands over has increasing ids. */
  lemma {:induction false} FlushIsIncreasing(r: Repo, h: History, snapshot: ByteSeq)
    requires Continues(h, r)
    ensures Increasing(h, FlushWrite(r, snapshot))
  {
    forall i, j | 0 <= i < j < |r.inserts| ensures r.inserts[i].id < r.inserts[j].id { Consecutive(r, i, j); }
  }

  /** With any retention at all the storage knows the epoch inserted last. */
  lemma {:induction false} MaxEpochIsLast(t: EpochTable, h: History, retention: nat, g: GroupId)
    requires Windowed(t, h, retention) && retention >= 1
    ensures MaxEpoch(t, g) == if g in h.last then Some(h.last[g]) else None
  {
    forall id ensures id in Ids(t, g) <==> (g, id) in t {}
    if g in h.last {
      assert (g, h.last[g]) in t;
      assert h.last[g] in Ids(t, g);
      var m := MaxEpoch(t, g).value;
      assert (g, m) in t;
    }
  }

  // ----- A stale repository -----

  lemma {:induction false} RepeatedIdRefused(t: EpochTable, g: GroupId, recs: seq<EpochRecord>, i: nat)
    requires i < |recs| && (g, recs[i].id) in t
    ensures InsertEpochs(t, g, recs).None?
    decreases |recs|
  {
    if i > 0 && recs[0].id <= MAX_ROW_ID && (g, recs[0].id) !in t {
      assert recs[1..][i - 1] == recs[i];
      RepeatedIdRefused(t[(g, recs[0].id) := recs[0].data], g, recs[1..], i - 1);
    }
  }

  /** The primary key refuses everything a stale repository writes. */
  lemma {:induction false} StaleIsRefused(w: World, retention: nat, g: GroupId, snapshot: ByteSeq, fails: bool,
                                          deleteFails: bool)
    requires Windowed(w.tables.epochs, w.history, retention) && StaleIn(w, g) && retention >= 1
    ensures Flushed(w, retention, g, snapshot, fails, deleteFails) == (w, Err(GroupStorageError))
  {
    var repo := w.repos[g];
    var last := w.history.last[repo.group];
    var i :| 0 <= i < |repo.inserts| && repo.inserts[i].id == last;
    assert (repo.group, last) in w.tables.epochs by { assert InWindow(w.history, retention, (repo.group, last)); }
    RepeatedIdRefused(w.tables.epochs, repo.group, repo.inserts, i);
  }

  lemma {:induction false} NewIdsAccepted(t: EpochTable, g: GroupId, recs: seq<EpochRecord>)
    requires forall i :: 0 <= i < |recs| ==> recs[i].id <= MAX_ROW_ID && (g, recs[i].id) !in t
    requires forall i, j :: 0 <= i < j < |recs| ==> recs[i].id != recs[j].id
    ensures InsertEpochs(t, g, recs).Some?
    decreases |recs|
  {
    if |recs| > 0 {
      forall i | 0 <= i < |recs[1..]|
        ensures recs[1..][i].id <= MAX_ROW_ID && (g, recs[1..][i].id) !in t[(g, recs[0].id) := recs[0].data]
      {
        assert recs[1..][i] == recs[i + 1];
      }
      NewIdsAccepted(t[(g, recs[0].id) := recs[0].data], g, recs[1..]);
    }
  }

  lemma {:induction false} UpdatesAccepted(t: EpochTable, g: GroupId, recs: seq<EpochRecord>)
    requires forall i :: 0 <= i < |recs| ==> recs[i].id <= MAX_ROW_ID
    ensures UpdateEpochs(t, g, recs).Some?
    decreases |recs|
  {
    if |recs| > 0 { UpdatesAccepted(UpdateEpoch(t, g, recs[0]), g, recs[1..]); }
  }

  predicate RowIds(r: Repo) {
    && (forall i :: 0 <= i < |r.inserts| ==> r.inserts[i].id <= MAX_ROW_ID)
    && (forall i :: 0 <= i < |r.updates| ==> r.updates[i].id <= MAX_ROW_ID)
  }

  /** One that continues the storage can write, if nothing fails and the ids are row ids. */
  lemma {:induction false} ContinuesIsAccepted(w: World, retention: nat, g: GroupId, snapshot: ByteSeq)
    requires Windowed(w.tables.epochs, w.history, retention) && g in w.repos
    requires Continues(w.history, w.repos[g]) && RowIds(w.repos[g])
    ensures Flushed(w, retention, g, snapshot, false, false).1 == Ok(())
  {
    var t, repo := w.tables.epochs, w.repos[g];
    var recs := repo.inserts;
    forall i | 0 <= i < |recs| ensures (repo.group, recs[i].id) !in t { Consecutive(repo, 0, i); }
    forall i, j | 0 <= i < j < |recs| ensures recs[i].id != recs[j].id { Consecutive(repo, i, j); }
    NewIdsAccepted(t, repo.group, recs);
    UpdatesAccepted(InsertEpochs(t, repo.group, recs).value, repo.group, repo.updates);
  }

  // ----- One action -----

  /** The call stored the epochs, failed to delete the key package, and kept the epochs as pending. */
  predicate LeavesStale(w: World, retention: nat, a: Action) {
    && a.Flush? && a.owner in w.repos && a.deleteFails
    && var repo := w.repos[a.owner];
    && |repo.inserts| > 0 && repo.removal && Attempted(w, retention, FlushWrite(repo, a.snapshot), a.fails).Some?
  }

  /** Whether the repository of `g` is stale after an action, given whether it was before. */
  predicate StaleAfter(w: World, retention: nat, a: Action, g: GroupId, before: bool) {
    if a.owner != g then before else !a.Open? && (before || LeavesStale(w, retention, a))
  }

  /** One action: the storage stays the window, and a repository becomes stale in one way only. */
  lemma {:induction false} ActionKeepsGood(w: World, retention: nat, a: Action, g: GroupId)
    requires Good(w, retention) && retention >= 1
    ensures Good(Next(w, retention, a), retention)
    ensures StaleIn(Next(w, retention, a), g) <==> StaleAfter(w, retention, a, g, StaleIn(w, g))
  {
    hide Windowed, Transact, Recorded, Stale, Continues, InsertEpoch, ChangeEpoch, LeavesStale;
    if a.Open? {
      FreshContinues(w.history, a.owner, a.removal);
    } else if a.owner in w.repos {
      var repo := w.repos[a.owner];
      match a {
        case Insert(_, group, rec) => InsertKeeps(w, retention, repo, group, rec);
        case Change(_, id, data) => ChangeKeeps(w, repo, id, data);
        case Flush(_, _, _, _) => FlushKeeps(w, retention, a, g);
      }
      NotFlushed(w, retention, a);
    } else {
      NotFlushed(w, retention, a);
    }
  }

  lemma NotFlushed(w: World, retention: nat, a: Action)
    ensures !a.Flush? || a.owner !in w.repos ==> !LeavesStale(w, retention, a)
  {
  }

  lemma FreshContinues(h: History, g: GroupId, removal: bool)
    ensures Continues(h, Repo(g, [], [], removal)) && !Stale(h, Repo(g, [], [], removal))
  {
  }

  lemma {:induction false} InsertKeeps(w: World, retention: nat, repo: Repo, g: GroupId, rec: EpochRecord)
    requires Windowed(w.tables.epochs, w.history, retention) && retention >= 1
    requires Continues(w.history, repo) || Stale(w.history, repo)
    ensures var r := InsertEpoch(w.tables.epochs, repo, g, rec);
            r.Ok? ==>
              && r.value.group == repo.group
              && (Continues(w.history, r.value) || Stale(w.history, r.value))
              && (Stale(w.history, r.value) <==> Stale(w.history, repo))
  {
    hide Windowed;
    MaxEpochIsLast(w.tables.epochs, w.history, retention, repo.group);
    var r := InsertEpoch(w.tables.epochs, repo, g, rec);
    if r.Ok? {
      if Continues(w.history, repo) {
        StaleOrContinues(w.history, repo);
        StaleOrContinues(w.history, r.value);
      } else {
        var i :| 0 <= i < |repo.inserts| && repo.inserts[i].id == w.history.last[repo.group];
        assert r.value.inserts[i] == repo.inserts[i];
      }
    }
  }

  lemma {:induction false} ChangeKeeps(w: World, r: Repo, id: nat, data: ByteSeq)
    ensures var r' := ChangeEpoch(w.tables.epochs, r, id, data);
            && r'.group == r.group
            && (Continues(w.history, r) <==> Continues(w.history, r'))
            && (Stale(w.history, r) <==> Stale(w.history, r'))
  {
    var r' := ChangeEpoch(w.tables.epochs, r, id, data);
    assert |r'.inserts| == |r.inserts| && r'.group == r.group;
    assert forall i :: 0 <= i < |r.inserts| ==> r'.inserts[i].id == r.inserts[i].id;
    forall n ensures HasPending(r, n) <==> HasPending(r', n) {
      if i :| 0 <= i < |r.inserts| && r.inserts[i].id == n { assert r'.inserts[i].id == n; }
      if i :| 0 <= i < |r'.inserts| && r'.inserts[i].id == n { assert r.inserts[i].id == n; }
    }
  }

  lemma {:induction false} FlushKeeps(w: World, retention: nat, a: Action, g: GroupId)
    requires Good(w, retention) && retention >= 1 && a.Flush? && a.owner in w.repos
    ensures Good(Next(w, retention, a), retention)
    ensures StaleIn(Next(w, retention, a), g) <==> StaleAfter(w, retention, a, g, StaleIn(w, g))
  {
    hide Windowed, Transact, Recorded, Stale, Continues;
    var repo := w.repos[a.owner];
    var write := FlushWrite(repo, a.snapshot);
    if Stale(w.history, repo) {
      StaleIsRefused(w, retention, a.owner, a.snapshot, a.fails, a.deleteFails);
    } else if Attempted(w, retention, write, a.fails).Some? {
      FlushIsIncreasing(repo, w.history, a.snapshot);
      WriteKeepsWindow(w.tables, w.history, retention, write);
      FlushedRepo(w.history, repo, a.snapshot);
      FreshContinues(Recorded(w.history, write), repo.group, repo.removal);
      forall other | other in w.repos && other != a.owner
        ensures Continues(Recorded(w.history, write), w.repos[other]) <==> Continues(w.history, w.repos[other])
        ensures Stale(Recorded(w.history, write), w.repos[other]) <==> Stale(w.history, w.repos[other])
      {
        OthersKeepLast(w.history, write, w.repos[other]);
      }
    }
  }

  /** Pending epochs that were just stored make a repository stale, and an empty one continues anything. */
  lemma FlushedRepo(h: History, r: Repo, snapshot: ByteSeq)
    requires Continues(h, r)
    ensures |r.inserts| > 0 ==> Stale(Recorded(h, FlushWrite(r, snapshot)), r)
    ensures |r.inserts| == 0 ==>
              Continues(Recorded(h, FlushWrite(r, snapshot)), r) && !Stale(Recorded(h, FlushWrite(r, snapshot)), r)
  {
    if |r.inserts| > 0 {
      assert Recorded(h, FlushWrite(r, snapshot)).last[r.group] == r.inserts[|r.inserts| - 1].id;
    }
  }

  lemma OthersKeepLast(h: History, write: Write, r: Repo)
    requires write.group != r.group
    ensures Continues(Recorded(h, write), r) <==> Continues(h, r)
    ensures Stale(Recorded(h, write), r) <==> Stale(h, r)
  {
  }

  // ----- Every run -----

  ghost function RunActions(w: World, retention: nat, actions: seq<Action>): World
    decreases |actions|
  {
    if |actions| == 0 then w else RunActions(Next(w, retention, actions[0]), retention, actions[1..])
  }

  /** Since the repository of `g` was opened last, a deletion failed with epochs pending. */
  ghost predicate DeletionFailed(w: World, retention: nat, actions: seq<Action>, g: GroupId, before: bool)
    decreases |actions|
  {
    if |actions| == 0 then before
    else
      DeletionFailed(Next(w, retention, actions[0]), retention, actions[1..], g,
                     StaleAfter(w, retention, actions[0], g, before))
  }

  /**
   Any use of any number of repositories, one to a group, if anything is retained: the storage stays the
   window of everything ever stored, and a repository is stale exactly if a deletion failed with epochs
   pending since it was opened.
   */
  lemma {:induction false} RepositoryTheorem(w: World, retention: nat, actions: seq<Action>, g: GroupId)
    requires Good(w, retention) && retention >= 1
    ensures var w' := RunActions(w, retention, actions);
            Good(w', retention) && (StaleIn(w', g) <==> DeletionFailed(w, retention, actions, g, StaleIn(w, g)))
    decreases |actions|
  {
    hide Good, Next, StaleIn, StaleAfter;
    if |actions| > 0 {
      ActionKeepsGood(w, retention, actions[0], g);
      RepositoryTheorem(Next(w, retention, actions[0]), retention, actions[1..], g);
    }
  }

  predicate KeepsOpen(actions: seq<Action>, g: GroupId) {
    forall a :: a in actions ==> !(a.Open? && a.owner == g)
  }

  lemma {:induction false} StaysStale(w: World, retention: nat, actions: seq<Action>, g: GroupId)
    requires g in w.repos
    ensures g in RunActions(w, retention, actions).repos
    ensures KeepsOpen(actions, g) ==> DeletionFailed(w, retention, actions, g, true)
    decreases |actions|
  {
    hide LeavesStale, InsertEpoch, ChangeEpoch, Transact, Recorded;
    if |actions| > 0 { StaysStale(Next(w, retention, actions[0]), retention, actions[1..], g); }
  }

  /** Whether a repository is wedged: until another is opened, the storage refuses every write it attempts. */
  ghost predicate Wedged(w: World, retention: nat, g: GroupId) {
    forall actions :: KeepsOpen(actions, g) ==> WritesRefused(RunActions(w, retention, actions), retention, g)
  }

  ghost predicate WritesRefused(w: World, retention: nat, g: GroupId) {
    && g in w.repos
    && forall snapshot, fails, deleteFails ::
         Flushed(w, retention, g, snapshot, fails, deleteFails).1 == Err(GroupStorageError)
  }

  /** After any run a repository is wedged exactly if a deletion failed with epochs pending since it was opened. */
  lemma {:induction false} WedgedExactly(w: World, retention: nat, actions: seq<Action>, g: GroupId)
    requires Good(w, retention) && retention >= 1
    requires g in RunActions(w, retention, actions).repos && RowIds(RunActions(w, retention, actions).repos[g])
    ensures Wedged(RunActions(w, retention, actions), retention, g) <==>
              DeletionFailed(w, retention, actions, g, StaleIn(w, g))
  {
    hide Good, Next, Stale, Continues, Flushed, DeletionFailed;
    RepositoryTheorem(w, retention, actions, g);
    var w' := RunActions(w, retention, actions);
    if StaleIn(w', g) {
      forall more | KeepsOpen(more, g) ensures WritesRefused(RunActions(w', retention, more), retention, g) {
        StaysStale(w', retention, more, g);
        RepositoryTheorem(w', retention, more, g);
        StaleWritesRefused(RunActions(w', retention, more), retention, g);
      }
    } else {
      GoodIsWindowed(w', retention, g);
      ContinuesIsAccepted(w', retention, g, []);
      assert !WritesRefused(w', retention, g);
      assert RunActions(w', retention, []) == w' && KeepsOpen([], g);
    }
  }

  lemma StaleWritesRefused(w: World, retention: nat, g: GroupId)
    requires Good(w, retention) && StaleIn(w, g) && retention >= 1
    ensures WritesRefused(w, retention, g)
  {
    hide Flushed, Stale;
    forall snapshot, fails, deleteFails
      ensures Flushed(w, retention, g, snapshot, fails, deleteFails).1 == Err(GroupStorageError)
    {
      StaleIsRefused(w, retention, g, snapshot, fails, deleteFails);
    }
  }

  lemma GoodIsWindowed(w: World, retention: nat, g: GroupId)
    requires Good(w, retention) && g in w.repos
    ensures Windowed(w.tables.epochs, w.history, retention)
    ensures !StaleIn(w, g) ==> Continues(w.history, w.repos[g])
  {
  }

  /** A wedge ends with the object: whatever happened before, a newly opened repository can write. */
  lemma {:induction false} OpeningUnwedges(w: World, retention: nat, actions: seq<Action>, g: GroupId, removal: bool)
    requires Good(w, retention) && retention >= 1
    ensures !Wedged(Next(RunActions(w, retention, actions), retention, Open(g, removal)), retention, g)
  {
    hide Good, Wedged, Stale, StaleIn;
    RepositoryTheorem(w, retention, actions, g);
    var w', open := RunActions(w, retention, actions), Open(g, removal);
    assert [open][1..] == [];
    var w1 := Next(w', retention, open);
    assert RunActions(w1, retention, []) == w1 && RunActions(w', retention, [open]) == w1;
    WedgedExactly(w', retention, [open], g);
  }

  // ----- Runs that show it -----

  /** An empty store with one new repository. */
  function Empty(g: GroupId, removal: bool): World {
    World(Tables(map[], map[]), History(map[], map[]), map[g := Repo(g, [], [], removal)])
  }

  /** An insert into an empty store, ready to be written. */
  lemma {:induction false} InsertedFirst(g: GroupId, removal: bool, retention: nat, rec: EpochRecord)
    ensures Next(Empty(g, removal), retention, Insert(g, g, rec))
            == Empty(g, removal).(repos := map[g := Repo(g, [rec], [], removal)])
  {
    assert Ids(Empty(g, removal).tables.epochs, g) == {};
    var r := Repo(g, [rec], [], removal);
    assert [] + [rec] == [rec] && Empty(g, removal).repos[g := r] == map[g := r];
  }

  /** A member joins, its first epoch is stored, its key package cannot be deleted: it can store nothing any more. */
  lemma {:induction false} FailedDeletionWedges(g: GroupId, snapshot: ByteSeq)
    ensures var w := Empty(g, true);
            && Good(w, 3)
            && Wedged(RunActions(w, 3, [Insert(g, g, EpochRecord(1, [])), Flush(g, snapshot, false, true)]), 3, g)
  {
    hide Transact, Wedged, Good, Recorded;
    var w, rec := Empty(g, true), EpochRecord(1, []);
    var insert, flush := Insert(g, g, rec), Flush(g, snapshot, false, true);
    EmptyIsGood(g, true, 3);
    InsertedFirst(g, true, 3, rec);
    var w1 := Next(w, 3, insert);
    FirstWriteAccepted(g, rec, snapshot);
    assert [insert, flush][1..] == [flush] && [flush][1..] == [];
    var w2 := Next(w1, 3, flush);
    assert w2.repos == w1.repos;
    assert RunActions(w2, 3, []) == w2 && RunActions(w1, 3, [flush]) == w2 && RunActions(w, 3, [insert, flush]) == w2;
    assert LeavesStale(w1, 3, flush) && DeletionFailed(w2, 3, [], g, true);
    assert forall before :: DeletionFailed(w1, 3, [flush], g, before);
    assert DeletionFailed(w, 3, [insert, flush], g, StaleIn(w, g));
    WedgedExactly(w, 3, [insert, flush], g);
  }

  lemma EmptyIsGood(g: GroupId, removal: bool, retention: nat)
    ensures Good(Empty(g, removal), retention)
  {
  }

  lemma FirstWriteAccepted(g: GroupId, rec: EpochRecord, snapshot: ByteSeq)
    requires rec.id <= MAX_ROW_ID
    ensures forall retention :: Transact(Tables(map[], map[]), retention, Write(g, snapshot, [rec], [])).Some?
  {
    NewIdsAccepted(map[], g, [rec]);
  }

  /** With retention 0 the storage forgets the newest epoch and the repository accepts an older one after it. */
  lemma NoRetentionNoOrder(g: GroupId, snapshot: ByteSeq)
    ensures var w0 := Empty(g, false);
            var actions := [Insert(g, g, EpochRecord(5, [])), Flush(g, snapshot, false, false),
                            Insert(g, g, EpochRecord(2, []))];
            var w := RunActions(w0, 0, actions);
            Good(w0, 0) && g in w.repos && !Continues(w.history, w.repos[g]) && !StaleIn(w, g)
  {
    var w0 := Empty(g, false);
    var e5, e2 := EpochRecord(5, []), EpochRecord(2, []);
    var actions := [Insert(g, g, e5), Flush(g, snapshot, false, false), Insert(g, g, e2)];
    InsertedFirst(g, false, 0, e5);
    var w1 := Next(w0, 0, actions[0]);
    assert w1.repos[g] == Repo(g, [e5], [], false);
    var w2 := Next(w1, 0, actions[1]);
    ForgottenAtOnce(w1, g, e5, snapshot);
    assert Ids(w2.tables.epochs, g) == {};
    var w3 := Next(w2, 0, actions[2]);
    assert w3.repos[g].inserts == [e2];
    assert actions[1..] == [actions[1], actions[2]] && actions[1..][1..] == [actions[2]] && [actions[2]][1..] == [];
    assert RunActions(w3, 0, []) == w3 && RunActions(w2, 0, [actions[2]]) == w3;
    assert RunActions(w1, 0, actions[1..]) == w3 && RunActions(w0, 0, actions) == w3;
  }

  lemma ForgottenAtOnce(w: World, g: GroupId, rec: EpochRecord, snapshot: ByteSeq)
    requires w.tables.epochs == map[] && w.history == History(map[], map[]) && rec.id <= MAX_ROW_ID
    requires g in w.repos && w.repos[g] == Repo(g, [rec], [], false)
    ensures var w' := Next(w, 0, Flush(g, snapshot, false, false));
            && w'.tables.epochs == map[] && w'.history.last == map[g := rec.id]
            && g in w'.repos && w'.repos[g] == Repo(g, [], [], false)
  {
    var write := FlushWrite(w.repos[g], snapshot);
    assert write.inserts[1..] == [];
    var inserted: EpochTable := map[(g, rec.id) := rec.data];
    assert InsertEpochs(map[], g, write.inserts) == Some(inserted);
    assert Prune(inserted, g, write.inserts, 0) == map[];
  }
}
