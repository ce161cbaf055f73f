/**
 * The provider (`NotesProvider`): the operations the UI calls, the once-only
 * initial load, the reconnect effect, and the per-note debounce table.
 *
 * Real time is not modelled: a debounce timer is an entry in a map from id to
 * the note its callback will push, armed by `updateNote`, cancelled by
 * `deleteNote`, and fired by an explicit `FireTimer` event. Calls that the
 * source starts without awaiting (`syncNote` after a create, `syncAll` on
 * reconnect) run to completion before the method returns.
 */
module NotesProvider {
  import opened NoteModel
  import opened NoteUtils
  import opened NotesReducer
  import opened LocalStore
  import opened RemoteApi
  import opened NoteSync

  // ---------------------------------------------------------------------------
  // The debounce table
  // ---------------------------------------------------------------------------

  /** Setting a timer for an id, after clearing the one it may already have. */
  function Arm(pending: map<string, Note>, id: string, n: Note): (r: map<string, Note>)
    ensures r.Keys == pending.Keys + {id}
    ensures r[id] == n
    ensures forall k :: k in pending && k != id ==> r[k] == pending[k]
  {
    pending[id := n]
  }

  /** `clearTimeout` and `delete` for an id; nothing to do when it has no timer. */
  function Cancel(pending: map<string, Note>, id: string): (r: map<string, Note>)
    ensures r.Keys == pending.Keys - {id}
    ensures forall k :: k in r ==> r[k] == pending[k]
  {
    pending - {id}
  }

  /** A timer firing: the note its callback pushes, and the table once the callback has removed its entry. */
  function Fire(pending: map<string, Note>, id: string): (r: (Option<Note>, map<string, Note>))
    ensures r.0.Some? <==> id in pending
    ensures r.0.Some? ==> r.0.value == pending[id]
    ensures r.1 == Cancel(pending, id)
  {
    if id in pending then (Some(pending[id]), pending - {id}) else (None, pending)
  }

  /** A burst of edits to one note, each arming its timer in turn. */
  function ArmAll(pending: map<string, Note>, id: string, edits: seq<Note>): map<string, Note>
  {
    if edits == [] then pending
    else Arm(ArmAll(pending, id, edits[..|edits| - 1]), id, edits[|edits| - 1])
  }

  /** The table holds the last edit of the burst and nothing else new. */
  lemma {:induction false} ArmAllHoldsLast(pending: map<string, Note>, id: string, edits: seq<Note>)
    requires edits != []
    ensures ArmAll(pending, id, edits) == pending[id := edits[|edits| - 1]]
  {
    var init := edits[..|edits| - 1];
    if init != [] {
      ArmAllHoldsLast(pending, id, init);
    }
  }

  /**
   * A burst of edits yields one sync: firing pushes the last edit, the
   * entry is gone afterwards, other ids keep their timers, and a second
   * firing pushes nothing.
   */
  lemma BurstCoalesces(pending: map<string, Note>, id: string, edits: seq<Note>)
    requires edits != []
    ensures var (first, rest) := Fire(ArmAll(pending, id, edits), id);
      && first == Some(edits[|edits| - 1])
      && rest == pending - {id}
      && Fire(rest, id).0 == None
  {
    ArmAllHoldsLast(pending, id, edits);
  }

  /** A timer cancelled before it fires pushes nothing. */
  lemma CancelThenFire(pending: map<string, Note>, id: string)
    ensures Fire(Cancel(pending, id), id) == (None, Cancel(pending, id))
  {
  }

  // ---------------------------------------------------------------------------
  // Sorting by recency
  // ---------------------------------------------------------------------------

  /**
   * Placing `x` after every entry at least as recent as it, keeping the sort
   * stable. The comparator `new Date(b.updatedAt) - new Date(a.updatedAt)`
   * puts `x` first only when it is strictly more recent; a missing timestamp
   * gives `NaN`, which the sort reads as "equal".
   */
  function Insert(sorted: seq<Note>, x: Note): (r: seq<Note>)
    ensures multiset(r) == multiset(sorted) + multiset{x}
    ensures |r| == |sorted| + 1
  {
    if sorted == [] then [x]
    else if Later(x, sorted[0]) then [x] + sorted
    else
      assert sorted == [sorted[0]] + sorted[1..];
      [sorted[0]] + Insert(sorted[1..], x)
  }

  /** `Array.prototype.sort` with the comparator above: a stable sort, here an insertion sort. */
  function SortByRecency(xs: seq<Note>): (r: seq<Note>)
    ensures multiset(r) == multiset(xs)
  {
    if xs == [] then []
    else
      assert xs == xs[..|xs| - 1] + [xs[|xs| - 1]];
      Insert(SortByRecency(xs[..|xs| - 1]), xs[|xs| - 1])
  }

  /** Most recent first: no entry is strictly more recent than one before it. */
  ghost predicate Descending(s: seq<Note>)
  {
    forall i, j :: 0 <= i < j < |s| ==> !Later(s[j], s[i])
  }

  lemma {:induction false} InsertDescending(sorted: seq<Note>, x: Note)
    requires Timestamped(sorted) && x.updatedAt.Some?
    requires Descending(sorted)
    ensures Descending(Insert(sorted, x))
  {
    if sorted != [] && !Later(x, sorted[0]) {
      var rest := sorted[1..];
      assert Timestamped(rest) && Descending(rest) by {
        forall i | 0 <= i < |rest| ensures rest[i] == sorted[i + 1] { }
      }
      InsertDescending(rest, x);
      var t := Insert(rest, x);
      assert multiset(t) == multiset(rest) + multiset{x};
      forall j | 0 <= j < |t| ensures !Later(t[j], sorted[0]) {
        assert t[j] in multiset(t);
        if t[j] != x {
          assert t[j] in multiset(rest);
          var k :| 0 <= k < |rest| && rest[k] == t[j];
          assert sorted[k + 1] == t[j];
        }
      }
    }
  }

  /** For notes that all carry a timestamp, the result is most recent first. */
  lemma {:induction false} SortByRecencyDescending(xs: seq<Note>)
    requires Timestamped(xs)
    ensures Descending(SortByRecency(xs))
    ensures Timestamped(SortByRecency(xs))
  {
    if xs != [] {
      var init := xs[..|xs| - 1];
      assert Timestamped(init) by {
        forall i | 0 <= i < |init| ensures init[i] == xs[i] { }
      }
      SortByRecencyDescending(init);
      InsertDescending(SortByRecency(init), xs[|xs| - 1]);
      var r := SortByRecency(xs);
      forall i | 0 <= i < |r| ensures r[i].updatedAt.Some? {
        assert r[i] in multiset(xs);
      }
    }
  }

  /** Sorting only reorders: the ids, and their uniqueness, are those of the input. */
  lemma SortKeepsIds(xs: seq<Note>)
    ensures IdSet(SortByRecency(xs)) == IdSet(xs)
    ensures UniqueIds(xs) ==> UniqueIds(SortByRecency(xs))
  {
    var r := SortByRecency(xs);
    forall n ensures n in r <==> n in xs {
      assert n in r <==> n in multiset(r);
      assert n in xs <==> n in multiset(xs);
    }
    if UniqueIds(xs) {
      forall i, j | 0 <= i < j < |r| ensures r[i].id != r[j].id {
        if r[i].id == r[j].id {
          assert r[i] in xs && r[j] in xs;
          assert r[i] == r[j];
          MultisetTwice(r, i, j);
          assert multiset(xs)[r[i]] >= 2;
          OneCopy(xs, r[i]);
        }
      }
    }
  }

  /** An element at two positions occurs twice. */
  lemma {:induction false} MultisetTwice(s: seq<Note>, i: nat, j: nat)
    requires i < j < |s| && s[i] == s[j]
    ensures multiset(s)[s[i]] >= 2
  {
    assert s == s[..i] + [s[i]] + s[i + 1..j] + [s[j]] + s[j + 1..];
  }

  /** With one note per id, every note occurs once. */
  lemma {:induction false} OneCopy(xs: seq<Note>, n: Note)
    requires UniqueIds(xs)
    ensures multiset(xs)[n] <= 1
  {
    if xs != [] {
      var init, last := xs[..|xs| - 1], xs[|xs| - 1];
      assert xs == init + [last];
      assert UniqueIds(init) by {
        forall i, j | 0 <= i < j < |init| ensures init[i].id != init[j].id {
          assert init[i] == xs[i] && init[j] == xs[j];
        }
      }
      OneCopy(init, n);
      if last == n {
        forall i | 0 <= i < |init| ensures init[i] != n {
          assert xs[i] == init[i];
        }
        assert n !in multiset(init);
      }
    }
  }

  // ---------------------------------------------------------------------------
  // Loading
  // ---------------------------------------------------------------------------

  /** The list the initial load shows first: the stored notes, one per id, most recent first. */
  function LocalList(stored: seq<Note>): (r: seq<Note>)
    ensures UniqueIds(r) && IdSet(r) == IdSet(stored)
  {
    DedupSubset(stored);
    SortKeepsIds(Dedup(stored));
    SortByRecency(Dedup(stored))
  }

  /** SET_NOTES with the local list installs it as it is: deduplication finds nothing to drop, so the order survives. */
  lemma LocalListInstalled(s: NotesState, stored: seq<Note>)
    ensures Reduce(s, SetNotes(LocalList(stored))).notes == LocalList(stored)
  {
    DedupOfUnique(LocalList(stored));
  }

  /** The store after the write-back loop: each merged note `put` in turn. */
  function WriteBack(records: map<string, Note>, notes: seq<Note>, now: int): (r: map<string, Note>)
    ensures records.Keys <= r.Keys
    ensures forall k :: k in r ==> (k in records && r[k] == records[k]) || Normalized(r[k])
  {
    if notes == [] then records
    else PutRecord(WriteBack(records, notes[..|notes| - 1], now), notes[|notes| - 1], now)
  }

  /** The write-back adds the ids of the notes and leaves every other record alone. */
  lemma {:induction false} WriteBackFrame(records: map<string, Note>, notes: seq<Note>, now: int)
    ensures WriteBack(records, notes, now).Keys == records.Keys + IdSet(notes)
    ensures forall k :: k in records && k !in IdSet(notes) ==> WriteBack(records, notes, now)[k] == records[k]
  {
    if notes != [] {
      var init, last := notes[..|notes| - 1], notes[|notes| - 1];
      assert notes == init + [last];
      assert IdSet(notes) == IdSet(init) + {last.id};
      WriteBackFrame(records, init, now);
    }
  }

  /** Dropping the last note of a list with one note per id keeps that, and leaves the last id unused. */
  lemma UniqueInit(notes: seq<Note>)
    requires notes != [] && UniqueIds(notes)
    ensures UniqueIds(notes[..|notes| - 1])
    ensures forall n :: n in notes[..|notes| - 1] ==> n.id != notes[|notes| - 1].id
  {
    var init := notes[..|notes| - 1];
    forall i, j | 0 <= i < j < |init| ensures init[i].id != init[j].id {
      assert init[i] == notes[i] && init[j] == notes[j];
    }
    forall n | n in init ensures n.id != notes[|notes| - 1].id {
      var i :| 0 <= i < |init| && init[i] == n;
      assert notes[i] == n;
    }
  }

  /** After the write-back of a list with one note per id, each of its notes is stored, normalised. */
  lemma {:induction false} WriteBackStores(records: map<string, Note>, notes: seq<Note>, now: int)
    requires UniqueIds(notes)
    ensures forall n :: n in notes ==>
      n.id in WriteBack(records, notes, now) && WriteBack(records, notes, now)[n.id] == NormalizeForWrite(n, now)
  {
    if notes != [] {
      var init, last := notes[..|notes| - 1], notes[|notes| - 1];
      UniqueInit(notes);
      WriteBackStores(records, init, now);
      forall n | n in notes
        ensures n.id in WriteBack(records, notes, now) && WriteBack(records, notes, now)[n.id] == NormalizeForWrite(n, now)
      {
        if n != last {
          assert n in init by {
            assert notes == init + [last];
          }
        }
      }
    }
  }

  // ---------------------------------------------------------------------------
  // The provider
  // ---------------------------------------------------------------------------

  /** The fields `updateNote` receives from the editor. */
  datatype NoteUpdate = NoteUpdate(title: string, content: string)

  /** The note `createNote` builds, with its parameter defaults. */
  function NewNote(id: string, title: Option<string>, content: Option<string>, now: int): (n: Note)
    ensures n.id == id && n.title == title.GetOr("Untitled") && n.content == content.GetOr("")
    ensures n.updatedAt == Some(now) && !n.synced && n.syncStatus == Some(Unsynced)
    ensures Normalized(n)
  {
    Note(id, title.GetOr("Untitled"), content.GetOr(""), Some(now), false, Some(Unsynced))
  }

  /** The note `updateNote` builds: the stored note overlaid with the edit, re-stamped and marked unsynced. */
  function Edited(existing: Note, u: NoteUpdate, now: int): (n: Note)
    ensures n.id == existing.id && n.title == u.title && n.content == u.content
    ensures n.updatedAt == Some(now) && !n.synced && n.syncStatus == Some(Unsynced)
    ensures Normalized(n)
  {
    existing.(title := u.title, content := u.content, updatedAt := Some(now), synced := false, syncStatus := Some(Unsynced))
  }

  class Provider {
    const sync: SyncHook
    /** `useOnlineStatus()` */
    var isOnline: bool
    /** `hasLoadedInitialData.current` */
    var hasLoadedInitialData: bool

    constructor (store: NoteStore, remote: Remote, online: bool)
      ensures sync.store == store && sync.remote == remote && fresh(sync) && fresh(sync.view)
      ensures sync.view.state == InitialState && sync.view.log == []
      ensures sync.inFlight == {} && sync.pending == map[]
      ensures isOnline == online && !hasLoadedInitialData
    {
      var view := new NotesView();
      sync := new SyncHook(store, view, remote);
      isOnline := online;
      hasLoadedInitialData := false;
    }

    /** The write-back loop of the initial load; it stops at the first failed `put`. */
    method WriteBackAll(notes: seq<Note>, now: int) returns (ok: bool)
      requires sync.store.Valid()
      modifies sync.store
      ensures sync.store.Valid()
      ensures ok ==> sync.store.records == WriteBack(old(sync.store.records), notes, now)
    {
      var store := sync.store;
      for i := 0 to |notes|
        invariant store.Valid()
        invariant store.records == WriteBack(old(store.records), notes[..i], now)
      {
        assert notes[..i + 1] == notes[..i] + [notes[i]];
        var r := store.Put(notes[i], now);
        if r.Err? {
          return false;
        }
      }
      assert notes[..|notes|] == notes;
      ok := true;
    }

    /** The first half of `loadNotes`: read the store and show its notes, one per id, most recent first. */
    method ShowLocal() returns (ok: bool, localNotes: seq<Note>)
      requires sync.store.Valid()
      modifies sync.view
      ensures ok ==> localNotes == LocalList(ReadAll(sync.store.Snapshot()))
      ensures ok ==> sync.view.state.notes == localNotes
      ensures ok ==> sync.view.log == old(sync.view.log) + [SetNotes(localNotes)]
      ensures !ok ==> sync.view.log == old(sync.view.log) && sync.view.state == old(sync.view.state)
      ensures sync.view.state.isSyncing == old(sync.view.state.isSyncing)
      ensures sync.view.state.isLoading == old(sync.view.state.isLoading)
    {
      var all := sync.store.GetAll();
      if all.Err? {
        return false, [];
      }
      var deduped := DeduplicateNotes(all.value);
      localNotes := SortByRecency(deduped);
      ghost var shown := sync.view.state;
      sync.view.Dispatch(SetNotes(localNotes));
      LocalListInstalled(shown, all.value);
      ok := true;
    }

    /** The online half of `loadNotes`: fetch, merge, write every merged note back, show the merge. */
    method MergeWithServer(localNotes: seq<Note>, now: int) returns (ok: bool, ghost server: seq<Note>)
      requires sync.store.Valid()
      modifies sync.view, sync.store, sync.remote
      ensures sync.store.Valid()
      ensures sync.remote.pushes == old(sync.remote.pushes) && sync.remote.deletes == old(sync.remote.deletes)
      ensures old(sync.view.log) <= sync.view.log
      ensures sync.view.state.isSyncing == old(sync.view.state.isSyncing)
      ensures sync.view.state.isLoading == old(sync.view.state.isLoading)
      ensures |sync.remote.fetches| == |old(sync.remote.fetches)| + 1
      ensures ok ==> sync.remote.fetches == old(sync.remote.fetches) + [Some(server)]
      ensures ok ==> sync.view.state.notes == Merge(localNotes, server)
      ensures ok ==> sync.store.records == WriteBack(old(sync.store.records), Merge(localNotes, server), now)
    {
      server := [];
      var fetched := sync.remote.FetchNotes();
      if fetched.None? {
        return false, server;
      }
      server := fetched.value;
      var merged := MergeNotesFromServer(localNotes, fetched.value);
      ok := WriteBackAll(merged, now);
      if !ok {
        return;
      }
      sync.view.Dispatch(SetNotes(merged));
      MergeIds(localNotes, fetched.value);
      DedupOfUnique(merged);
    }

    /** The body of `loadNotes` between the two `SET_LOADING` dispatches. */
    method LoadBody(now: int) returns (completed: bool, ghost local: seq<Note>, ghost server: seq<Note>)
      requires sync.store.Valid()
      modifies sync.view, sync.store, sync.remote
      ensures sync.store.Valid()
      ensures sync.remote.pushes == old(sync.remote.pushes) && sync.remote.deletes == old(sync.remote.deletes)
      ensures old(sync.view.log) <= sync.view.log
      ensures sync.view.state.isLoading == old(sync.view.state.isLoading)
      ensures completed ==> local == LocalList(ReadAll(old(sync.store.Snapshot())))
      ensures !isOnline ==> sync.remote.fetches == old(sync.remote.fetches)
      ensures completed && isOnline ==> sync.remote.fetches == old(sync.remote.fetches) + [Some(server)]
      ensures completed && !isOnline ==>
        sync.view.state.notes == local && sync.store.records == old(sync.store.records)
      ensures completed && isOnline ==>
        && sync.view.state.notes == Merge(local, server)
        && sync.store.records == WriteBack(old(sync.store.records), Merge(local, server), now)
    {
      completed, local, server := false, [], [];
      var ok, localNotes := ShowLocal();
      if !ok {
        return;
      }
      local := localNotes;
      if isOnline {
        ok, server := MergeWithServer(localNotes, now);
        if !ok {
          return;
        }
      }
      completed := true;
    }

    /** The end of a load that got through: it is marked done and `isLoading` is lowered. */
    method FinishLoad()
      modifies this, sync.view
      ensures hasLoadedInitialData && isOnline == old(isOnline)
      ensures sync.view.log == old(sync.view.log) + [SetLoading(false)]
      ensures sync.view.state == old(sync.view.state).(isLoading := false)
    {
      hasLoadedInitialData := true;
      sync.view.Dispatch(SetLoading(false));
    }

    /**
     * `loadNotes`: runs at most once. It raises `isLoading`, shows the local
     * list, and when online fetches the server's notes, merges, writes the
     * merge back and shows it; then it marks the load done and lowers
     * `isLoading`. A failed read, fetch or write abandons the load, which
     * then ends with the load not marked done and `isLoading` still raised.
     * `local` is the list shown first and `server` the list fetched.
     */
    method LoadNotes(now: int) returns (completed: bool, ghost local: seq<Note>, ghost server: seq<Note>)
      requires sync.store.Valid()
      modifies this, sync.view, sync.store, sync.remote
      ensures sync.store.Valid()
      ensures isOnline == old(isOnline)
      ensures hasLoadedInitialData == (old(hasLoadedInitialData) || completed)
      ensures sync.remote.pushes == old(sync.remote.pushes) && sync.remote.deletes == old(sync.remote.deletes)
      ensures old(hasLoadedInitialData) ==>
        !completed && sync.view.log == old(sync.view.log) && sync.view.state == old(sync.view.state)
        && sync.store.records == old(sync.store.records) && sync.remote.fetches == old(sync.remote.fetches)
      ensures !old(hasLoadedInitialData) ==>
        |sync.view.log| > |old(sync.view.log)| && sync.view.log[|old(sync.view.log)|] == SetLoading(true)
      ensures completed ==> local == LocalList(ReadAll(old(sync.store.Snapshot())))
      ensures completed ==> !sync.view.state.isLoading && sync.view.log[|sync.view.log| - 1] == SetLoading(false)
      ensures !isOnline ==> sync.remote.fetches == old(sync.remote.fetches)
      ensures completed && isOnline ==> sync.remote.fetches == old(sync.remote.fetches) + [Some(server)]
      ensures completed && !isOnline ==>
        sync.view.state.notes == local && sync.store.records == old(sync.store.records)
      ensures completed && isOnline ==>
        && sync.view.state.notes == Merge(local, server)
        && sync.store.records == WriteBack(old(sync.store.records), Merge(local, server), now)
    {
      completed, local, server := false, [], [];
      if hasLoadedInitialData {
        return;
      }
      var view := sync.view;
      ghost var log0 := view.log;
      view.Dispatch(SetLoading(true));
      ghost var log1 := view.log;
      assert log1[|log0|] == SetLoading(true);
      completed, local, server := LoadBody(now);
      ghost var log2 := view.log;
      PrefixIndex(log1, log2, |log0|);
      if completed {
        FinishLoad();
        PrefixIndex(log2, view.log, |log0|);
      }
    }

    /**
     * The reconnect effect: it runs when `isOnline` changes, and starts
     * `syncAll` only on a change to online after the initial load.
     */
    method SetOnline(online: bool, now: int) returns (swept: bool, ghost batch: seq<Note>)
      requires sync.store.Valid()
      modifies this, sync, sync.view, sync.store, sync.remote
      ensures sync.store.Valid()
      ensures isOnline == online && hasLoadedInitialData == old(hasLoadedInitialData)
      ensures swept <==> online && !old(isOnline) && hasLoadedInitialData
      ensures sync.inFlight == old(sync.inFlight) && sync.pending == old(sync.pending)
      ensures !swept ==>
        && sync.view.log == old(sync.view.log) && sync.view.state == old(sync.view.state)
        && sync.store.records == old(sync.store.records) && sync.remote.pushes == old(sync.remote.pushes)
      ensures swept ==>
        && |sync.view.log| >= |old(sync.view.log)| + 2
        && sync.view.log[|old(sync.view.log)|] == SetSyncing(true)
        && sync.view.log[|sync.view.log| - 1] == SetSyncing(false)
        && !sync.view.state.isSyncing
      ensures swept ==>
        && (batch == [] || batch == Dedup(CursorScan(old(sync.store.Snapshot()))) || batch == Dedup(FallbackScan(old(sync.store.Snapshot()))))
        && sync.remote.pushes == old(sync.remote.pushes) + SweepPushes(batch, old(sync.inFlight))
        && old(sync.remote.replies) <= sync.remote.replies
        && SweptStore(old(sync.store.records), sync.store.records, SweepPushes(batch, old(sync.inFlight)),
                      sync.remote.replies[|old(sync.remote.replies)|..], now)
    {
      swept, batch := false, [];
      if online == isOnline {
        return;
      }
      isOnline := online;
      if online && hasLoadedInitialData {
        ghost var refreshed;
        batch, refreshed := sync.SyncAll(true, now);
        swept := true;
      }
    }

    /**
     * `createNote`: the new note is added to the store (which refuses an id
     * it already holds), then shown, then pushed when online.
     */
    method CreateNote(id: string, title: Option<string>, content: Option<string>, now: int) returns (r: Result<Note, StoreError>)
      requires sync.store.Valid()
      modifies sync, sync.view, sync.store, sync.remote
      ensures sync.store.Valid()
      ensures sync.inFlight == old(sync.inFlight) && sync.pending == old(sync.pending)
      ensures id in old(sync.store.records) ==> r == Err(ConstraintError)
      ensures r.Ok? ==> r.value == NewNote(id, title, content, now) && id !in old(sync.store.records)
      ensures r.Ok? ==>
        |sync.view.log| > |old(sync.view.log)| && sync.view.log[|old(sync.view.log)|] == AddNote(r.value)
      ensures r.Ok? ==> id in sync.store.records && IdSet(sync.view.state.notes) == IdSet(old(sync.view.state.notes)) + {id}
      ensures r.Ok? && !isOnline ==>
        && sync.store.records == old(sync.store.records)[id := r.value]
        && sync.view.log == old(sync.view.log) + [AddNote(r.value)]
        && sync.view.state == Reduce(old(sync.view.state), AddNote(r.value))
        && sync.remote.pushes == old(sync.remote.pushes)
      ensures r.Ok? && isOnline ==>
        || sync.store.records == old(sync.store.records)[id := r.value]
        || (&& |sync.remote.replies| == |old(sync.remote.replies)| + 1
            && sync.remote.replies[|old(sync.remote.replies)|].Pushed?
            && sync.store.records == PutRecord(old(sync.store.records)[id := r.value],
                 SyncedCopy(r.value, sync.remote.replies[|old(sync.remote.replies)|].saved), now))
      ensures r.Ok? && isOnline && id !in old(sync.inFlight) ==>
        sync.remote.pushes == old(sync.remote.pushes) + [MarkSynced(r.value)]
      ensures r.Err? ==>
        && sync.store.records == old(sync.store.records)
        && sync.view.log == old(sync.view.log) && sync.view.state == old(sync.view.state)
        && sync.remote.pushes == old(sync.remote.pushes)
    {
      var note := NewNote(id, title, content, now);
      var added := sync.store.Add(note, now);
      if added.Err? {
        return Err(added.error);
      }
      NormalizeForWriteFixpoint(note, now);
      ghost var log0 := sync.view.log;
      AddNoteIds(sync.view.state, note);
      sync.view.Dispatch(AddNote(note));
      if isOnline {
        ghost var log1 := sync.view.log;
        var _ := sync.SyncNote(note, now);
        PrefixIndex(log1, sync.view.log, |log0|);
      }
      r := Ok(note);
    }

    /**
     * `updateNote`: the stored note is read, overlaid with the edit and
     * re-stamped, written back, shown, and, when online, its debounce timer
     * is re-armed with the new note. An id with no stored note yields an
     * object without a key, which the store refuses.
     */
    method UpdateNote(id: string, updates: NoteUpdate, now: int) returns (r: Result<Note, StoreError>)
      requires sync.store.Valid()
      modifies sync, sync.view, sync.store
      ensures sync.store.Valid()
      ensures sync.inFlight == old(sync.inFlight)
      ensures r.Ok? ==>
        && id in old(sync.store.records)
        && r.value == Edited(old(sync.store.records)[id], updates, now)
        && sync.store.records == old(sync.store.records)[id := r.value]
        && sync.view.log == old(sync.view.log) + [Action.UpdateNote(r.value)]
        && sync.view.state == Reduce(old(sync.view.state), Action.UpdateNote(r.value))
        && sync.pending == (if isOnline then Arm(old(sync.pending), id, r.value) else old(sync.pending))
      ensures r.Err? ==>
        && sync.store.records == old(sync.store.records)
        && sync.view.log == old(sync.view.log) && sync.view.state == old(sync.view.state)
        && sync.pending == old(sync.pending)
      ensures id !in old(sync.store.records) ==> r.Err?
    {
      var store := sync.store;
      var existing := store.Get(id);
      if existing.Err? {
        return Err(existing.error);
      }
      if existing.value.None? {
        return Err(DataError);
      }
      var updated := Edited(existing.value.value, updates, now);
      var written := store.Put(updated, now);
      if written.Err? {
        return Err(written.error);
      }
      NormalizeForWriteFixpoint(updated, now);
      sync.view.Dispatch(Action.UpdateNote(updated));
      if isOnline {
        sync.pending := Arm(sync.pending, id, updated);
      }
      r := Ok(updated);
    }

    /**
     * `deleteNote`: any pending timer for the id is cancelled first; then
     * the note is deleted from the store and from the projection, and when
     * online from the server, whose failure is ignored.
     */
    method DeleteNote(id: string) returns (r: Result<(), StoreError>)
      requires sync.store.Valid()
      modifies sync, sync.view, sync.store, sync.remote
      ensures sync.store.Valid()
      ensures sync.inFlight == old(sync.inFlight)
      ensures sync.pending == Cancel(old(sync.pending), id)
      ensures sync.remote.pushes == old(sync.remote.pushes)
      ensures r.Ok? ==>
        && sync.store.records == old(sync.store.records) - {id}
        && sync.view.log == old(sync.view.log) + [Action.DeleteNote(id)]
        && sync.view.state == Reduce(old(sync.view.state), Action.DeleteNote(id))
        && (forall n :: n in sync.view.state.notes ==> n.id != id)
        && sync.remote.deletes == old(sync.remote.deletes) + (if isOnline then [id] else [])
      ensures r.Err? ==>
        && sync.store.records == old(sync.store.records)
        && sync.view.log == old(sync.view.log) && sync.view.state == old(sync.view.state)
        && sync.remote.deletes == old(sync.remote.deletes)
    {
      sync.pending := Cancel(sync.pending, id);
      var deleted := sync.store.Delete(id);
      if deleted.Err? {
        return Err(deleted.error);
      }
      sync.view.Dispatch(Action.DeleteNote(id));
      if isOnline {
        var _ := sync.remote.Delete(id);
      }
      r := Ok(());
    }

    /** A debounce timer's callback: `syncNote` with the note it captured, then its entry is removed. */
    method FireTimer(id: string, now: int) returns (r: Option<Note>)
      requires sync.store.Valid()
      modifies sync, sync.view, sync.store, sync.remote
      ensures sync.store.Valid()
      ensures sync.inFlight == old(sync.inFlight)
      ensures sync.pending == Fire(old(sync.pending), id).1
      ensures IdSet(sync.view.state.notes) == IdSet(old(sync.view.state.notes))
      ensures (id !in old(sync.pending) || old(sync.pending)[id].id in old(sync.inFlight)) ==>
        && r == None && sync.remote.pushes == old(sync.remote.pushes)
        && sync.view.log == old(sync.view.log) && sync.view.state == old(sync.view.state)
        && sync.store.records == old(sync.store.records)
      ensures id in old(sync.pending) && old(sync.pending)[id].id !in old(sync.inFlight) ==>
        && sync.remote.pushes == old(sync.remote.pushes) + [MarkSynced(old(sync.pending)[id])]
        && |sync.remote.replies| == |old(sync.remote.replies)| + 1
        && |sync.view.log| == |old(sync.view.log)| + 2
        && sync.view.log[|old(sync.view.log)|] == SetSyncStatus(old(sync.pending)[id].id, Syncing)
        && (r.Some? ==>
              && sync.remote.replies[|old(sync.remote.replies)|].Pushed?
              && r.value == SyncedCopy(old(sync.pending)[id], sync.remote.replies[|old(sync.remote.replies)|].saved)
              && sync.store.records == PutRecord(old(sync.store.records), r.value, now)
              && sync.view.log[|sync.view.log| - 1] == Action.UpdateNote(r.value))
        && (r.None? ==>
              && sync.store.records == old(sync.store.records)
              && sync.view.log[|sync.view.log| - 1] == SetSyncStatus(old(sync.pending)[id].id, Error))
    {
      var (captured, rest) := Fire(sync.pending, id);
      if captured.None? {
        return None;
      }
      r := sync.SyncNote(captured.value, now);
      sync.pending := rest;
    }
  }
}
