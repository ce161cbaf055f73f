/**
 * The sync orchestrator (`useNoteSync`): pushing one note to the server under
 * a single-flight guard, and the sequential sweep over every note that still
 * needs syncing. The projection is driven only through `dispatch`, the local
 * store only through its request methods, the server only through `Remote`.
 *
 * `syncNote` awaits the server between its guard and its outcome; that await
 * splits it here into `BeginSync` and `FinishSync`, so that a second call for
 * the same id made while the first one is waiting can be expressed.
 */
module NoteSync {
  import opened NoteModel
  import opened NoteUtils
  import opened NotesReducer
  import opened LocalStore
  import opened RemoteApi

  /**
   * `{...note, ...syncedNote, synced: true, syncStatus: "synced"}`: the
   * server's copy laid over the local note. The server's copy carries every
   * field it knows; a timestamp it lacks is taken from the local note.
   */
  function SyncedCopy(note: Note, saved: Note): (r: Note)
    ensures r.synced && r.syncStatus == Some(Synced)
    ensures r.id == saved.id && r.title == saved.title && r.content == saved.content
    ensures saved.updatedAt.Some? ==> r.updatedAt == saved.updatedAt
    ensures saved.updatedAt.None? ==> r.updatedAt == note.updatedAt
  {
    MarkSynced(saved.(updatedAt := if saved.updatedAt.Some? then saved.updatedAt else note.updatedAt))
  }

  /** What a sweep sends to the server: each note of the batch whose id is not already in flight, marked synced. */
  function SweepPushes(batch: seq<Note>, busy: set<string>): (r: seq<Note>)
    ensures |r| <= |batch|
    ensures forall p :: p in r <==> exists n :: n in batch && n.id !in busy && p == MarkSynced(n)
  {
    if batch == [] then []
    else
      var init, n := batch[..|batch| - 1], batch[|batch| - 1];
      assert batch == init + [n];
      SweepPushes(init, busy) + (if n.id in busy then [] else [MarkSynced(n)])
  }

  /** With nothing in flight, a sweep pushes every note of the batch, in order. */
  lemma {:induction false} SweepPushesIdle(batch: seq<Note>)
    ensures |SweepPushes(batch, {})| == |batch|
    ensures forall i :: 0 <= i < |batch| ==> SweepPushes(batch, {})[i] == MarkSynced(batch[i])
  {
    if batch != [] {
      var init := batch[..|batch| - 1];
      SweepPushesIdle(init);
    }
  }

  /** A deduplicated batch pushes each id at most once. */
  lemma SweepPushesUnique(batch: seq<Note>, busy: set<string>)
    requires UniqueIds(batch)
    ensures UniqueIds(SweepPushes(batch, busy))
  {
    var r := SweepPushes(batch, busy);
    forall i, j | 0 <= i < j < |r| ensures r[i].id != r[j].id {
      assert r[i] in r && r[j] in r;
      var a :| a in batch && a.id !in busy && r[i] == MarkSynced(a);
      var b :| b in batch && b.id !in busy && r[j] == MarkSynced(b);
      SweepPushesInjective(batch, busy, i, j);
    }
  }

  /** Distinct positions of the pushes come from distinct positions of the batch, in order. */
  lemma {:induction false} SweepPushesInjective(batch: seq<Note>, busy: set<string>, i: nat, j: nat)
    requires UniqueIds(batch)
    requires i < j < |SweepPushes(batch, busy)|
    ensures SweepPushes(batch, busy)[i].id != SweepPushes(batch, busy)[j].id
  {
    var init, n := batch[..|batch| - 1], batch[|batch| - 1];
    assert batch == init + [n];
    var r0 := SweepPushes(init, busy);
    if j < |r0| {
      SweepPushesInjective(init, busy, i, j);
    } else {
      assert r0[i] in r0;
      var a :| a in init && a.id !in busy && r0[i] == MarkSynced(a);
      var k :| 0 <= k < |init| && init[k] == a;
      assert batch[k] == a;
    }
  }

  /** The note pushed stands for the local note in the synced copy: only its timestamp is used, and marking keeps it. */
  lemma SyncedCopyOfPushed(note: Note, saved: Note)
    ensures SyncedCopy(MarkSynced(note), saved) == SyncedCopy(note, saved)
  {
  }

  /**
   * A record written by one of a sweep's pushes: for some push `m` that the
   * server answered with `saved`, the synced copy of the pushed note over
   * `saved`, as the store normalises it.
   */
  ghost predicate WrittenByPush(r: Note, pushes: seq<Note>, replies: seq<PushOutcome>, now: int)
  {
    exists m :: 0 <= m < |pushes| && m < |replies| && replies[m].Pushed?
      && r == NormalizeForWrite(SyncedCopy(pushes[m], replies[m].saved), now)
  }

  /**
   * The store after a sweep that made `pushes` and got `replies`: no record
   * is lost, and each record is the one from before or was written by one
   * of the pushes from the server's reply to it.
   */
  ghost predicate SweptStore(before: map<string, Note>, after: map<string, Note>,
                             pushes: seq<Note>, replies: seq<PushOutcome>, now: int)
  {
    && before.Keys <= after.Keys
    && forall k :: k in after ==> (k in before && after[k] == before[k]) || WrittenByPush(after[k], pushes, replies, now)
  }

  /** One more push and its reply: the store is left alone or gets the synced copy of the pushed note. */
  lemma SweptStoreStep(before: map<string, Note>, mid: map<string, Note>, after: map<string, Note>,
                       pushes: seq<Note>, replies: seq<PushOutcome>, p: Note, o: PushOutcome, now: int)
    requires |pushes| == |replies|
    requires SweptStore(before, mid, pushes, replies, now)
    requires after == mid || (o.Pushed? && after == PutRecord(mid, SyncedCopy(p, o.saved), now))
    ensures SweptStore(before, after, pushes + [p], replies + [o], now)
  {
    var P, R := pushes + [p], replies + [o];
    forall k | k in after
      ensures (k in before && after[k] == before[k]) || WrittenByPush(after[k], P, R, now)
    {
      if after != mid && k == SyncedCopy(p, o.saved).id {
        var m := |pushes|;
        assert P[m] == p && R[m] == o;
        assert after[k] == NormalizeForWrite(SyncedCopy(P[m], R[m].saved), now);
      } else if !(k in before && mid[k] == before[k]) {
        assert WrittenByPush(mid[k], pushes, replies, now);
        var m :| 0 <= m < |pushes| && m < |replies| && replies[m].Pushed?
          && mid[k] == NormalizeForWrite(SyncedCopy(pushes[m], replies[m].saved), now);
        assert P[m] == pushes[m] && R[m] == replies[m];
      }
    }
  }

  /** What one `syncNote` that reached the server does to the sweep's store relation: it gains that push and its reply. */
  lemma SyncedOneMore(before: map<string, Note>, mid: map<string, Note>, after: map<string, Note>,
                      pushed: seq<Note>, rr: seq<PushOutcome>, replies: seq<PushOutcome>, r0: nat,
                      note: Note, synced: Option<Note>, now: int)
    requires r0 <= |rr| && |rr| == r0 + |pushed|
    requires SweptStore(before, mid, pushed, rr[r0..], now)
    requires rr <= replies && |replies| == |rr| + 1
    requires synced.Some? ==>
      && replies[|rr|].Pushed? && synced.value == SyncedCopy(note, replies[|rr|].saved)
      && after == PutRecord(mid, synced.value, now)
    requires synced.None? ==> after == mid
    ensures SweptStore(before, after, pushed + [MarkSynced(note)], replies[r0..], now)
  {
    var o := replies[|rr|];
    assert replies == rr + [o];
    assert replies[r0..] == rr[r0..] + [o];
    if synced.Some? {
      SyncedCopyOfPushed(note, o.saved);
    }
    SweptStoreStep(before, mid, after, pushed, rr[r0..], MarkSynced(note), o, now);
  }

  /** An entry of a log stays where it is when the log grows. */
  lemma PrefixIndex<T>(a: seq<T>, b: seq<T>, k: nat)
    requires a <= b && k < |a|
    ensures b[k] == a[k]
  {
    assert b[..|a|] == a;
  }

  /** `useNoteSync`'s refs and the collaborators it talks to. */
  class SyncHook {
    const store: NoteStore
    const view: NotesView
    const remote: Remote
    /** `syncingNotesRef`: the ids whose push is under way. */
    var inFlight: set<string>
    /** `pendingUpdatesRef`: per id, the note its debounce timer will push when it fires. */
    var pending: map<string, Note>

    constructor (store: NoteStore, view: NotesView, remote: Remote)
      ensures this.store == store && this.view == view && this.remote == remote
      ensures inFlight == {} && pending == map[]
    {
      this.store := store;
      this.view := view;
      this.remote := remote;
      inFlight := {};
      pending := map[];
    }

    /**
     * The part of `syncNote` before the server call: an id already in flight
     * makes it return at once; otherwise the id is claimed and `"syncing"`
     * is dispatched for it.
     */
    method BeginSync(note: Note) returns (started: bool)
      modifies this, view
      ensures started <==> note.id !in old(inFlight)
      ensures started ==> inFlight == old(inFlight) + {note.id}
      ensures started ==> view.log == old(view.log) + [SetSyncStatus(note.id, Syncing)]
      ensures started ==> view.state == Reduce(old(view.state), SetSyncStatus(note.id, Syncing))
      ensures !started ==> inFlight == old(inFlight) && view.log == old(view.log) && view.state == old(view.state)
      ensures pending == old(pending)
    {
      if note.id in inFlight {
        return false;
      }
      inFlight := inFlight + {note.id};
      view.Dispatch(SetSyncStatus(note.id, Syncing));
      started := true;
    }

    /**
     * The part of `syncNote` after the server answered: on success the synced
     * copy is written to the store and dispatched; if the server or the store
     * failed, only status `"error"` is dispatched. The id is released on
     * every path.
     */
    method FinishSync(note: Note, outcome: PushOutcome, now: int) returns (r: Option<Note>)
      requires store.Valid()
      modifies this, view, store
      ensures store.Valid()
      ensures inFlight == old(inFlight) - {note.id}
      ensures pending == old(pending)
      ensures outcome.PushFailed? ==> r == None
      ensures r.Some? ==> outcome.Pushed? && r.value == SyncedCopy(note, outcome.saved)
      ensures r.Some? ==> store.records == PutRecord(old(store.records), r.value, now)
      ensures r.Some? ==> view.log == old(view.log) + [UpdateNote(r.value)]
      ensures r.None? ==> store.records == old(store.records)
      ensures r.None? ==> view.log == old(view.log) + [SetSyncStatus(note.id, Error)]
      ensures view.state == Reduce(old(view.state), view.log[|view.log| - 1])
    {
      r := None;
      if outcome.Pushed? {
        var updated := SyncedCopy(note, outcome.saved);
        var written := store.Put(updated, now);
        if written.Ok? {
          view.Dispatch(UpdateNote(updated));
          r := Some(updated);
        }
      }
      if r.None? {
        view.Dispatch(SetSyncStatus(note.id, Error));
      }
      inFlight := inFlight - {note.id};
    }

    /**
     * `syncNote(note)`, run to completion: nothing happens for an id in
     * flight; otherwise the note goes to the server marked synced, and the
     * status moves to `"syncing"` and then to `"synced"` or `"error"`.
     */
    method SyncNote(note: Note, now: int) returns (r: Option<Note>)
      requires store.Valid()
      modifies this, view, store, remote
      ensures store.Valid()
      ensures inFlight == old(inFlight) && pending == old(pending)
      ensures remote.deletes == old(remote.deletes)
      ensures view.state.isSyncing == old(view.state.isSyncing)
      ensures view.state.isLoading == old(view.state.isLoading)
      ensures old(view.log) <= view.log
      ensures old(remote.replies) <= remote.replies
      ensures IdSet(view.state.notes) == IdSet(old(view.state.notes))
      ensures note.id in old(inFlight) ==>
        && r == None && view.log == old(view.log) && view.state == old(view.state)
        && store.records == old(store.records)
        && remote.pushes == old(remote.pushes) && remote.replies == old(remote.replies)
      ensures note.id !in old(inFlight) ==>
        && remote.pushes == old(remote.pushes) + [MarkSynced(note)]
        && |remote.replies| == |old(remote.replies)| + 1
        && |view.log| == |old(view.log)| + 2
        && view.log[|old(view.log)|] == SetSyncStatus(note.id, Syncing)
        && view.state == Reduce(Reduce(old(view.state), SetSyncStatus(note.id, Syncing)), view.log[|view.log| - 1])
        && (remote.replies[|old(remote.replies)|].PushFailed? ==> r == None)
        && (r.Some? ==>
              && remote.replies[|old(remote.replies)|].Pushed?
              && r.value == SyncedCopy(note, remote.replies[|old(remote.replies)|].saved)
              && store.records == PutRecord(old(store.records), r.value, now)
              && view.log[|view.log| - 1] == UpdateNote(r.value))
        && (r.None? ==>
              && store.records == old(store.records)
              && view.log[|view.log| - 1] == SetSyncStatus(note.id, Error))
    {
      ghost var s0 := view.state;
      var started := BeginSync(note);
      if !started {
        return None;
      }
      SetSyncStatusKeepsIds(s0, note.id, Syncing);
      ghost var s1 := view.state;
      var outcome := remote.CreateOrUpdate(MarkSynced(note));
      r := FinishSync(note, outcome, now);
      if r.Some? {
        UpdateNoteKeepsIds(s1, r.value);
      } else {
        SetSyncStatusKeepsIds(s1, note.id, Error);
      }
    }

    /**
     * One turn of the loop of `syncAll`: `syncNote` for one note. The store
     * relation of the sweep so far, over the pushes made so far and the
     * replies recorded since `r0`, grows by this note's push and reply.
     */
    method SweepOne(note: Note, now: int, ghost before: map<string, Note>, ghost pushed: seq<Note>, ghost r0: nat)
      requires store.Valid()
      requires r0 <= |remote.replies| && |remote.replies| == r0 + |pushed|
      requires SweptStore(before, store.records, pushed, remote.replies[r0..], now)
      modifies this, view, store, remote
      ensures store.Valid()
      ensures inFlight == old(inFlight) && pending == old(pending)
      ensures remote.deletes == old(remote.deletes)
      ensures remote.pushes == old(remote.pushes) + (if note.id in old(inFlight) then [] else [MarkSynced(note)])
      ensures old(remote.replies) <= remote.replies
      ensures |remote.replies| == r0 + |pushed| + (if note.id in old(inFlight) then 0 else 1)
      ensures SweptStore(before, store.records, pushed + (if note.id in old(inFlight) then [] else [MarkSynced(note)]),
                         remote.replies[r0..], now)
      ensures old(view.log) <= view.log
      ensures view.state.isSyncing == old(view.state.isSyncing)
      ensures view.state.isLoading == old(view.state.isLoading)
    {
      ghost var mid, rr := store.records, remote.replies;
      var synced := SyncNote(note, now);
      if note.id !in old(inFlight) {
        SyncedOneMore(before, mid, store.records, pushed, rr, remote.replies, r0, note, synced, now);
      } else {
        assert pushed + [] == pushed;
      }
    }

    /** The loop of `syncAll`: `syncNote` for each note of the batch, one after the other. */
    method Sweep(notes: seq<Note>, now: int)
      requires store.Valid()
      modifies this, view, store, remote
      ensures store.Valid()
      ensures inFlight == old(inFlight) && pending == old(pending)
      ensures remote.deletes == old(remote.deletes)
      ensures remote.pushes == old(remote.pushes) + SweepPushes(notes, old(inFlight))
      ensures old(remote.replies) <= remote.replies
      ensures |remote.replies| == |old(remote.replies)| + |SweepPushes(notes, old(inFlight))|
      ensures SweptStore(old(store.records), store.records, SweepPushes(notes, old(inFlight)), remote.replies[|old(remote.replies)|..], now)
      ensures old(view.log) <= view.log
      ensures view.state.isSyncing == old(view.state.isSyncing)
      ensures view.state.isLoading == old(view.state.isLoading)
    {
      ghost var busy, r0 := inFlight, |remote.replies|;
      assert SweptStore(store.records, store.records, SweepPushes(notes[..0], busy), remote.replies[r0..], now);
      for i := 0 to |notes|
        invariant store.Valid()
        invariant inFlight == busy && pending == old(pending)
        invariant remote.deletes == old(remote.deletes)
        invariant remote.pushes == old(remote.pushes) + SweepPushes(notes[..i], busy)
        invariant old(remote.replies) <= remote.replies
        invariant |remote.replies| == r0 + |SweepPushes(notes[..i], busy)|
        invariant SweptStore(old(store.records), store.records, SweepPushes(notes[..i], busy), remote.replies[r0..], now)
        invariant old(view.log) <= view.log
        invariant view.state.isSyncing == old(view.state.isSyncing)
        invariant view.state.isLoading == old(view.state.isLoading)
      {
        assert notes[..i + 1] == notes[..i] + [notes[i]];
        assert SweepPushes(notes[..i + 1], busy)
          == SweepPushes(notes[..i], busy) + (if notes[i].id in busy then [] else [MarkSynced(notes[i])]);
        SweepOne(notes[i], now, old(store.records), SweepPushes(notes[..i], busy), r0);
      }
      assert notes[..|notes|] == notes;
    }

    /** The end of the sweep: the projection is replaced with the deduplicated store contents, if they can be read. */
    method Refresh() returns (ghost refreshed: bool)
      requires store.Valid()
      modifies view
      ensures refreshed ==> view.state.notes == Dedup(ReadAll(store.Snapshot()))
      ensures refreshed ==> old(view.log) <= view.log && |view.log| == |old(view.log)| + 1 && view.log[|old(view.log)|].SetNotes?
      ensures !refreshed ==> view.log == old(view.log) && view.state == old(view.state)
      ensures view.state.isSyncing == old(view.state.isSyncing)
      ensures view.state.isLoading == old(view.state.isLoading)
    {
      refreshed := false;
      var all := store.GetAll();
      if all.Ok? {
        var refreshedNotes := DeduplicateNotes(all.value);
        view.Dispatch(SetNotes(refreshedNotes));
        DedupIdempotent(all.value);
        refreshed := true;
      }
    }

    /**
     * The `try` block of `syncAll`: read the notes that need syncing, push
     * them one by one, then refresh the projection. A failed read ends the
     * block early. `batch` is the list the sweep went through (empty when
     * the store could not be read), and `refreshed` says whether the
     * projection was replaced.
     */
    method SweepUnsynced(now: int) returns (ghost batch: seq<Note>, ghost refreshed: bool)
      requires store.Valid()
      modifies this, view, store, remote
      ensures store.Valid()
      ensures inFlight == old(inFlight) && pending == old(pending)
      ensures remote.deletes == old(remote.deletes)
      ensures old(view.log) <= view.log
      ensures view.state.isSyncing == old(view.state.isSyncing)
      ensures view.state.isLoading == old(view.state.isLoading)
      ensures batch == [] || batch == Dedup(CursorScan(old(store.Snapshot()))) || batch == Dedup(FallbackScan(old(store.Snapshot())))
      ensures remote.pushes == old(remote.pushes) + SweepPushes(batch, old(inFlight))
      ensures old(remote.replies) <= remote.replies
      ensures |remote.replies| == |old(remote.replies)| + |SweepPushes(batch, old(inFlight))|
      ensures SweptStore(old(store.records), store.records, SweepPushes(batch, old(inFlight)), remote.replies[|old(remote.replies)|..], now)
      ensures refreshed ==> view.state.notes == Dedup(ReadAll(store.Snapshot()))
    {
      batch, refreshed := [], false;
      assert SweptStore(store.records, store.records, [], remote.replies[|remote.replies|..], now);
      var unsynced := store.GetUnsynced();
      if unsynced.Ok? {
        var notes := DeduplicateNotes(unsynced.value);
        batch := notes;
        Sweep(notes, now);
        refreshed := Refresh();
      }
    }

    /**
     * `syncAll`: offline it does nothing. Online it raises `isSyncing`,
     * runs the sweep, and lowers `isSyncing` again whatever failed on the
     * way.
     */
    method SyncAll(isOnline: bool, now: int) returns (ghost batch: seq<Note>, ghost refreshed: bool)
      requires store.Valid()
      modifies this, view, store, remote
      ensures store.Valid()
      ensures inFlight == old(inFlight) && pending == old(pending)
      ensures remote.deletes == old(remote.deletes)
      ensures !isOnline ==>
        && view.log == old(view.log) && view.state == old(view.state)
        && store.records == old(store.records) && remote.pushes == old(remote.pushes)
      ensures isOnline ==>
        && |view.log| >= |old(view.log)| + 2
        && view.log[|old(view.log)|] == SetSyncing(true)
        && view.log[|view.log| - 1] == SetSyncing(false)
        && !view.state.isSyncing
        && view.state.isLoading == old(view.state.isLoading)
      ensures isOnline ==>
        && (batch == [] || batch == Dedup(CursorScan(old(store.Snapshot()))) || batch == Dedup(FallbackScan(old(store.Snapshot()))))
        && remote.pushes == old(remote.pushes) + SweepPushes(batch, old(inFlight))
        && old(remote.replies) <= remote.replies
        && |remote.replies| == |old(remote.replies)| + |SweepPushes(batch, old(inFlight))|
        && SweptStore(old(store.records), store.records, SweepPushes(batch, old(inFlight)), remote.replies[|old(remote.replies)|..], now)
      ensures refreshed ==> isOnline && view.state.notes == Dedup(ReadAll(store.Snapshot()))
    {
      batch, refreshed := [], false;
      if !isOnline {
        return;
      }
      ghost var log0 := view.log;
      view.Dispatch(SetSyncing(true));
      ghost var log1 := view.log;
      assert log1[|log0|] == SetSyncing(true);
      batch, refreshed := SweepUnsynced(now);
      ghost var log2 := view.log;
      PrefixIndex(log1, log2, |log0|);
      view.Dispatch(SetSyncing(false));
      PrefixIndex(log2, view.log, |log0|);
    }
  }
}
