/**
 * The reducer behind the in-memory projection: a closed set of action kinds
 * acting on `{notes, isSyncing, isLoading}`. Every action that rebuilds the
 * collection passes it through deduplication; deletion only filters.
 */
module NotesReducer {
  import opened NoteModel
  import opened NoteUtils

  datatype NotesState = NotesState(notes: seq<Note>, isSyncing: bool, isLoading: bool)

  /** `useReducer`'s initial state in the provider. */
  const InitialState := NotesState([], false, true)

  /** The action kinds; `Other` is any `type` string the reducer does not recognise. */
  datatype Action =
    | SetNotes(payload: seq<Note>)
    | AddNote(note: Note)
    | UpdateNote(note: Note)
    | DeleteNote(id: string)
    | SetSyncStatus(id: string, status: Status)
    | SetSyncing(syncing: bool)
    | SetLoading(loading: bool)
    | Other(kind: string)

  /** `notes.map(n => n.id === p.id ? p : n)` */
  function ReplaceById(notes: seq<Note>, p: Note): (r: seq<Note>)
    ensures |r| == |notes|
    ensures forall i :: 0 <= i < |notes| ==> r[i] == if notes[i].id == p.id then p else notes[i]
  {
    seq(|notes|, i requires 0 <= i < |notes| => if notes[i].id == p.id then p else notes[i])
  }

  /** `notes.map(n => n.id === id ? {...n, syncStatus: status} : n)` */
  function WithStatus(notes: seq<Note>, id: string, status: Status): (r: seq<Note>)
    ensures |r| == |notes|
    ensures forall i :: 0 <= i < |notes| ==>
      r[i] == if notes[i].id == id then notes[i].(syncStatus := Some(status)) else notes[i]
  {
    seq(|notes|, i requires 0 <= i < |notes| => if notes[i].id == id then notes[i].(syncStatus := Some(status)) else notes[i])
  }

  /** `notes.filter(n => n.id !== id)` */
  function RemoveById(notes: seq<Note>, id: string): (r: seq<Note>)
    ensures forall n :: n in r <==> n in notes && n.id != id
    ensures |r| <= |notes|
  {
    if notes == [] then []
    else if notes[0].id == id then RemoveById(notes[1..], id)
    else [notes[0]] + RemoveById(notes[1..], id)
  }

  /** `notesReducer` */
  function Reduce(s: NotesState, a: Action): (r: NotesState)
    ensures (a.SetNotes? || a.AddNote? || a.UpdateNote? || a.SetSyncStatus?) ==> UniqueIds(r.notes)
    ensures a.DeleteNote? && UniqueIds(s.notes) ==> UniqueIds(r.notes)
    ensures !a.SetSyncing? ==> r.isSyncing == s.isSyncing
    ensures !a.SetLoading? ==> r.isLoading == s.isLoading
    ensures (a.SetSyncing? || a.SetLoading? || a.Other?) ==> r.notes == s.notes
    ensures a.SetSyncing? ==> r.isSyncing == a.syncing
    ensures a.SetLoading? ==> r.isLoading == a.loading
  {
    match a
    case SetNotes(payload) => s.(notes := Dedup(payload))
    case AddNote(p) =>
      var exists_ := exists i :: 0 <= i < |s.notes| && s.notes[i].id == p.id;
      var updated := if exists_ then ReplaceById(s.notes, p) else [p] + s.notes;
      s.(notes := Dedup(updated))
    case UpdateNote(p) => s.(notes := Dedup(ReplaceById(s.notes, p)))
    case DeleteNote(id) =>
      var r := RemoveById(s.notes, id);
      assert UniqueIds(s.notes) ==> UniqueIds(r) by {
        if UniqueIds(s.notes) { RemoveKeepsUnique(s.notes, id); }
      }
      s.(notes := r)
    case SetSyncStatus(id, status) => s.(notes := Dedup(WithStatus(s.notes, id, status)))
    case SetSyncing(b) => s.(isSyncing := b)
    case SetLoading(b) => s.(isLoading := b)
    case Other(_) => s
  }

  lemma {:induction false} RemoveKeepsUnique(notes: seq<Note>, id: string)
    requires UniqueIds(notes)
    ensures UniqueIds(RemoveById(notes, id))
  {
    if notes != [] {
      RemoveKeepsUnique(notes[1..], id);
      var rest := RemoveById(notes[1..], id);
      if notes[0].id != id {
        forall n | n in rest ensures n.id != notes[0].id {
          var j :| 0 <= j < |notes[1..]| && notes[1..][j] == n;
          assert notes[j + 1] == n;
        }
      }
    }
  }

  /** Filtering distributes over concatenation: the kept notes stay in their order. */
  lemma {:induction false} RemoveByIdAppend(a: seq<Note>, b: seq<Note>, id: string)
    ensures RemoveById(a + b, id) == RemoveById(a, id) + RemoveById(b, id)
  {
    if a != [] {
      assert (a + b)[1..] == a[1..] + b;
      RemoveByIdAppend(a[1..], b, id);
    } else {
      assert a + b == b;
    }
  }

  /** DELETE_NOTE removes exactly the entries with the id and keeps the rest, in order. */
  lemma DeleteNoteRemoves(s: NotesState, id: string)
    ensures var r := Reduce(s, DeleteNote(id));
      && id !in IdSet(r.notes)
      && (forall n :: n in r.notes <==> n in s.notes && n.id != id)
      && (forall k :: 0 <= k <= |s.notes| ==>
            r.notes == RemoveById(s.notes[..k], id) + RemoveById(s.notes[k..], id))
  {
    forall k | 0 <= k <= |s.notes| ensures RemoveById(s.notes, id) == RemoveById(s.notes[..k], id) + RemoveById(s.notes[k..], id) {
      assert s.notes == s.notes[..k] + s.notes[k..];
      RemoveByIdAppend(s.notes[..k], s.notes[k..], id);
    }
  }

  /** A note whose id is new goes to the head of a list that has one note per id. */
  lemma AddNoteNew(s: NotesState, p: Note)
    requires UniqueIds(s.notes)
    requires p.id !in IdSet(s.notes)
    ensures Reduce(s, AddNote(p)).notes == [p] + s.notes
  {
    assert !exists i :: 0 <= i < |s.notes| && s.notes[i].id == p.id by {
      forall i | 0 <= i < |s.notes| ensures s.notes[i].id != p.id {
        assert s.notes[i] in s.notes;
      }
    }
    DedupOfUnique([p] + s.notes);
  }

  /** With unique ids, replacing by id is replacing the one entry that has it. */
  lemma ReplaceUnique(notes: seq<Note>, p: Note, k: nat)
    requires UniqueIds(notes) && k < |notes| && notes[k].id == p.id
    ensures ReplaceById(notes, p) == notes[k := p]
    ensures UniqueIds(notes[k := p])
  {
  }

  /** A note whose id is present replaces that entry where it stands. */
  lemma AddNoteExisting(s: NotesState, p: Note, k: nat)
    requires UniqueIds(s.notes)
    requires k < |s.notes| && s.notes[k].id == p.id
    ensures Reduce(s, AddNote(p)).notes == s.notes[k := p]
  {
    ReplaceUnique(s.notes, p, k);
    DedupOfUnique(s.notes[k := p]);
  }

  /** UPDATE_NOTE never inserts: the ids are those already present. */
  lemma UpdateNoteKeepsIds(s: NotesState, p: Note)
    ensures IdSet(Reduce(s, UpdateNote(p)).notes) == IdSet(s.notes)
  {
    var m := ReplaceById(s.notes, p);
    forall d | d in IdSet(s.notes) ensures d in IdSet(m) {
      var k :| 0 <= k < |s.notes| && s.notes[k].id == d;
      assert m[k].id == d;
    }
    forall d | d in IdSet(m) ensures d in IdSet(s.notes) {
      var k :| 0 <= k < |m| && m[k].id == d;
      assert s.notes[k].id == d;
    }
  }

  /** SET_SYNC_STATUS never inserts or removes: the ids are unchanged. */
  lemma SetSyncStatusKeepsIds(s: NotesState, id: string, status: Status)
    ensures IdSet(Reduce(s, SetSyncStatus(id, status)).notes) == IdSet(s.notes)
  {
    var m := WithStatus(s.notes, id, status);
    forall d | d in IdSet(s.notes) ensures d in IdSet(m) {
      var k :| 0 <= k < |s.notes| && s.notes[k].id == d;
      assert m[k].id == d;
    }
    forall d | d in IdSet(m) ensures d in IdSet(s.notes) {
      var k :| 0 <= k < |m| && m[k].id == d;
      assert s.notes[k].id == d;
    }
  }

  /** ADD_NOTE shows the payload's id, and no other id appears or goes. */
  lemma AddNoteIds(s: NotesState, p: Note)
    ensures IdSet(Reduce(s, AddNote(p)).notes) == IdSet(s.notes) + {p.id}
  {
    if exists i :: 0 <= i < |s.notes| && s.notes[i].id == p.id {
      var i :| 0 <= i < |s.notes| && s.notes[i].id == p.id;
      assert s.notes[i] in s.notes;
      UpdateNoteKeepsIds(s, p);
      assert Reduce(s, AddNote(p)).notes == Reduce(s, UpdateNote(p)).notes;
    } else {
      var m := [p] + s.notes;
      assert m[0] == p;
      forall d | d in IdSet(s.notes) ensures d in IdSet(m) {
        var n :| n in s.notes && n.id == d;
        assert n in m;
      }
      assert IdSet(m) == IdSet(s.notes) + {p.id};
    }
  }

  /** On a list with one note per id, UPDATE_NOTE replaces the entry in place, or changes nothing. */
  lemma UpdateNoteInPlace(s: NotesState, p: Note)
    requires UniqueIds(s.notes)
    ensures var r := Reduce(s, UpdateNote(p)).notes;
      if p.id in IdSet(s.notes) then r == s.notes[IndexOf(s.notes, p.id) := p] else r == s.notes
  {
    IdSetIndex(s.notes, p.id);
    if p.id in IdSet(s.notes) {
      var k := IndexOf(s.notes, p.id);
      ReplaceUnique(s.notes, p, k);
      DedupOfUnique(s.notes[k := p]);
    } else {
      assert ReplaceById(s.notes, p) == s.notes;
      DedupOfUnique(s.notes);
    }
  }

  /**
   * SET_SYNC_STATUS rewrites only the `syncStatus` of the matching note; in
   * particular `synced` is left as it was.
   */
  lemma SetSyncStatusOnlyStatus(s: NotesState, id: string, status: Status)
    requires UniqueIds(s.notes)
    ensures var r := Reduce(s, SetSyncStatus(id, status)).notes;
      && |r| == |s.notes|
      && forall i :: 0 <= i < |r| ==>
           r[i].(syncStatus := s.notes[i].syncStatus) == s.notes[i]
           && r[i].syncStatus == (if s.notes[i].id == id then Some(status) else s.notes[i].syncStatus)
  {
    var w := WithStatus(s.notes, id, status);
    forall i, j | 0 <= i < j < |w| ensures w[i].id != w[j].id {
      assert w[i].id == s.notes[i].id && w[j].id == s.notes[j].id;
    }
    DedupOfUnique(w);
    assert Reduce(s, SetSyncStatus(id, status)).notes == w;
  }

  /** SET_NOTES installs the payload deduplicated; a payload with one note per id is installed as it is. */
  lemma SetNotesInstalls(s: NotesState, payload: seq<Note>)
    ensures var r := Reduce(s, SetNotes(payload));
      && IdSet(r.notes) == IdSet(payload)
      && (forall n :: n in r.notes ==> n in payload)
      && (UniqueIds(payload) ==> r.notes == payload)
      && r.isSyncing == s.isSyncing && r.isLoading == s.isLoading
  {
    DedupSubset(payload);
    if UniqueIds(payload) {
      DedupOfUnique(payload);
    }
  }

  /** The store behind `useReducer`: the current state and the actions dispatched so far. */
  class NotesView {
    var state: NotesState
    ghost var log: seq<Action>

    constructor ()
      ensures state == InitialState && log == []
    {
      state := InitialState;
      log := [];
    }

    /** `dispatch(action)` */
    method Dispatch(a: Action)
      modifies this
      ensures state == Reduce(old(state), a)
      ensures log == old(log) + [a]
    {
      state := Reduce(state, a);
      log := log + [a];
    }
  }
}
