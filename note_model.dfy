/**
 * The record the whole engine works on: a note, as it is stored in the
 * browser's object store, held in the reducer's projection and sent to the
 * server. JavaScript objects may lack fields, so the two fields that the
 * store fills in on the way in are optional here.
 */
module NoteModel {

  datatype Option<+T> = None | Some(value: T) {
    function GetOr(default: T): T {
      match this
      case Some(v) => v
      case None => default
    }
  }

  datatype Result<+T, +E> = Ok(value: T) | Err(error: E)

  /** The four values of the `syncStatus` string field. */
  datatype Status = Unsynced | Syncing | Synced | Error

  /**
   * `updatedAt` is an integer timestamp standing for the ISO-8601 string;
   * `None` is a stored object without the field. `synced` is the truthiness
   * of the JavaScript field: an absent field reads as false everywhere it is
   * tested. `syncStatus` is `None` when the field is absent.
   */
  datatype Note = Note(
    id: string,
    title: string,
    content: string,
    updatedAt: Option<int>,
    synced: bool,
    syncStatus: Option<Status>)

  /**
   * `new Date(a.updatedAt) > new Date(b.updatedAt)`: a missing timestamp is
   * an invalid date, whose value is NaN, and every comparison with NaN is
   * false.
   */
  predicate Later(a: Note, b: Note)
  {
    a.updatedAt.Some? && b.updatedAt.Some? && a.updatedAt.value > b.updatedAt.value
  }

  /** `Later` is a strict order, and a note without a timestamp is never later nor earlier than another. */
  lemma LaterIsStrict(a: Note, b: Note, c: Note)
    ensures !Later(a, a)
    ensures Later(a, b) ==> !Later(b, a)
    ensures Later(a, b) && Later(b, c) ==> Later(a, c)
    ensures a.updatedAt.None? || b.updatedAt.None? ==> !Later(a, b) && !Later(b, a)
  {
  }

  /**
   * `{...n, synced: true, syncStatus: "synced"}`: the copy the merge adopts
   * from the server, and the copy a sync pushes.
   */
  function MarkSynced(n: Note): (r: Note)
    ensures r.synced && r.syncStatus == Some(Synced)
    ensures r.(synced := n.synced, syncStatus := n.syncStatus) == n
  {
    n.(synced := true, syncStatus := Some(Synced))
  }

  predicate Timestamped(xs: seq<Note>)
  {
    forall i :: 0 <= i < |xs| ==> xs[i].updatedAt.Some?
  }

  ghost function IdSet(xs: seq<Note>): set<string>
  {
    set n | n in xs :: n.id
  }

  ghost predicate UniqueIds(xs: seq<Note>)
  {
    forall i, j :: 0 <= i < j < |xs| ==> xs[i].id != xs[j].id
  }

  /** Position of the first note with the given id, or |xs| when there is none. */
  function IndexOf(xs: seq<Note>, id: string): (i: nat)
    ensures i <= |xs|
    ensures i < |xs| ==> xs[i].id == id
    ensures forall j :: 0 <= j < i ==> xs[j].id != id
  {
    if xs == [] then 0
    else if xs[0].id == id then 0
    else 1 + IndexOf(xs[1..], id)
  }

  /** The entry for an id, as `Map.get` would return it. */
  function Lookup(xs: seq<Note>, id: string): (r: Option<Note>)
    ensures r.Some? ==> r.value in xs && r.value.id == id
    ensures r.None? <==> (forall j :: 0 <= j < |xs| ==> xs[j].id != id)
  {
    var i := IndexOf(xs, id);
    if i < |xs| then Some(xs[i]) else None
  }

  /**
   * `Map.set(n.id, n)` on a list of entries kept one per id: an existing
   * entry is replaced where it stands, a new id is appended.
   */
  function Put(xs: seq<Note>, n: Note): (r: seq<Note>)
    ensures IdSet(r) == IdSet(xs) + {n.id}
    ensures UniqueIds(xs) ==> UniqueIds(r)
    ensures Lookup(r, n.id) == Some(n)
  {
    var i := IndexOf(xs, n.id);
    var r := if i < |xs| then xs[i := n] else xs + [n];
    assert IdSet(r) == IdSet(xs) + {n.id} by {
      forall d | d in IdSet(xs) + {n.id} ensures d in IdSet(r) {
        if d != n.id {
          var k :| 0 <= k < |xs| && xs[k].id == d;
          assert r[k] == xs[k];
        } else {
          assert r[i] == n;
        }
      }
    }
    assert r[i].id == n.id;
    assert forall j :: 0 <= j < i ==> r[j].id != n.id;
    assert IndexOf(r, n.id) == i;
    r
  }

  lemma IdSetIndex(xs: seq<Note>, id: string)
    ensures id in IdSet(xs) <==> IndexOf(xs, id) < |xs|
  {
    if id in IdSet(xs) {
      var n :| n in xs && n.id == id;
    }
  }

  /** A write to one id leaves the entry of every other id where it was. */
  lemma PutOther(xs: seq<Note>, n: Note, d: string)
    requires d != n.id
    ensures Lookup(Put(xs, n), d) == Lookup(xs, d)
  {
    var i := IndexOf(xs, n.id);
    var r := Put(xs, n);
    var k := IndexOf(xs, d);
    if k < |xs| {
      assert r[k] == xs[k];
      assert forall j :: 0 <= j < k ==> r[j].id != d;
    } else {
      assert forall j :: 0 <= j < |r| ==> r[j].id != d;
    }
  }

  /** Putting a note whose id is new to a list is an append. */
  lemma PutNew(xs: seq<Note>, n: Note)
    requires n.id !in IdSet(xs)
    ensures Put(xs, n) == xs + [n]
  {
    IdSetIndex(xs, n.id);
  }

  /** On a list with one entry per id, an entry is found at its own position. */
  lemma IndexOfUnique(xs: seq<Note>, k: nat)
    requires UniqueIds(xs) && k < |xs|
    ensures IndexOf(xs, xs[k].id) == k
  {
  }
}
