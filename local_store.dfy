/**
 * The browser object store `notes` (key path `id`) and the module-level
 * operations on it. The store is a map from id to stored note; its records
 * are also kept in ascending key order, because the Indexed Database API
 * hands out `getAll` results and cursor positions in that order. Any storage
 * request can fail; the outcome of each one is chosen nondeterministically.
 */
module LocalStore {
  import opened NoteModel

  datatype StoreError =
    | ConstraintError   // `add` of a key that is already present
    | RequestError      // any other failed request (I/O, quota, aborted transaction)
    | DataError         // the object written has no `id`, so no key can be taken from it

  // ---------------------------------------------------------------------------
  // Key order: strings compare lexicographically, a proper prefix first.
  // ---------------------------------------------------------------------------

  predicate KeyLess(a: string, b: string)
  {
    if |a| == 0 then |b| > 0
    else if |b| == 0 then false
    else if a[0] == b[0] then KeyLess(a[1..], b[1..])
    else a[0] < b[0]
  }

  lemma {:induction false} KeyLessIrreflexive(a: string)
    ensures !KeyLess(a, a)
  {
    if |a| > 0 {
      KeyLessIrreflexive(a[1..]);
    }
  }

  lemma {:induction false} KeyLessTransitive(a: string, b: string, c: string)
    requires KeyLess(a, b) && KeyLess(b, c)
    ensures KeyLess(a, c)
  {
    if |a| > 0 && a[0] == b[0] && b[0] == c[0] {
      KeyLessTransitive(a[1..], b[1..], c[1..]);
    }
  }

  lemma {:induction false} KeyLessTotal(a: string, b: string)
    requires a != b
    ensures KeyLess(a, b) || KeyLess(b, a)
  {
    if |a| > 0 && |b| > 0 && a[0] == b[0] {
      assert a == [a[0]] + a[1..] && b == [b[0]] + b[1..];
      KeyLessTotal(a[1..], b[1..]);
    }
  }

  ghost predicate SortedKeys(keys: seq<string>)
  {
    forall i, j :: 0 <= i < j < |keys| ==> KeyLess(keys[i], keys[j])
  }

  /** Where a new key enters the ordered record list. */
  function InsertKey(keys: seq<string>, k: string): (r: seq<string>)
    requires SortedKeys(keys) && k !in keys
    ensures SortedKeys(r)
    ensures forall x :: x in r <==> x in keys || x == k
    ensures |r| == |keys| + 1
  {
    if keys == [] then [k]
    else if KeyLess(k, keys[0]) then
      assert SortedKeys([k] + keys) by {
        var s := [k] + keys;
        forall i, j | 0 <= i < j < |s| ensures KeyLess(s[i], s[j]) {
          if i == 0 && j > 1 {
            KeyLessTransitive(k, keys[0], keys[j - 1]);
          }
        }
      }
      [k] + keys
    else
      var rest := InsertKey(keys[1..], k);
      assert SortedKeys([keys[0]] + rest) by {
        KeyLessTotal(k, keys[0]);
        forall j | 0 <= j < |rest| ensures KeyLess(keys[0], rest[j]) {
          if rest[j] != k {
            assert rest[j] in keys[1..];
            var m :| 0 <= m < |keys[1..]| && keys[1..][m] == rest[j];
            assert keys[m + 1] == rest[j];
          }
        }
      }
      [keys[0]] + rest
  }

  /** The ordered record list with one key taken out. */
  function RemoveKey(keys: seq<string>, k: string): (r: seq<string>)
    requires SortedKeys(keys)
    ensures SortedKeys(r)
    ensures forall x :: x in r <==> x in keys && x != k
  {
    if keys == [] then []
    else if keys[0] == k then
      assert forall x :: x in keys[1..] ==> x != k by {
        forall j | 1 <= j < |keys| ensures keys[j] != k {
          assert KeyLess(keys[0], keys[j]);
          KeyLessIrreflexive(k);
        }
      }
      keys[1..]
    else
      var rest := RemoveKey(keys[1..], k);
      assert SortedKeys([keys[0]] + rest) by {
        forall j | 0 <= j < |rest| ensures KeyLess(keys[0], rest[j]) {
          assert rest[j] in keys[1..];
          var m :| 0 <= m < |keys[1..]| && keys[1..][m] == rest[j];
          assert keys[m + 1] == rest[j];
        }
      }
      [keys[0]] + rest
  }

  // ---------------------------------------------------------------------------
  // Normalisation at the store boundary
  // ---------------------------------------------------------------------------

  predicate Normalized(n: Note)
  {
    n.syncStatus.Some? && n.updatedAt.Some?
  }

  /**
   * `{...note, synced: Boolean(note.synced || false), syncStatus: note.syncStatus || "unsynced",
   * updatedAt: note.updatedAt || now}`, as `addNote` and `updateNote` build it.
   */
  function NormalizeForWrite(n: Note, now: int): (r: Note)
    ensures Normalized(r)
    ensures r.(syncStatus := n.syncStatus, updatedAt := n.updatedAt) == n
    ensures n.syncStatus.Some? ==> r.syncStatus == n.syncStatus
    ensures n.syncStatus.None? ==> r.syncStatus == Some(Unsynced)
    ensures n.updatedAt.Some? ==> r.updatedAt == n.updatedAt
    ensures n.updatedAt.None? ==> r.updatedAt == Some(now)
  {
    n.(syncStatus := Some(n.syncStatus.GetOr(Unsynced)), updatedAt := Some(n.updatedAt.GetOr(now)))
  }

  /** `{...note, synced: Boolean(note.synced), syncStatus: note.syncStatus || "unsynced"}`: no default for `updatedAt`. */
  function NormalizeForRead(n: Note): (r: Note)
    ensures r.syncStatus.Some?
    ensures r.(syncStatus := n.syncStatus) == n
    ensures n.syncStatus.Some? ==> r == n
    ensures n.syncStatus.None? ==> r.syncStatus == Some(Unsynced)
  {
    n.(syncStatus := Some(n.syncStatus.GetOr(Unsynced)))
  }

  /** A note that was already normalised comes through a write unchanged. */
  lemma NormalizeForWriteFixpoint(n: Note, now: int)
    requires Normalized(n)
    ensures NormalizeForWrite(n, now) == n
  {
  }

  /** What a write stored, a read gives back unchanged. */
  lemma ReadAfterWrite(n: Note, now: int)
    ensures NormalizeForRead(NormalizeForWrite(n, now)) == NormalizeForWrite(n, now)
  {
  }

  /** The effect of a successful `put` on the records. */
  function PutRecord(records: map<string, Note>, n: Note, now: int): (r: map<string, Note>)
    ensures r.Keys == records.Keys + {n.id}
    ensures Normalized(r[n.id])
    ensures forall k :: k in records && k != n.id ==> r[k] == records[k]
  {
    records[n.id := NormalizeForWrite(n, now)]
  }

  /** Putting a note twice leaves the records as putting it once. */
  lemma PutTwice(records: map<string, Note>, n: Note, now: int, later: int)
    ensures PutRecord(PutRecord(records, n, now), NormalizeForWrite(n, now), later) == PutRecord(records, n, now)
    ensures Normalized(n) ==> PutRecord(PutRecord(records, n, now), n, later) == PutRecord(records, n, now)
  {
  }

  // ---------------------------------------------------------------------------
  // The "needs sync" scan
  // ---------------------------------------------------------------------------

  /** `!note.synced || note.syncStatus === "unsynced" || note.syncStatus === "error"` */
  predicate NeedsSync(n: Note)
    ensures !n.synced ==> NeedsSync(n)
    ensures n.synced && n.syncStatus == Some(Synced) ==> !NeedsSync(n)
  {
    !n.synced || n.syncStatus == Some(Unsynced) || n.syncStatus == Some(Error)
  }

  /** `getAllNotes`' result for the stored notes, in key order. */
  function ReadAll(stored: seq<Note>): (r: seq<Note>)
    ensures |r| == |stored|
    ensures forall i :: 0 <= i < |stored| ==> r[i] == NormalizeForRead(stored[i])
  {
    seq(|stored|, i requires 0 <= i < |stored| => NormalizeForRead(stored[i]))
  }

  function Filter(xs: seq<Note>): (r: seq<Note>)
    ensures forall n :: n in r <==> n in xs && NeedsSync(n)
  {
    if xs == [] then []
    else if NeedsSync(xs[0]) then [xs[0]] + Filter(xs[1..])
    else Filter(xs[1..])
  }

  /** The cursor scan: the predicate is tested on the stored note, the pushed copy is normalised. */
  function CursorScan(stored: seq<Note>): (r: seq<Note>)
    ensures |r| <= |stored|
    ensures forall x :: x in r ==> NeedsSync(x)
  {
    if stored == [] then []
    else if NeedsSync(stored[|stored| - 1]) then CursorScan(stored[..|stored| - 1]) + [NormalizeForRead(stored[|stored| - 1])]
    else CursorScan(stored[..|stored| - 1])
  }

  /** The fallback: the same predicate applied to `getAllNotes`' normalised result. */
  function FallbackScan(stored: seq<Note>): (r: seq<Note>)
    ensures forall x :: x in r ==> NeedsSync(x)
  {
    Filter(ReadAll(stored))
  }

  /** Every note the cursor scan returns needs sync, and is the normalised copy of a stored note that does. */
  lemma {:induction false} CursorScanMembers(stored: seq<Note>)
    ensures forall n :: n in CursorScan(stored) <==> exists s :: s in stored && NeedsSync(s) && n == NormalizeForRead(s)
    ensures forall n :: n in CursorScan(stored) ==> NeedsSync(n)
  {
    if stored != [] {
      var init, last := stored[..|stored| - 1], stored[|stored| - 1];
      assert stored == init + [last];
      CursorScanMembers(init);
    }
  }

  /** The fallback returns exactly the normalised stored notes that need sync. */
  lemma FallbackScanMembers(stored: seq<Note>)
    ensures forall n :: n in FallbackScan(stored) <==> NeedsSync(n) && exists s :: s in stored && n == NormalizeForRead(s)
  {
    var all := ReadAll(stored);
    forall n ensures n in all <==> exists s :: s in stored && n == NormalizeForRead(s) {
      if n in all {
        var i :| 0 <= i < |all| && all[i] == n;
        assert stored[i] in stored;
      }
      if exists s :: s in stored && n == NormalizeForRead(s) {
        var s :| s in stored && n == NormalizeForRead(s);
        var i :| 0 <= i < |stored| && stored[i] == s;
        assert all[i] == n;
      }
    }
  }

  lemma FilterAppend(xs: seq<Note>, n: Note)
    ensures Filter(xs + [n]) == Filter(xs) + (if NeedsSync(n) then [n] else [])
  {
    if xs != [] {
      assert (xs + [n])[1..] == xs[1..] + [n];
      FilterAppend(xs[1..], n);
    }
  }

  /** The two paths agree on every store in which each note carries a `syncStatus`, as every write leaves it. */
  lemma {:induction false} ScansAgree(stored: seq<Note>)
    requires forall i :: 0 <= i < |stored| ==> stored[i].syncStatus.Some?
    ensures CursorScan(stored) == FallbackScan(stored)
  {
    if stored != [] {
      var init, last := stored[..|stored| - 1], stored[|stored| - 1];
      ScansAgree(init);
      assert ReadAll(stored) == ReadAll(init) + [NormalizeForRead(last)];
      FilterAppend(ReadAll(init), NormalizeForRead(last));
    }
  }

  /** Every record carries the fields a write fills in. */
  ghost predicate AllWritten(records: map<string, Note>)
  {
    forall k :: k in records ==> Normalized(records[k])
  }

  /** A `put` or `add` keeps every record written. */
  lemma PutRecordWritten(records: map<string, Note>, n: Note, now: int)
    requires AllWritten(records)
    ensures AllWritten(PutRecord(records, n, now))
  {
  }

  /** A synced note stored without `syncStatus` is skipped by the cursor and returned by the fallback. */
  lemma ScansDifferWithoutStatus(n: Note)
    requires n.synced && n.syncStatus.None?
    ensures CursorScan([n]) == []
    ensures FallbackScan([n]) == [n.(syncStatus := Some(Unsynced))]
  {
    var m := n.(syncStatus := Some(Unsynced));
    assert [n][..0] == [];
    assert ReadAll([n]) == [m];
    assert [m][1..] == [];
    assert Filter([m]) == [m] + Filter([]);
  }

  // ---------------------------------------------------------------------------
  // The object store
  // ---------------------------------------------------------------------------

  class NoteStore {
    /** The records, keyed by `id`. */
    var records: map<string, Note>
    /** The same keys in ascending order: the order of `getAll` and of a cursor. */
    var keys: seq<string>

    ghost predicate Valid()
      reads this
    {
      && SortedKeys(keys)
      && (forall k :: k in records <==> k in keys)
      && (forall k :: k in records ==> records[k].id == k)
    }

    /** The stored notes, in key order. */
    function Snapshot(): (s: seq<Note>)
      reads this
      requires Valid()
      ensures |s| == |keys|
      ensures forall i :: 0 <= i < |keys| ==> s[i] == records[keys[i]]
    {
      seq(|keys|, i requires 0 <= i < |keys| && keys[i] in records reads this => records[keys[i]])
    }

    constructor ()
      ensures Valid() && records == map[]
    {
      records := map[];
      keys := [];
    }

    /** In a store every record of which went through `addNote` or `updateNote`, the cursor scan and the fallback return the same list. */
    lemma WrittenScansAgree()
      requires Valid() && AllWritten(records)
      ensures CursorScan(Snapshot()) == FallbackScan(Snapshot())
    {
      var s := Snapshot();
      forall i | 0 <= i < |s| ensures s[i].syncStatus.Some? {
        assert s[i] == records[keys[i]];
      }
      ScansAgree(s);
    }

    /** The record list after a key has been set. */
    method SetRecord(stored: Note)
      requires Valid()
      modifies this
      ensures Valid()
      ensures records == old(records)[stored.id := stored]
    {
      if stored.id !in records {
        keys := InsertKey(keys, stored.id);
      }
      records := records[stored.id := stored];
    }

    /** `addNote`: an `add` request, which fails if the id is already stored. */
    method Add(note: Note, now: int) returns (r: Result<Note, StoreError>)
      requires Valid()
      modifies this
      ensures Valid()
      ensures note.id in old(records) ==> r == Err(ConstraintError)
      ensures r.Ok? ==> r.value == NormalizeForWrite(note, now) && note.id !in old(records)
      ensures r.Ok? ==> records == old(records)[note.id := r.value]
      ensures r.Err? ==> records == old(records) && keys == old(keys)
    {
      var noteToAdd := NormalizeForWrite(note, now);
      if note.id in records {
        return Err(ConstraintError);
      }
      var failed: bool := *;
      if failed {
        return Err(RequestError);
      }
      SetRecord(noteToAdd);
      r := Ok(noteToAdd);
    }

    /** `updateNote`: a `put` request, an upsert. */
    method Put(note: Note, now: int) returns (r: Result<Note, StoreError>)
      requires Valid()
      modifies this
      ensures Valid()
      ensures r.Ok? ==> r.value == NormalizeForWrite(note, now) && records == PutRecord(old(records), note, now)
      ensures r.Err? ==> r == Err(RequestError) && records == old(records) && keys == old(keys)
    {
      var noteToUpdate := NormalizeForWrite(note, now);
      var failed: bool := *;
      if failed {
        return Err(RequestError);
      }
      SetRecord(noteToUpdate);
      r := Ok(noteToUpdate);
    }

    /** `getNote`: the stored note as it is (no normalisation), or none. */
    method Get(id: string) returns (r: Result<Option<Note>, StoreError>)
      requires Valid()
      ensures r.Ok? ==> r.value == if id in records then Some(records[id]) else None
      ensures r.Err? ==> r == Err(RequestError)
    {
      var failed: bool := *;
      if failed {
        return Err(RequestError);
      }
      r := Ok(if id in records then Some(records[id]) else None);
    }

    /** `getAllNotes`: every stored note in key order, `syncStatus` defaulted. */
    method GetAll() returns (r: Result<seq<Note>, StoreError>)
      requires Valid()
      ensures r.Ok? ==> r.value == ReadAll(Snapshot())
      ensures r.Err? ==> r == Err(RequestError)
    {
      var failed: bool := *;
      if failed {
        return Err(RequestError);
      }
      r := Ok(ReadAll(Snapshot()));
    }

    /**
     * `getUnsyncedNotes`: a cursor walk over the records in key order. An
     * error at any step abandons the walk for the fallback, which filters
     * `getAllNotes`; only a failure of that is reported.
     */
    method GetUnsynced() returns (r: Result<seq<Note>, StoreError>)
      requires Valid()
      ensures r.Ok? ==> r.value == CursorScan(Snapshot()) || r.value == FallbackScan(Snapshot())
      ensures r.Err? ==> r == Err(RequestError)
    {
      var stored := Snapshot();
      var unsyncedNotes := [];
      var i := 0;
      while true
        invariant 0 <= i <= |keys|
        invariant unsyncedNotes == CursorScan(stored[..i])
        decreases |keys| - i
      {
        var cursorFailed: bool := *;
        if cursorFailed {
          var all := GetAll();
          if all.Err? {
            return Err(RequestError);
          }
          return Ok(Filter(all.value));
        }
        if i == |keys| {
          break;
        }
        var note := records[keys[i]];
        assert stored[..i + 1][..i] == stored[..i];
        if NeedsSync(note) {
          unsyncedNotes := unsyncedNotes + [NormalizeForRead(note)];
        }
        i := i + 1;
      }
      assert stored[..i] == stored;
      r := Ok(unsyncedNotes);
    }

    /**
     * `getUnsyncedNotesWithRange`: the index query with `IDBKeyRange.only(false)`
     * throws, since a boolean is not a valid key, and the catch falls back to
     * the cursor scan.
     */
    method GetUnsyncedWithRange() returns (r: Result<seq<Note>, StoreError>)
      requires Valid()
      ensures r.Ok? ==> r.value == CursorScan(Snapshot()) || r.value == FallbackScan(Snapshot())
      ensures r.Err? ==> r == Err(RequestError)
    {
      r := GetUnsynced();
    }

    /** `deleteNote`: the id is gone, every other record is as it was. */
    method Delete(id: string) returns (r: Result<(), StoreError>)
      requires Valid()
      modifies this
      ensures Valid()
      ensures r.Ok? ==> records == old(records) - {id}
      ensures r.Err? ==> r == Err(RequestError) && records == old(records) && keys == old(keys)
    {
      var failed: bool := *;
      if failed {
        return Err(RequestError);
      }
      keys := RemoveKey(keys, id);
      records := records - {id};
      r := Ok(());
    }

    /** `clearAllNotes` */
    method Clear() returns (r: Result<(), StoreError>)
      requires Valid()
      modifies this
      ensures Valid()
      ensures r.Ok? ==> records == map[] && keys == []
      ensures r.Err? ==> r == Err(RequestError) && records == old(records) && keys == old(keys)
    {
      var failed: bool := *;
      if failed {
        return Err(RequestError);
      }
      keys := [];
      records := map[];
      r := Ok(());
    }
  }
}
