/**
 * Deduplication and the one-shot last-writer-wins merge of local notes with
 * the server's notes. Each is given as a specification function over lists
 * (entries kept one per id, overwritten in place) and as the loop over a
 * JavaScript Map that the source runs, proved equal to it.
 */
module NoteUtils {
  import opened NoteModel
  import opened JsMap

  // ---------------------------------------------------------------------------
  // deduplicateNotes
  // ---------------------------------------------------------------------------

  /** One step of the dedup loop: a note replaces the entry for its id only when it is strictly later. */
  function KeepNewer(acc: seq<Note>, n: Note): seq<Note>
  {
    var cur := Lookup(acc, n.id);
    if cur.None? || Later(n, cur.value) then Put(acc, n) else acc
  }

  /** `deduplicateNotes`: a left fold of `KeepNewer` over the input. */
  function Dedup(xs: seq<Note>): (r: seq<Note>)
    ensures UniqueIds(r)
    ensures IdSet(r) == IdSet(xs)
  {
    if xs == [] then []
    else
      var init, n := xs[..|xs| - 1], xs[|xs| - 1];
      assert xs == init + [n];
      assert IdSet(xs) == IdSet(init) + {n.id};
      KeepNewer(Dedup(init), n)
  }

  lemma {:induction false} DedupSubset(xs: seq<Note>)
    ensures forall k :: k in Dedup(xs) ==> k in xs
  {
    if xs != [] {
      var init, n := xs[..|xs| - 1], xs[|xs| - 1];
      assert xs == init + [n];
      DedupSubset(init);
      var d := Dedup(init);
      if Lookup(d, n.id).None? || Later(n, Lookup(d, n.id).value) {
        var i := IndexOf(d, n.id);
        forall k | k in Put(d, n) ensures k in xs {
          if k != n {
            var j :| 0 <= j < |Put(d, n)| && Put(d, n)[j] == k;
            assert d[j] == k;
          }
        }
      }
    }
  }

  /** There is an entry for `x`'s id, and `x` is not strictly later than it. */
  predicate KeptNoOlder(acc: seq<Note>, x: Note)
  {
    var cur := Lookup(acc, x.id);
    cur.Some? && !Later(x, cur.value)
  }

  /** A dedup step never makes an entry older. */
  lemma KeepNewerKeepsNoOlder(acc: seq<Note>, n: Note, x: Note)
    requires KeptNoOlder(acc, x)
    ensures KeptNoOlder(KeepNewer(acc, n), x)
  {
    var cur := Lookup(acc, n.id);
    if (cur.None? || Later(n, cur.value)) && x.id != n.id {
      PutOther(acc, n, x.id);
    }
  }

  lemma KeepNewerKeepsLast(acc: seq<Note>, n: Note)
    ensures KeptNoOlder(KeepNewer(acc, n), n)
  {
  }

  lemma {:induction false} DedupNoOlder(xs: seq<Note>)
    ensures forall i :: 0 <= i < |xs| ==> KeptNoOlder(Dedup(xs), xs[i])
  {
    if xs != [] {
      var init, n := xs[..|xs| - 1], xs[|xs| - 1];
      assert xs == init + [n];
      DedupNoOlder(init);
      assert Dedup(xs) == KeepNewer(Dedup(init), n);
      forall i | 0 <= i < |xs| ensures KeptNoOlder(Dedup(xs), xs[i]) {
        if i < |init| {
          assert xs[i] == init[i];
          KeepNewerKeepsNoOlder(Dedup(init), n, init[i]);
        } else {
          KeepNewerKeepsLast(Dedup(init), n);
        }
      }
    }
  }

  /** No note of the input is strictly later than the note kept for its id. */
  lemma DedupKeepsNewest(xs: seq<Note>)
    ensures forall i, k :: 0 <= i < |xs| && k in Dedup(xs) && xs[i].id == k.id ==> !Later(xs[i], k)
  {
    DedupNoOlder(xs);
    var r := Dedup(xs);
    forall i, k | 0 <= i < |xs| && k in r && xs[i].id == k.id ensures !Later(xs[i], k) {
      var p :| 0 <= p < |r| && r[p] == k;
      IndexOfUnique(r, p);
      assert KeptNoOlder(r, xs[i]);
    }
  }

  /**
   * With every timestamp present, the kept note is the first occurrence of
   * the latest one: it occurs no later than any note for its id that is not
   * strictly older than it.
   */
  lemma {:induction false} DedupKeepsFirstOfLatest(xs: seq<Note>, k: Note)
    requires Timestamped(xs)
    requires k in Dedup(xs)
    ensures forall i :: 0 <= i < |xs| && xs[i].id == k.id && !Later(k, xs[i]) ==> k in xs[..i + 1]
  {
    var init, n := xs[..|xs| - 1], xs[|xs| - 1];
    assert xs == init + [n];
    var d := Dedup(init);
    var cur := Lookup(d, n.id);
    assert Lookup(Dedup(xs), k.id) == Some(k);
    if k.id != n.id {
      PutOther(d, n, k.id);
      assert k in d;
      DedupKeepsFirstOfLatest(init, k);
      DedupSubset(init);
      FirstOfLatestExtend(init, n, k);
    } else if cur.None? || Later(n, cur.value) {
      assert k == n;
      ReplacedIsStrictlyLater(init, n);
      assert xs[..|xs|] == xs;
    } else {
      assert k == cur.value;
      assert k in d;
      DedupKeepsFirstOfLatest(init, k);
      DedupSubset(init);
      FirstOfLatestExtend(init, n, k);
    }
  }

  lemma FirstOfLatestExtend(init: seq<Note>, n: Note, k: Note)
    requires k in init
    requires forall i :: 0 <= i < |init| && init[i].id == k.id && !Later(k, init[i]) ==> k in init[..i + 1]
    ensures forall i :: 0 <= i < |init + [n]| && (init + [n])[i].id == k.id && !Later(k, (init + [n])[i]) ==> k in (init + [n])[..i + 1]
  {
    var xs := init + [n];
    forall i | 0 <= i < |xs| && xs[i].id == k.id && !Later(k, xs[i]) ensures k in xs[..i + 1] {
      if i < |init| {
        assert xs[i] == init[i];
        assert xs[..i + 1] == init[..i + 1];
      } else {
        assert xs[..i + 1] == xs;
        var j :| 0 <= j < |init| && init[j] == k;
        assert xs[j] == k;
      }
    }
  }

  /** When the last note displaces the kept entry, it is strictly later than every earlier note with its id. */
  lemma ReplacedIsStrictlyLater(init: seq<Note>, n: Note)
    requires Timestamped(init + [n])
    requires Lookup(Dedup(init), n.id).None? || Later(n, Lookup(Dedup(init), n.id).value)
    ensures forall i :: 0 <= i < |init| && init[i].id == n.id ==> Later(n, init[i])
  {
    var d := Dedup(init);
    DedupNoOlder(init);
    forall i | 0 <= i < |init| && init[i].id == n.id ensures Later(n, init[i]) {
      assert (init + [n])[i] == init[i];
      assert KeptNoOlder(d, init[i]);
    }
  }

  lemma IndexOfAppend(xs: seq<Note>, n: Note, id: string)
    requires id in IdSet(xs)
    ensures IndexOf(xs + [n], id) == IndexOf(xs, id)
  {
    IdSetIndex(xs, id);
    var i := IndexOf(xs, id);
    assert (xs + [n])[i] == xs[i];
  }

  /** The output lists the ids in the order of their first occurrence in the input. */
  lemma {:induction false} DedupFirstOccurrenceOrder(xs: seq<Note>)
    ensures forall i, j :: 0 <= i < j < |Dedup(xs)| ==> IndexOf(xs, Dedup(xs)[i].id) < IndexOf(xs, Dedup(xs)[j].id)
  {
    if xs != [] {
      var init, n := xs[..|xs| - 1], xs[|xs| - 1];
      assert xs == init + [n];
      DedupFirstOccurrenceOrder(init);
      var d := Dedup(init);
      var r := Dedup(xs);
      if (Lookup(d, n.id).None? || Later(n, Lookup(d, n.id).value)) && n.id !in IdSet(d) {
        PutNew(d, n);
        OrderAppend(init, n, d);
      } else {
        IdSetIndex(d, n.id);
        OrderSameIds(init, n, d, r);
      }
    }
  }

  lemma OrderSameIds(init: seq<Note>, n: Note, d: seq<Note>, r: seq<Note>)
    requires IdSet(d) == IdSet(init)
    requires forall i, j :: 0 <= i < j < |d| ==> IndexOf(init, d[i].id) < IndexOf(init, d[j].id)
    requires |r| == |d| && forall i :: 0 <= i < |d| ==> r[i].id == d[i].id
    ensures forall i, j :: 0 <= i < j < |r| ==> IndexOf(init + [n], r[i].id) < IndexOf(init + [n], r[j].id)
  {
    forall i | 0 <= i < |d| ensures IndexOf(init + [n], d[i].id) == IndexOf(init, d[i].id) {
      assert d[i] in d;
      IndexOfAppend(init, n, d[i].id);
    }
  }

  lemma OrderAppend(init: seq<Note>, n: Note, d: seq<Note>)
    requires IdSet(d) == IdSet(init) && n.id !in IdSet(init)
    requires forall i, j :: 0 <= i < j < |d| ==> IndexOf(init, d[i].id) < IndexOf(init, d[j].id)
    ensures forall i, j :: 0 <= i < j < |d + [n]| ==> IndexOf(init + [n], (d + [n])[i].id) < IndexOf(init + [n], (d + [n])[j].id)
  {
    var xs, r := init + [n], d + [n];
    IdSetIndex(init, n.id);
    assert forall j :: 0 <= j < |init| ==> xs[j] == init[j] && init[j].id != n.id;
    assert xs[|init|] == n;
    assert IndexOf(xs, n.id) == |init|;
    forall i | 0 <= i < |d| ensures IndexOf(xs, d[i].id) == IndexOf(init, d[i].id) < |init| {
      assert d[i] in d;
      IndexOfAppend(init, n, d[i].id);
      IdSetIndex(init, d[i].id);
    }
    forall i, j | 0 <= i < j < |r| ensures IndexOf(xs, r[i].id) < IndexOf(xs, r[j].id) {
      assert r[i] == d[i];
      if j < |d| {
        assert r[j] == d[j];
      }
    }
  }

  /** A list that already has one note per id is its own deduplication. */
  lemma {:induction false} DedupOfUnique(xs: seq<Note>)
    requires UniqueIds(xs)
    ensures Dedup(xs) == xs
  {
    if xs != [] {
      var init, n := xs[..|xs| - 1], xs[|xs| - 1];
      assert xs == init + [n];
      DedupOfUnique(init);
      assert n.id !in IdSet(init);
      IdSetIndex(init, n.id);
      PutNew(init, n);
    }
  }

  /** Dedup is idempotent: its output is a fixed point. */
  lemma DedupIdempotent(xs: seq<Note>)
    ensures Dedup(Dedup(xs)) == Dedup(xs)
  {
    DedupOfUnique(Dedup(xs));
  }

  /** Of two revisions of one note the later one survives, in either order; on a tie, the first. */
  lemma DedupTwo(a: Note, b: Note)
    requires a.id == b.id
    ensures Later(a, b) ==> Dedup([a, b]) == [a] && Dedup([b, a]) == [a]
    ensures a.updatedAt == b.updatedAt ==> Dedup([a, b]) == [a]
  {
    assert [a, b][..1] == [a] && [b, a][..1] == [b];
    assert [a][..0] == [] && [b][..0] == [];
    assert Dedup([a]) == [a] && Dedup([b]) == [b];
    assert Lookup([a], b.id) == Some(a) && Lookup([b], a.id) == Some(b);
  }

  /** `deduplicateNotes`, as the source writes it: a loop that fills a Map. */
  method DeduplicateNotes(notes: seq<Note>) returns (r: seq<Note>)
    ensures r == Dedup(notes)
  {
    var map_ := Empty;
    EmptyValues();
    for i := 0 to |notes|
      invariant map_.Valid()
      invariant map_.Values() == Dedup(notes[..i])
    {
      var note := notes[i];
      assert notes[..i + 1] == notes[..i] + [note];
      HasGet(map_, note.id);
      if !map_.Has(note.id) || Later(note, map_.Get(note.id)) {
        SetValues(map_, note);
        map_ := map_.Set(note);
      }
    }
    assert notes[..|notes|] == notes;
    r := map_.Values();
  }

  // ---------------------------------------------------------------------------
  // mergeNotesFromServer
  // ---------------------------------------------------------------------------

  /** The first loop: every local note is set under its id (a later duplicate overwrites in place). */
  function LoadLocal(xs: seq<Note>): (r: seq<Note>)
    ensures UniqueIds(r)
    ensures IdSet(r) == IdSet(xs)
  {
    if xs == [] then []
    else
      var init, n := xs[..|xs| - 1], xs[|xs| - 1];
      assert xs == init + [n];
      assert IdSet(xs) == IdSet(init) + {n.id};
      Put(LoadLocal(init), n)
  }

  /** A server note replaces the current entry only when there is none, or it is synced and strictly older. */
  predicate ServerWins(cur: Option<Note>, s: Note)
    ensures ServerWins(cur, s) ==> cur.None? || cur.value.synced
    ensures cur.Some? && !Later(s, cur.value) ==> !ServerWins(cur, s)
  {
    cur.None? || (cur.value.synced && Later(s, cur.value))
  }

  /** One turn of the server loop: the server note, marked synced, is set when it wins against the entry for its id. */
  function AdoptServer(acc: seq<Note>, s: Note): (r: seq<Note>)
    ensures UniqueIds(acc) ==> UniqueIds(r)
    ensures IdSet(r) == IdSet(acc) + {s.id}
    ensures Lookup(acc, s.id).Some? && !Lookup(acc, s.id).value.synced ==> r == acc
    ensures r != acc ==> Lookup(r, s.id) == Some(MarkSynced(s))
  {
    if ServerWins(Lookup(acc, s.id), s) then Put(acc, MarkSynced(s)) else acc
  }

  /** The second loop, over the server's notes. */
  function ApplyServer(acc: seq<Note>, ss: seq<Note>): (r: seq<Note>)
    ensures UniqueIds(acc) ==> UniqueIds(r)
    ensures IdSet(r) == IdSet(acc) + IdSet(ss)
  {
    if ss == [] then acc
    else
      var init, s := ss[..|ss| - 1], ss[|ss| - 1];
      assert ss == init + [s];
      assert IdSet(ss) == IdSet(init) + {s.id};
      var a := ApplyServer(acc, init);
      IdSetIndex(a, s.id);
      AdoptServer(a, s)
  }

  /** `mergeNotesFromServer` */
  function Merge(local: seq<Note>, server: seq<Note>): (r: seq<Note>)
    ensures UniqueIds(r)
    ensures IdSet(r) == IdSet(local) + IdSet(server)
  {
    ApplyServer(LoadLocal(local), server)
  }

  /** The merge holds one note per id, and its ids are the local ids together with the server ids. */
  lemma MergeIds(local: seq<Note>, server: seq<Note>)
    ensures UniqueIds(Merge(local, server))
    ensures IdSet(Merge(local, server)) == IdSet(local) + IdSet(server)
  {
  }

  /** With one note per id, loading the local notes changes nothing. */
  lemma {:induction false} LoadLocalOfUnique(xs: seq<Note>)
    requires UniqueIds(xs)
    ensures LoadLocal(xs) == xs
  {
    if xs != [] {
      var init, n := xs[..|xs| - 1], xs[|xs| - 1];
      assert xs == init + [n];
      LoadLocalOfUnique(init);
      assert n.id !in IdSet(init);
      PutNew(init, n);
    }
  }

  /** An entry that is not synced survives every server note unchanged. */
  lemma {:induction false} ApplyServerKeepsUnsynced(acc: seq<Note>, ss: seq<Note>, x: Note)
    requires Lookup(acc, x.id) == Some(x) && !x.synced
    ensures Lookup(ApplyServer(acc, ss), x.id) == Some(x)
  {
    if ss != [] {
      var init, s := ss[..|ss| - 1], ss[|ss| - 1];
      ApplyServerKeepsUnsynced(acc, init, x);
      var a := ApplyServer(acc, init);
      if s.id != x.id && ServerWins(Lookup(a, s.id), s) {
        PutOther(a, MarkSynced(s), x.id);
      }
    }
  }

  /** A local note that is not synced is in the merge, unchanged, whatever the server holds for its id. */
  lemma MergeKeepsUnsyncedLocal(local: seq<Note>, server: seq<Note>, x: Note)
    requires UniqueIds(local)
    requires x in local && !x.synced
    ensures Lookup(Merge(local, server), x.id) == Some(x)
  {
    LoadLocalOfUnique(local);
    var k :| 0 <= k < |local| && local[k] == x;
    IndexOfUnique(local, k);
    ApplyServerKeepsUnsynced(local, server, x);
  }

  /**
   * Only-if direction: the merged entry for an id is the local entry, or the
   * synced copy of a server note with that id that wins against the local
   * entry (absent, or synced and strictly older).
   */
  lemma {:induction false} ApplyServerOnlyWhen(acc: seq<Note>, ss: seq<Note>, d: string)
    ensures Lookup(ApplyServer(acc, ss), d) == Lookup(acc, d)
      || exists s :: s in ss && s.id == d && Lookup(ApplyServer(acc, ss), d) == Some(MarkSynced(s)) && ServerWins(Lookup(acc, d), s)
  {
    if ss != [] {
      var init, s := ss[..|ss| - 1], ss[|ss| - 1];
      assert ss == init + [s];
      ApplyServerOnlyWhen(acc, init, d);
      var a := ApplyServer(acc, init);
      var r := ApplyServer(acc, ss);
      if s.id != d {
        if ServerWins(Lookup(a, s.id), s) {
          PutOther(a, MarkSynced(s), d);
        }
        assert Lookup(r, d) == Lookup(a, d);
        if Lookup(a, d) != Lookup(acc, d) {
          var s' :| s' in init && s'.id == d && Lookup(a, d) == Some(MarkSynced(s')) && ServerWins(Lookup(acc, d), s');
          assert s' in ss;
        }
      } else if ServerWins(Lookup(a, d), s) {
        assert Lookup(r, d) == Some(MarkSynced(s));
        if Lookup(a, d) != Lookup(acc, d) {
          var s' :| s' in init && s'.id == d && Lookup(a, d) == Some(MarkSynced(s')) && ServerWins(Lookup(acc, d), s');
          assert Later(s, s');
        }
        assert ServerWins(Lookup(acc, d), s);
      } else {
        assert r == a;
        if Lookup(a, d) != Lookup(acc, d) {
          var s' :| s' in init && s'.id == d && Lookup(a, d) == Some(MarkSynced(s')) && ServerWins(Lookup(acc, d), s');
          assert s' in ss;
        }
      }
    }
  }

  lemma MergeOnlyWhen(local: seq<Note>, server: seq<Note>, d: string)
    ensures var loc := Lookup(LoadLocal(local), d);
      Lookup(Merge(local, server), d) == loc
      || exists s :: s in server && s.id == d && Lookup(Merge(local, server), d) == Some(MarkSynced(s)) && ServerWins(loc, s)
  {
    ApplyServerOnlyWhen(LoadLocal(local), server, d);
  }

  /** Server notes for other ids leave the entry of an id alone. */
  lemma {:induction false} ApplyServerOtherIds(acc: seq<Note>, ss: seq<Note>, d: string)
    requires d !in IdSet(ss)
    ensures Lookup(ApplyServer(acc, ss), d) == Lookup(acc, d)
  {
    if ss != [] {
      var init, s := ss[..|ss| - 1], ss[|ss| - 1];
      assert ss == init + [s];
      assert s in ss;
      assert IdSet(init) <= IdSet(ss);
      ApplyServerOtherIds(acc, init, d);
      var a := ApplyServer(acc, init);
      if ServerWins(Lookup(a, s.id), s) {
        PutOther(a, MarkSynced(s), d);
      }
    }
  }

  /** If direction: a server note that wins against the local entry is in the merge, marked synced. */
  lemma {:induction false} ApplyServerIfWins(acc: seq<Note>, ss: seq<Note>, s: Note)
    requires UniqueIds(ss) && s in ss
    requires ServerWins(Lookup(acc, s.id), s)
    ensures Lookup(ApplyServer(acc, ss), s.id) == Some(MarkSynced(s))
  {
    var init, last := ss[..|ss| - 1], ss[|ss| - 1];
    assert ss == init + [last];
    var a := ApplyServer(acc, init);
    if last == s {
      forall t | t in init ensures t.id != s.id {
        var j :| 0 <= j < |init| && init[j] == t;
        assert ss[j] == t;
      }
      ApplyServerOtherIds(acc, init, s.id);
    } else {
      assert s in init;
      var j :| 0 <= j < |init| && init[j] == s;
      assert ss[j] == s;
      assert last.id != s.id;
      ApplyServerIfWins(acc, init, s);
      if ServerWins(Lookup(a, last.id), last) {
        PutOther(a, MarkSynced(last), s.id);
      }
    }
  }

  lemma MergeIfServerWins(local: seq<Note>, server: seq<Note>, s: Note)
    requires UniqueIds(server) && s in server
    requires ServerWins(Lookup(LoadLocal(local), s.id), s)
    ensures Lookup(Merge(local, server), s.id) == Some(MarkSynced(s))
  {
    ApplyServerIfWins(LoadLocal(local), server, s);
  }

  /** On equal timestamps the local note wins, synced or not. */
  lemma MergeTieKeepsLocal(local: seq<Note>, server: seq<Note>, s: Note, x: Note)
    requires UniqueIds(server) && s in server
    requires Lookup(LoadLocal(local), s.id) == Some(x)
    requires x.updatedAt == s.updatedAt
    ensures Lookup(Merge(local, server), s.id) == Some(x)
  {
    MergeOnlyWhen(local, server, s.id);
  }

  /** One more local note is one more `Put`. */
  lemma LoadLocalSnoc(xs: seq<Note>, i: nat)
    requires i < |xs|
    ensures LoadLocal(xs[..i + 1]) == Put(LoadLocal(xs[..i]), xs[i])
  {
    assert xs[..i + 1][..i] == xs[..i];
  }

  /** One more server note is one more `AdoptServer`. */
  lemma ApplyServerSnoc(acc: seq<Note>, ss: seq<Note>, i: nat)
    requires i < |ss|
    ensures ApplyServer(acc, ss[..i + 1]) == AdoptServer(ApplyServer(acc, ss[..i]), ss[i])
  {
    assert ss[..i + 1][..i] == ss[..i];
  }

  /** One pass of the second loop on the Map is `AdoptServer` on its values. */
  lemma AdoptServerStep(m: NoteMap, s: Note)
    requires m.Valid()
    ensures var wins := !m.Has(s.id) || (m.Get(s.id).synced && Later(s, m.Get(s.id)));
      (if wins then m.Set(MarkSynced(s)) else m).Values() == AdoptServer(m.Values(), s)
  {
    HasGet(m, s.id);
    SetValues(m, MarkSynced(s));
  }

  /** `mergeNotesFromServer`, as the source writes it: two loops that fill a Map. */
  method MergeNotesFromServer(localNotes: seq<Note>, serverNotes: seq<Note>) returns (r: seq<Note>)
    ensures r == Merge(localNotes, serverNotes)
  {
    var mergedMap := Empty;
    EmptyValues();
    for i := 0 to |localNotes|
      invariant mergedMap.Valid()
      invariant mergedMap.Values() == LoadLocal(localNotes[..i])
    {
      var note := localNotes[i];
      LoadLocalSnoc(localNotes, i);
      SetValues(mergedMap, note);
      mergedMap := mergedMap.Set(note);
    }
    assert localNotes[..|localNotes|] == localNotes;
    for i := 0 to |serverNotes|
      invariant mergedMap.Valid()
      invariant mergedMap.Values() == ApplyServer(LoadLocal(localNotes), serverNotes[..i])
    {
      var serverNote := serverNotes[i];
      ApplyServerSnoc(LoadLocal(localNotes), serverNotes, i);
      AdoptServerStep(mergedMap, serverNote);
      var enhancedServerNote := MarkSynced(serverNote);
      if !mergedMap.Has(serverNote.id) || (mergedMap.Get(serverNote.id).synced && Later(serverNote, mergedMap.Get(serverNote.id))) {
        mergedMap := mergedMap.Set(enhancedServerNote);
      }
    }
    assert serverNotes[..|serverNotes|] == serverNotes;
    r := mergedMap.Values();
  }
}
