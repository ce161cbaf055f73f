/**
 * The JavaScript `Map` that `deduplicateNotes` and `mergeNotesFromServer`
 * build step by step: keys in insertion order, and an overwrite that keeps a
 * key where it was first inserted. Both functions only ever store a note
 * under its own id, so `Set` takes the key from the note.
 */
module JsMap {
  import opened NoteModel

  datatype NoteMap = NoteMap(keys: seq<string>, entries: map<string, Note>) {

    ghost predicate Valid()
    {
      && (forall i, j :: 0 <= i < j < |keys| ==> keys[i] != keys[j])
      && (forall k :: k in entries <==> k in keys)
      && (forall k :: k in entries ==> entries[k].id == k)
    }

    predicate Has(id: string)
    {
      id in entries
    }

    function Get(id: string): Note
      requires Has(id)
    {
      entries[id]
    }

    /** `map.set(n.id, n)` */
    function Set(n: Note): (m: NoteMap)
      requires Valid()
      ensures m.Valid()
    {
      if n.id in entries then NoteMap(keys, entries[n.id := n])
      else NoteMap(keys + [n.id], entries[n.id := n])
    }

    /** `Array.from(map.values())` */
    function Values(): (vs: seq<Note>)
      requires Valid()
      ensures |vs| == |keys|
      ensures forall i :: 0 <= i < |keys| ==> vs[i] == entries[keys[i]] && vs[i].id == keys[i]
    {
      seq(|keys|, i requires 0 <= i < |keys| => entries[keys[i]])
    }
  }

  const Empty := NoteMap([], map[])

  lemma EmptyValues()
    ensures Empty.Valid() && Empty.Values() == []
  {
  }

  /** The values of a valid map carry one note per id. */
  lemma ValuesUnique(m: NoteMap)
    requires m.Valid()
    ensures UniqueIds(m.Values())
  {
  }

  /** `has` and `get` agree with looking the id up in the values. */
  lemma HasGet(m: NoteMap, id: string)
    requires m.Valid()
    ensures m.Has(id) ==> Lookup(m.Values(), id) == Some(m.Get(id))
    ensures !m.Has(id) ==> Lookup(m.Values(), id) == None
  {
    var vs := m.Values();
    if m.Has(id) {
      var p :| 0 <= p < |m.keys| && m.keys[p] == id;
      IndexOfUnique(vs, p);
    }
  }

  /** Setting an entry is `Put` on the list of values. */
  lemma SetValues(m: NoteMap, n: Note)
    requires m.Valid()
    ensures m.Set(n).Values() == Put(m.Values(), n)
  {
    var vs := m.Values();
    if n.id in m.entries {
      var p :| 0 <= p < |m.keys| && m.keys[p] == n.id;
      IndexOfUnique(vs, p);
      assert m.Set(n).Values() == vs[p := n];
    } else {
      assert n.id !in IdSet(vs);
      PutNew(vs, n);
      assert m.Set(n).Values() == vs + [n];
    }
  }
}
