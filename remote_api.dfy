/**
 * The server as the sync engine sees it. The HTTP exchanges behind each call
 * are not part of this model: each call simply succeeds or fails, and a
 * successful push returns the server's copy of the note. The outcome is
 * chosen nondeterministically; the calls made and their outcomes are
 * recorded so that the callers' contracts can say what was pushed,
 * deleted and fetched, and what the server answered.
 */
module RemoteApi {
  import opened NoteModel

  datatype PushOutcome = Pushed(saved: Note) | PushFailed

  class Remote {
    /** Every note sent to `createOrUpdateNote`, in order. */
    ghost var pushes: seq<Note>
    /** What the server answered to each of them. */
    ghost var replies: seq<PushOutcome>
    /** Every id sent to `deleteNote`, in order. */
    ghost var deletes: seq<string>
    /** What each call to `fetchNotes` returned, in order. */
    ghost var fetches: seq<Option<seq<Note>>>

    constructor ()
      ensures pushes == [] && replies == [] && deletes == [] && fetches == []
    {
      pushes, replies, deletes, fetches := [], [], [], [];
    }

    /** `api.createOrUpdateNote(note)` */
    method CreateOrUpdate(note: Note) returns (o: PushOutcome)
      modifies this
      ensures pushes == old(pushes) + [note]
      ensures replies == old(replies) + [o]
      ensures deletes == old(deletes) && fetches == old(fetches)
    {
      o := *;
      pushes := pushes + [note];
      replies := replies + [o];
    }

    /** `api.deleteNote(id)`: true when the server answered with success. */
    method Delete(id: string) returns (ok: bool)
      modifies this
      ensures deletes == old(deletes) + [id]
      ensures pushes == old(pushes) && replies == old(replies) && fetches == old(fetches)
    {
      ok := *;
      deletes := deletes + [id];
    }

    /** `api.fetchNotes()` */
    method FetchNotes() returns (r: Option<seq<Note>>)
      modifies this
      ensures fetches == old(fetches) + [r]
      ensures pushes == old(pushes) && replies == old(replies) && deletes == old(deletes)
    {
      r := *;
      fetches := fetches + [r];
    }
  }
}
