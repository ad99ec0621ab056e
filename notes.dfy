/**
  The notes controller: a `notes` table whose rows are owned by the user id
  the authentication middleware attaches to each request (`caller` here).
  Every read and delete is scoped by equality on the owner id.
 */
module Notes {
  import opened Table

  datatype Note = Note(id: nat, userId: nat, heading: string, content: string, createdAt: int)

  datatype NotesError = MissingFields | NoteNotFound

  datatype Result<T> = Ok(value: T) | Err(error: NotesError)

  /** The status each refusal is answered with: 404 for a note not found, 400 for missing fields. */
  function HttpStatus(e: NotesError): (s: int)
    ensures s == 400 || s == 404
    ensures s == 404 <==> e == NoteNotFound
  {
    if e == NoteNotFound then 404 else 400
  }

  function NoteId(n: Note): int { n.id }

  function OwnedBy(uid: nat): Note -> bool
  {
    (n: Note) => n.userId == uid
  }

  /** The rows `notes.delete().eq("id", id).eq("user_id", uid)` matches ... */
  function Targeted(id: nat, uid: nat): Note -> bool
  {
    (n: Note) => n.id == id && n.userId == uid
  }

  /** ... and the rows it leaves. */
  function NotTargeted(id: nat, uid: nat): Note -> bool
  {
    (n: Note) => !(n.id == id && n.userId == uid)
  }

  /** `order("created_at", { ascending: false })`: creation times never increase along the list. */
  ghost predicate NewestFirst(s: seq<Note>)
  {
    forall i, j :: 0 <= i < j < |s| ==> s[i].createdAt >= s[j].createdAt
  }

  /** Every row of a newest-first list is at most as new as its head. */
  lemma HeadIsNewest(s: seq<Note>, t: int)
    requires NewestFirst(s) && (s != [] ==> s[0].createdAt <= t)
    ensures forall x :: x in multiset(s) ==> x.createdAt <= t
  {
  }

  /** A row at least as new as every row of a newest-first list may go in front of it. */
  lemma ConsNewestFirst(x: Note, s: seq<Note>)
    requires NewestFirst(s)
    requires forall y :: y in multiset(s) ==> y.createdAt <= x.createdAt
    ensures NewestFirst([x] + s)
  {
  }

  /** The tail of a newest-first list is newest first. */
  lemma TailNewestFirst(s: seq<Note>)
    requires NewestFirst(s) && s != []
    ensures NewestFirst(s[1..])
  {
  }

  /** Inserting in front: `n` is at least as new as the head. */
  lemma InsertInFront(n: Note, s: seq<Note>)
    requires NewestFirst(s) && (s == [] || n.createdAt >= s[0].createdAt)
    ensures NewestFirst([n] + s)
    ensures multiset([n] + s) == multiset(s) + multiset{n}
  {
  }

  /** Inserting behind the head: `rest` is the tail with `n` inserted. */
  lemma InsertBehindHead(n: Note, s: seq<Note>, rest: seq<Note>)
    requires NewestFirst(s) && s != [] && n.createdAt < s[0].createdAt
    requires NewestFirst(rest) && multiset(rest) == multiset(s[1..]) + multiset{n}
    ensures NewestFirst([s[0]] + rest)
    ensures multiset([s[0]] + rest) == multiset(s) + multiset{n}
  {
    assert s == [s[0]] + s[1..];
    assert multiset(s) == multiset{s[0]} + multiset(s[1..]);
    HeadIsNewest(s, s[0].createdAt);
    assert forall y :: y in multiset(rest) ==> y.createdAt <= s[0].createdAt;
    ConsNewestFirst(s[0], rest);
  }

  /** Place `n` into a newest-first list. */
  function InsertNewestFirst(n: Note, s: seq<Note>): (r: seq<Note>)
    requires NewestFirst(s)
    ensures NewestFirst(r)
    ensures multiset(r) == multiset(s) + multiset{n}
    decreases |s|
  {
    if s == [] || n.createdAt >= s[0].createdAt then
      InsertInFront(n, s);
      [n] + s
    else
      TailNewestFirst(s);
      var rest := InsertNewestFirst(n, s[1..]);
      InsertBehindHead(n, s, rest);
      [s[0]] + rest
  }

  /** Rows with the same multiset are the same rows. */
  lemma SameRows(r: seq<Note>, s: seq<Note>)
    requires multiset(r) == multiset(s)
    ensures forall n :: n in r <==> n in s
  {
    forall n ensures n in r <==> n in s {
      assert n in r <==> n in multiset(r);
      assert n in s <==> n in multiset(s);
    }
  }

  /** A newest-first arrangement of `s`: same rows, same multiplicities. */
  function SortNewestFirst(s: seq<Note>): (r: seq<Note>)
    ensures NewestFirst(r)
    ensures multiset(r) == multiset(s)
    decreases |s|
  {
    if s == [] then []
    else
      assert s == [s[0]] + s[1..];
      InsertNewestFirst(s[0], SortNewestFirst(s[1..]))
  }

  /** The notes table; `nextNoteId` plays the store's serial id column. */
  class NotesStore {
    var notes: seq<Note>
    var nextNoteId: nat

    /** Note ids are unique: they increase along the table and stay below the next serial. */
    ghost predicate Valid()
      reads this
    {
      Ascending(notes, NoteId) && forall n :: n in notes ==> n.id < nextNoteId
    }

    constructor ()
      ensures Valid()
      ensures notes == [] && nextNoteId == 0
    {
      notes, nextNoteId := [], 0;
    }

    /**
      getNotes: exactly the caller's notes, no one else's, each as often as it
      is stored, newest first.
     */
    function GetNotes(caller: nat): (r: seq<Note>)
      reads this
      ensures forall n :: n in r <==> n in notes && n.userId == caller
      ensures multiset(r) == multiset(Where(notes, OwnedBy(caller)))
      ensures NewestFirst(r)
    {
      var mine := Where(notes, OwnedBy(caller));
      var r := SortNewestFirst(mine);
      SameRows(r, mine);
      r
    }

    /**
      addNote: heading and content are both required; a new note owned by the
      caller is appended, and no other user's list changes.
     */
    method AddNote(caller: nat, heading: string, content: string, now: int) returns (res: Result<Note>)
      requires Valid()
      modifies this
      ensures Valid()
      ensures res.Err? <==> heading == "" || content == ""
      ensures res.Err? ==> res.error == MissingFields && notes == old(notes) && nextNoteId == old(nextNoteId)
      ensures res.Err? ==> HttpStatus(res.error) == 400
      ensures res.Ok? ==>
        res.value == Note(old(nextNoteId), caller, heading, content, now) &&
        notes == old(notes) + [res.value] && nextNoteId == old(nextNoteId) + 1
      ensures forall u :: u != caller ==> GetNotes(u) == old(GetNotes(u))
    {
      if heading == "" || content == "" {
        return Err(MissingFields);
      }
      var note := Note(nextNoteId, caller, heading, content, now);
      ghost var before := notes;
      forall i, j | 0 <= i < j < |before + [note]| ensures NoteId((before + [note])[i]) < NoteId((before + [note])[j]) {
        if j == |before| {
          assert (before + [note])[i] in before;
        } else {
          assert (before + [note])[i] == before[i] && (before + [note])[j] == before[j];
        }
      }
      notes := notes + [note];
      nextNoteId := nextNoteId + 1;
      forall u | u != caller ensures Where(notes, OwnedBy(u)) == Where(before, OwnedBy(u)) {
        WhereConcat(before, [note], OwnedBy(u));
        assert [note][1..] == [];
      }
      res := Ok(note);
    }

    /**
      deleteNote: removes the note with this id if the caller owns it, and
      nothing else; a note that does not exist or belongs to someone else is
      reported as not found and the table is left as it was.
     */
    method DeleteNote(caller: nat, id: nat) returns (res: Result<()>)
      requires Valid()
      modifies this
      ensures Valid() && nextNoteId == old(nextNoteId)
      ensures notes == Where(old(notes), NotTargeted(id, caller))
      ensures res.Ok? <==> exists n :: n in old(notes) && n.id == id && n.userId == caller
      ensures res.Err? ==> res.error == NoteNotFound && notes == old(notes)
      ensures res.Err? ==> HttpStatus(res.error) == 404
      ensures res.Ok? ==> exists n :: n in old(notes) && n.id == id && n.userId == caller && RemovedOne(old(notes), notes, n)
      ensures forall n :: n in old(notes) && n.userId != caller ==> n in notes
      ensures forall u :: u != caller ==> GetNotes(u) == old(GetNotes(u))
    {
      ghost var before := notes;
      var deleted := Where(notes, Targeted(id, caller));
      WhereAscending(notes, NotTargeted(id, caller), NoteId);
      notes := Where(notes, NotTargeted(id, caller));
      forall u | u != caller ensures Where(notes, OwnedBy(u)) == Where(before, OwnedBy(u)) {
        WhereAbsorb(before, NotTargeted(id, caller), OwnedBy(u));
      }
      if deleted == [] {
        WhereKeepsAll(before, NotTargeted(id, caller));
        return Err(NoteNotFound);
      }
      assert deleted[0] in deleted;
      ghost var k :| 0 <= k < |before| && before[k] == deleted[0];
      forall i | 0 <= i < |before| && i != k ensures NotTargeted(id, caller)(before[i]) {
        if i < k {
          assert before[i].id < before[k].id;
        } else {
          assert before[k].id < before[i].id;
        }
      }
      WhereRemovesOnly(before, NotTargeted(id, caller), k);
      res := Ok(());
    }
  }

  /**
    Owner scoping, end to end: a note added by `alice` is invisible to
    `bob`, and `bob` deleting its id is refused as not found and leaves
    `alice`'s list as it was.
   */
  method OwnerScopingScenario(alice: nat, bob: nat, heading: string, content: string, now: int)
    returns (aliceSees: seq<Note>, bobSees: seq<Note>, bobDelete: Result<()>)
    requires alice != bob && heading != "" && content != ""
    ensures aliceSees == [Note(0, alice, heading, content, now)]
    ensures bobSees == []
    ensures bobDelete == Err(NoteNotFound)
  {
    var store := new NotesStore();
    var added := store.AddNote(alice, heading, content, now);
    bobDelete := store.DeleteNote(bob, 0);
    aliceSees := store.GetNotes(alice);
    bobSees := store.GetNotes(bob);
    assert store.notes == [Note(0, alice, heading, content, now)];
    assert |aliceSees| == 1 by {
      assert |multiset(aliceSees)| == |multiset(Where(store.notes, OwnedBy(alice)))|;
    }
  }
}
