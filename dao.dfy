/** The Room DAO over the `notes` table: a mutable table with snapshot
    queries and insert-replace, update, delete and mark-synced writes. */
module LocalStore {
  import opened NoteModel
  import opened NoteTable

  class NoteDao {
    /** The table's rows by primary key. */
    var rows: Table

    ghost predicate Valid()
      reads this
    {
      WellKeyed(rows)
    }

    /** A fresh, empty table. */
    constructor ()
      ensures Valid() && rows == map[]
    {
      rows := map[];
    }

    /** `SELECT * FROM notes ORDER BY updatedAt DESC`: every row exactly
        once, newest first. */
    method GetAllNotes() returns (r: seq<NoteEntity>)
      requires Valid()
      ensures |r| == |rows|
      ensures forall x :: x in r ==> x.id in rows && rows[x.id] == x
      ensures forall k :: k in rows ==> rows[k] in r
      ensures NewestFirst(r)
    {
      var keys := rows.Keys;
      r := [];
      while keys != {}
        invariant keys <= rows.Keys
        invariant |r| + |keys| == |rows|
        invariant forall x :: x in r ==> x.id in rows && rows[x.id] == x && x.id !in keys
        invariant forall k :: k in rows && k !in keys ==> rows[k] in r
        invariant NewestFirst(r)
        decreases |keys|
      {
        var k :| k in keys;
        r := InsertNewestFirst(r, rows[k]);
        keys := keys - {k};
      }
    }

    /** `SELECT * FROM notes WHERE id = :id`: the row, or null; reads only. */
    method GetNoteById(id: string) returns (r: Option<NoteEntity>)
      requires Valid()
      ensures r.Some? <==> id in rows
      ensures r.Some? ==> r.value == rows[id] && r.value.id == id
    {
      if id in rows {
        r := Some(rows[id]);
      } else {
        r := None;
      }
    }

    /** `SELECT * FROM notes WHERE isSynced = 0`: exactly the unsynced rows,
        each once, in an order the query leaves open. */
    method GetUnsyncedNotes() returns (r: seq<NoteEntity>)
      requires Valid()
      ensures IsUnsyncedListing(rows, r)
    {
      var keys := rows.Keys;
      r := [];
      while keys != {}
        invariant keys <= rows.Keys
        invariant forall x :: x in r ==> x.id in rows && rows[x.id] == x && !x.isSynced && x.id !in keys
        invariant forall k :: k in rows && !rows[k].isSynced && k !in keys ==> rows[k] in r
        invariant forall i, j :: 0 <= i < j < |r| ==> r[i].id != r[j].id
        decreases |keys|
      {
        var k :| k in keys;
        if !rows[k].isSynced {
          assert forall i :: 0 <= i < |r| ==> r[i] in r;
          r := r + [rows[k]];
        }
        keys := keys - {k};
      }
    }

    /** `@Insert(onConflict = REPLACE)` of one row. */
    method InsertNote(note: NoteEntity)
      requires Valid()
      modifies this
      ensures Valid()
      ensures rows == Upsert(old(rows), note)
    {
      WritesKeepWellKeyed(rows, note, note.id);
      rows := rows[note.id := note];
    }

    /** `@Insert(onConflict = REPLACE)` of a list: the rows go in one after
        the other, a later one replacing an earlier one with the same id. */
    method InsertNotes(notes: seq<NoteEntity>)
      requires Valid()
      modifies this
      ensures Valid()
      ensures rows == UpsertEach(old(rows), notes)
    {
      var i := 0;
      while i < |notes|
        invariant 0 <= i <= |notes|
        invariant Valid()
        invariant rows == UpsertEach(old(rows), notes[..i])
      {
        assert notes[..i + 1][..i] == notes[..i];
        WritesKeepWellKeyed(rows, notes[i], notes[i].id);
        rows := rows[notes[i].id := notes[i]];
        i := i + 1;
      }
      assert notes[..i] == notes;
    }

    /** `@Update`: replaces the row with the same primary key; no row, no change. */
    method UpdateNote(note: NoteEntity)
      requires Valid()
      modifies this
      ensures Valid()
      ensures rows == UpdateExisting(old(rows), note)
    {
      WritesKeepWellKeyed(rows, note, note.id);
      if note.id in rows {
        rows := rows[note.id := note];
      }
    }

    /** `@Delete`: removes the row with the note's primary key, if any. */
    method DeleteNote(note: NoteEntity)
      requires Valid()
      modifies this
      ensures Valid()
      ensures rows == RemoveId(old(rows), note.id)
    {
      DeleteNoteById(note.id);
    }

    /** `DELETE FROM notes WHERE id = :id`. */
    method DeleteNoteById(id: string)
      requires Valid()
      modifies this
      ensures Valid()
      ensures rows == RemoveId(old(rows), id)
    {
      WritesKeepWellKeyed(rows, NoteEntity(id, "", "", Date(0), Date(0), false), id);
      rows := rows - {id};
    }

    /** `UPDATE notes SET isSynced = 1 WHERE id = :id`. */
    method MarkAsSynced(id: string)
      requires Valid()
      modifies this
      ensures Valid()
      ensures rows == MarkSynced(old(rows), id)
    {
      WritesKeepWellKeyed(rows, NoteEntity(id, "", "", Date(0), Date(0), false), id);
      if id in rows {
        rows := rows[id := rows[id].(isSynced := true)];
      }
    }
  }
}
