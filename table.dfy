/** The `notes` table as a value: a map from primary key to row, and the
    effect of each write on it. */
module NoteTable {
  import opened NoteModel

  type Table = map<string, NoteEntity>

  /** Every row is stored under its own id, so no two rows share an id. */
  ghost predicate WellKeyed(t: Table)
  {
    forall k :: k in t ==> t[k].id == k
  }

  /** Insert with REPLACE on conflict. */
  function Upsert(t: Table, e: NoteEntity): Table
  {
    t[e.id := e]
  }

  /** `@Update`: replaces the row with the same primary key, if there is one. */
  function UpdateExisting(t: Table, e: NoteEntity): Table
  {
    if e.id in t then t[e.id := e] else t
  }

  /** `@Delete` (by primary key) and `DELETE ... WHERE id = :id`. */
  function RemoveId(t: Table, id: string): Table
  {
    t - {id}
  }

  /** `UPDATE notes SET isSynced = 1 WHERE id = :id`. */
  function MarkSynced(t: Table, id: string): Table
  {
    if id in t then t[id := t[id].(isSynced := true)] else t
  }

  /** Marking the given ids one after the other. */
  function MarkEach(t: Table, ids: seq<string>): Table
  {
    if ids == [] then t else MarkSynced(MarkEach(t, ids[..|ids| - 1]), ids[|ids| - 1])
  }

  /** Inserting the given rows one after the other, each replacing on conflict. */
  function UpsertEach(t: Table, es: seq<NoteEntity>): Table
  {
    if es == [] then t else Upsert(UpsertEach(t, es[..|es| - 1]), es[|es| - 1])
  }

  /** The rows as a table of their own, a later row winning over an earlier
      one with the same id. */
  function Keyed(es: seq<NoteEntity>): Table
  {
    if es == [] then map[] else Keyed(es[..|es| - 1])[es[|es| - 1].id := es[|es| - 1]]
  }

  function IdsOf(es: seq<NoteEntity>): (ids: seq<string>)
    ensures |ids| == |es|
    ensures forall i :: 0 <= i < |es| ==> ids[i] == es[i].id
  {
    if es == [] then [] else IdsOf(es[..|es| - 1]) + [es[|es| - 1].id]
  }

  ghost function UnsyncedIds(t: Table): set<string>
  {
    set k | k in t && !t[k].isSynced
  }

  /** `s` is a listing of the rows with `isSynced == false`: it shows each of
      them, in some order, exactly once, and nothing else. */
  ghost predicate IsUnsyncedListing(t: Table, s: seq<NoteEntity>)
  {
    && (forall x :: x in s ==> x.id in t && t[x.id] == x && !x.isSynced)
    && (forall k :: k in t && !t[k].isSynced ==> t[k] in s)
    && (forall i, j :: 0 <= i < j < |s| ==> s[i].id != s[j].id)
  }

  /** `s` is ordered by `updatedAt`, newest first. */
  predicate NewestFirst(s: seq<NoteEntity>)
  {
    forall i, j :: 0 <= i < j < |s| ==> s[i].updatedAt.millis >= s[j].updatedAt.millis
  }

  /** Puts `e` into a newest-first listing at its place. */
  function InsertNewestFirst(s: seq<NoteEntity>, e: NoteEntity): (r: seq<NoteEntity>)
    ensures |r| == |s| + 1
    ensures forall x :: x in r <==> x in s || x == e
    ensures multiset(r) == multiset(s) + multiset{e}
    ensures NewestFirst(s) ==> NewestFirst(r)
  {
    if s == [] || e.updatedAt.millis >= s[0].updatedAt.millis then
      if s != [] && NewestFirst(s) then
        NewestFirstHead(s);
        NewestFirstCons(e, s);
        [e] + s
      else
        [e] + s
    else
      var rest := InsertNewestFirst(s[1..], e);
      assert s == [s[0]] + s[1..];
      assert forall x :: x in s[1..] ==> x in s;
      if NewestFirst(s) then
        NewestFirstHead(s);
        NewestFirstCons(s[0], rest);
        [s[0]] + rest
      else
        [s[0]] + rest
  }

  /** In a newest-first listing the head is at least as new as every
      element, and the rest is newest-first. */
  lemma NewestFirstHead(s: seq<NoteEntity>)
    requires s != [] && NewestFirst(s)
    ensures NewestFirst(s[1..])
    ensures forall x :: x in s ==> x.updatedAt.millis <= s[0].updatedAt.millis
  {
    forall x | x in s ensures x.updatedAt.millis <= s[0].updatedAt.millis {
      var j :| 0 <= j < |s| && s[j] == x;
    }
  }

  /** A row at least as new as every element of a newest-first listing can
      go in front of it. */
  lemma NewestFirstCons(x: NoteEntity, s: seq<NoteEntity>)
    requires NewestFirst(s)
    requires forall y :: y in s ==> y.updatedAt.millis <= x.updatedAt.millis
    ensures NewestFirst([x] + s)
  {
    forall i, j | 0 <= i < j < |[x] + s|
      ensures ([x] + s)[i].updatedAt.millis >= ([x] + s)[j].updatedAt.millis
    {
      assert s[j - 1] in s;
    }
  }

  /** Every write keeps rows stored under their own ids. */
  lemma WritesKeepWellKeyed(t: Table, e: NoteEntity, id: string)
    requires WellKeyed(t)
    ensures WellKeyed(Upsert(t, e))
    ensures WellKeyed(UpdateExisting(t, e))
    ensures WellKeyed(RemoveId(t, id))
    ensures WellKeyed(MarkSynced(t, id))
  {
  }

  lemma {:induction false} MarkEachKeepsWellKeyed(t: Table, ids: seq<string>)
    requires WellKeyed(t)
    ensures WellKeyed(MarkEach(t, ids))
  {
    if ids != [] {
      MarkEachKeepsWellKeyed(t, ids[..|ids| - 1]);
      WritesKeepWellKeyed(MarkEach(t, ids[..|ids| - 1]), NoteEntity("", "", "", Date(0), Date(0), false), ids[|ids| - 1]);
    }
  }

  lemma {:induction false} UpsertEachKeepsWellKeyed(t: Table, es: seq<NoteEntity>)
    requires WellKeyed(t)
    ensures WellKeyed(UpsertEach(t, es))
  {
    if es != [] {
      UpsertEachKeepsWellKeyed(t, es[..|es| - 1]);
      WritesKeepWellKeyed(UpsertEach(t, es[..|es| - 1]), es[|es| - 1], "");
    }
  }

  /** Insert-replace puts the row under its id, leaves every other row as
      it was, and inserting the same row twice is inserting it once. */
  lemma UpsertReplaces(t: Table, e: NoteEntity)
    ensures e.id in Upsert(t, e) && Upsert(t, e)[e.id] == e
    ensures forall k :: k != e.id ==> (k in Upsert(t, e) <==> k in t)
    ensures forall k :: k != e.id && k in t ==> Upsert(t, e)[k] == t[k]
    ensures Upsert(Upsert(t, e), e) == Upsert(t, e)
  {
  }

  /** `@Update` changes only the row with the same id, and nothing when
      there is none. */
  lemma UpdateExistingOnlyThatRow(t: Table, e: NoteEntity)
    ensures e.id !in t ==> UpdateExisting(t, e) == t
    ensures e.id in t ==> UpdateExisting(t, e)[e.id] == e
    ensures UpdateExisting(t, e).Keys == t.Keys
    ensures forall k :: k in t && k != e.id ==> UpdateExisting(t, e)[k] == t[k]
  {
  }

  /** Deleting removes that id only, and does nothing when it is absent. */
  lemma RemoveIdOnlyThatRow(t: Table, id: string)
    ensures RemoveId(t, id).Keys == t.Keys - {id}
    ensures forall k :: k in RemoveId(t, id) ==> RemoveId(t, id)[k] == t[k]
    ensures id !in t ==> RemoveId(t, id) == t
  {
  }

  /** Marking sets the flag of that row only, keeps its other fields, and
      does nothing when the id is absent. */
  lemma MarkSyncedOnlyThatRow(t: Table, id: string)
    ensures MarkSynced(t, id).Keys == t.Keys
    ensures id in t ==> MarkSynced(t, id)[id] == t[id].(isSynced := true)
    ensures forall k :: k in t && k != id ==> MarkSynced(t, id)[k] == t[k]
    ensures id !in t ==> MarkSynced(t, id) == t
  {
  }

  /** Marking a list of ids sets the flag of exactly the present rows whose
      ids are listed and touches nothing else. */
  lemma {:induction false} MarkEachAt(t: Table, ids: seq<string>, k: string)
    ensures k in MarkEach(t, ids) <==> k in t
    ensures k in t ==> MarkEach(t, ids)[k] == if k in ids then t[k].(isSynced := true) else t[k]
  {
    if ids != [] {
      var front := ids[..|ids| - 1];
      MarkEachAt(t, front, k);
      assert k in ids <==> k in front || k == ids[|ids| - 1] by {
        assert ids == front + [ids[|ids| - 1]];
      }
    }
  }

  /** The table built from a list of rows holds exactly their ids. */
  lemma {:induction false} KeyedKeys(es: seq<NoteEntity>, k: string)
    ensures k in Keyed(es) <==> k in IdsOf(es)
  {
    if es != [] {
      var n := |es| - 1;
      KeyedKeys(es[..n], k);
    }
  }

  /** Each id of the table built from a list of rows holds a row of the
      list with that id, and the last row of the list with that id. */
  lemma {:induction false} KeyedLast(es: seq<NoteEntity>, i: nat)
    requires i < |es|
    requires forall j :: i < j < |es| ==> es[j].id != es[i].id
    ensures es[i].id in Keyed(es) && Keyed(es)[es[i].id] == es[i]
  {
    var n := |es| - 1;
    if i < n {
      KeyedLast(es[..n], i);
    }
  }

  /** Every row held by the table built from a list of rows is in the list. */
  lemma {:induction false} KeyedFromList(es: seq<NoteEntity>, k: string)
    requires k in Keyed(es)
    ensures Keyed(es)[k] in es && Keyed(es)[k].id == k
  {
    var n := |es| - 1;
    if es[n].id != k {
      KeyedFromList(es[..n], k);
      assert Keyed(es[..n])[k] in es[..n];
    }
  }

  /** Inserting rows one after the other is overlaying the table with the
      rows keyed by id. */
  lemma {:induction false} UpsertEachIsOverlay(t: Table, es: seq<NoteEntity>)
    ensures UpsertEach(t, es) == t + Keyed(es)
  {
    if es != [] {
      UpsertEachIsOverlay(t, es[..|es| - 1]);
    }
  }

  /** A batch insert with REPLACE is idempotent. */
  lemma UpsertEachIdempotent(t: Table, es: seq<NoteEntity>)
    ensures UpsertEach(UpsertEach(t, es), es) == UpsertEach(t, es)
  {
    UpsertEachIsOverlay(t, es);
    UpsertEachIsOverlay(t + Keyed(es), es);
    assert t + Keyed(es) + Keyed(es) == t + Keyed(es);
  }

  /** A listing of the unsynced rows shows exactly the unsynced ids; it is
      empty exactly when no row is unsynced. */
  lemma ListingIds(t: Table, s: seq<NoteEntity>, k: string)
    requires WellKeyed(t) && IsUnsyncedListing(t, s)
    ensures k in IdsOf(s) <==> k in UnsyncedIds(t)
    ensures s == [] <==> UnsyncedIds(t) == {}
  {
    var ids := IdsOf(s);
    if k in ids {
      var i :| 0 <= i < |ids| && ids[i] == k;
      assert s[i] in s;
    }
    if k in UnsyncedIds(t) {
      var i :| 0 <= i < |s| && s[i] == t[k];
      assert ids[i] == k;
    }
    if s != [] {
      assert s[0] in s;
      assert s[0].id in UnsyncedIds(t);
    }
    if UnsyncedIds(t) != {} {
      var u :| u in UnsyncedIds(t);
      assert t[u] in s;
    }
  }
}
