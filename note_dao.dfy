/**
 * The Room DAO over table `notes` (data/local/NoteDao.kt). The table is a
 * map from primary key to row; the mutating queries reassign it, the reading
 * queries return what the SQL statement selects.
 */
module NoteDaos {
  import opened Wrappers
  import opened NoteEntities

  /** Primary-key integrity: each row is stored under its own `id`. */
  ghost predicate KeyedById(rows: map<string, NoteEntity>) {
    forall id :: id in rows ==> rows[id].id == id
  }

  /** No two elements of a result list share a primary key. */
  ghost predicate DistinctIds(s: seq<NoteEntity>) {
    forall i, j :: 0 <= i < j < |s| ==> s[i].id != s[j].id
  }

  /** Every element of `s` is the row of `rows` stored under its id. */
  ghost predicate RowsOf(s: seq<NoteEntity>, rows: map<string, NoteEntity>) {
    forall i :: 0 <= i < |s| ==> s[i].id in rows && rows[s[i].id] == s[i]
  }

  /** `ORDER BY timestamp DESC`: timestamps never increase along `s`. */
  ghost predicate NewestFirst(s: seq<NoteEntity>) {
    forall i, j :: 0 <= i < j < |s| ==> s[i].timestamp >= s[j].timestamp
  }

  /** A finite set of keys has one whose row carries the largest timestamp. */
  lemma {:induction false} NewestKeyExists(rows: map<string, NoteEntity>, keys: set<string>)
    requires keys != {} && keys <= rows.Keys
    ensures exists k :: k in keys && forall k' :: k' in keys ==> rows[k'].timestamp <= rows[k].timestamp
  {
    var x :| x in keys;
    if keys - {x} != {} {
      NewestKeyExists(rows, keys - {x});
      var y :| y in keys - {x} && forall k' :: k' in keys - {x} ==> rows[k'].timestamp <= rows[y].timestamp;
      if rows[x].timestamp <= rows[y].timestamp {
        assert forall k' :: k' in keys ==> rows[k'].timestamp <= rows[y].timestamp;
      } else {
        assert forall k' :: k' in keys ==> rows[k'].timestamp <= rows[x].timestamp;
      }
    } else {
      assert keys == {x};
    }
  }

  class NoteDao {
    /** Table `notes`, keyed by primary key. */
    var rows: map<string, NoteEntity>

    ghost predicate Valid()
      reads this
    {
      KeyedById(rows)
    }

    constructor ()
      ensures Valid() && rows == map[]
    {
      rows := map[];
    }

    /** `SELECT * FROM notes WHERE id = :id`: null exactly when no row has that key. */
    function GetNoteById(id: string): (r: Option<NoteEntity>)
      reads this
      requires Valid()
      ensures r.None? <==> id !in rows
      ensures r.Some? ==> r.value.id == id && r.value == rows[id]
    {
      if id in rows then Some(rows[id]) else None
    }

    /** `SELECT * FROM notes WHERE isSynced = 0`: every pending row, each once. */
    method GetUnsyncedNotes() returns (r: seq<NoteEntity>)
      requires Valid()
      ensures RowsOf(r, rows) && DistinctIds(r)
      ensures forall i :: 0 <= i < |r| ==> !r[i].isSynced
      ensures forall id :: id in rows && !rows[id].isSynced ==> rows[id] in r
    {
      r := [];
      var unscanned := rows.Keys;
      while unscanned != {}
        invariant unscanned <= rows.Keys
        invariant RowsOf(r, rows) && DistinctIds(r)
        invariant forall i :: 0 <= i < |r| ==> !r[i].isSynced && r[i].id !in unscanned
        invariant forall id :: id in rows && id !in unscanned && !rows[id].isSynced ==> rows[id] in r
        decreases unscanned
      {
        var k :| k in unscanned;
        if !rows[k].isSynced {
          r := r + [rows[k]];
        }
        unscanned := unscanned - {k};
      }
    }

    /** `SELECT * FROM notes ORDER BY timestamp DESC`: every row exactly once, newest first. */
    method GetAllNotes() returns (r: seq<NoteEntity>)
      requires Valid()
      ensures RowsOf(r, rows) && DistinctIds(r) && NewestFirst(r)
      ensures forall id :: id in rows ==> rows[id] in r
      ensures |r| == |rows|
    {
      r := [];
      var unscanned := rows.Keys;
      while unscanned != {}
        invariant unscanned <= rows.Keys
        invariant RowsOf(r, rows) && DistinctIds(r) && NewestFirst(r)
        invariant forall i :: 0 <= i < |r| ==> r[i].id !in unscanned
        invariant forall i, id :: 0 <= i < |r| && id in unscanned ==> r[i].timestamp >= rows[id].timestamp
        invariant forall id :: id in rows && id !in unscanned ==> rows[id] in r
        decreases unscanned
      {
        NewestKeyExists(rows, unscanned);
        var k :| k in unscanned && forall k' :: k' in unscanned ==> rows[k'].timestamp <= rows[k].timestamp;
        AppendNewest(r, rows, unscanned, k);
        r := r + [rows[k]];
        unscanned := unscanned - {k};
      }
      ListingSize(r, rows);
    }

    /** `@Insert(onConflict = REPLACE)`: upsert by primary key. */
    method InsertNote(note: NoteEntity)
      requires Valid()
      modifies this
      ensures Valid()
      ensures rows == old(rows)[note.id := note]
    {
      rows := rows[note.id := note];
    }

    /** `@Delete`: removes the row whose primary key is `note.id`, whatever its other fields. */
    method DeleteNote(note: NoteEntity)
      requires Valid()
      modifies this
      ensures Valid()
      ensures rows == old(rows) - {note.id}
    {
      rows := rows - {note.id};
    }

    /** `DELETE FROM notes WHERE id = :id`: a no-op when the key is absent. */
    method DeleteNoteById(id: string)
      requires Valid()
      modifies this
      ensures Valid()
      ensures rows == old(rows) - {id}
    {
      rows := rows - {id};
    }

    /** `DELETE FROM notes`. */
    method ClearAllNotes()
      requires Valid()
      modifies this
      ensures Valid()
      ensures rows == map[]
    {
      rows := map[];
    }
  }

  /** One step of the ordered scan: appending the newest unscanned row keeps the listing ordered and duplicate-free. */
  lemma AppendNewest(r: seq<NoteEntity>, rows: map<string, NoteEntity>, unscanned: set<string>, k: string)
    requires KeyedById(rows) && unscanned <= rows.Keys && k in unscanned
    requires RowsOf(r, rows) && DistinctIds(r) && NewestFirst(r)
    requires forall i :: 0 <= i < |r| ==> r[i].id !in unscanned
    requires forall i, id :: 0 <= i < |r| && id in unscanned ==> r[i].timestamp >= rows[id].timestamp
    requires forall k' :: k' in unscanned ==> rows[k'].timestamp <= rows[k].timestamp
    ensures RowsOf(r + [rows[k]], rows) && DistinctIds(r + [rows[k]]) && NewestFirst(r + [rows[k]])
    ensures forall i :: 0 <= i < |r| + 1 ==> (r + [rows[k]])[i].id !in unscanned - {k}
    ensures forall i, id :: 0 <= i < |r| + 1 && id in unscanned - {k} ==> (r + [rows[k]])[i].timestamp >= rows[id].timestamp
  {
    var r' := r + [rows[k]];
    assert forall i :: 0 <= i < |r| ==> r'[i] == r[i];
    assert r'[|r|] == rows[k] && rows[k].id == k;
  }

  /** After an upsert the key reads back the row, and every other key is unchanged. */
  lemma UpsertReadsBack(rows: map<string, NoteEntity>, note: NoteEntity, id: string)
    requires KeyedById(rows)
    ensures KeyedById(rows[note.id := note])
    ensures id == note.id ==> rows[note.id := note][id] == note
    ensures id != note.id ==> (id in rows[note.id := note] <==> id in rows)
    ensures id != note.id && id in rows ==> rows[note.id := note][id] == rows[id]
  {
  }

  /** A listing that holds each row exactly once has as many elements as the table. */
  lemma {:induction false} ListingSize(s: seq<NoteEntity>, rows: map<string, NoteEntity>)
    requires KeyedById(rows)
    requires RowsOf(s, rows) && DistinctIds(s)
    requires forall id :: id in rows ==> rows[id] in s
    ensures |s| == |rows|
  {
    var ids := set i | 0 <= i < |s| :: s[i].id;
    assert ids == rows.Keys by {
      forall id | id in rows ensures id in ids {
        var i :| 0 <= i < |s| && s[i] == rows[id];
        assert s[i].id == id;
      }
    }
    DistinctIdsCount(s);
  }

  lemma {:induction false} DistinctIdsCount(s: seq<NoteEntity>)
    requires DistinctIds(s)
    ensures |set i | 0 <= i < |s| :: s[i].id| == |s|
  {
    if s != [] {
      var t := s[..|s| - 1];
      assert DistinctIds(t);
      DistinctIdsCount(t);
      var last := s[|s| - 1];
      assert (set i | 0 <= i < |s| :: s[i].id) == (set i | 0 <= i < |t| :: t[i].id) + {last.id};
      assert last.id !in (set i | 0 <= i < |t| :: t[i].id);
    }
  }
}
