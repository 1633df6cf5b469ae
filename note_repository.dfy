/**
 * The offline-first repository (domain/repository/NoteRepositoryImpl.kt):
 * every write goes to the Room table first and then, when a user is signed
 * in, to the user's `notes` subtree; a manual sync pushes the pending rows
 * and pulls the whole subtree back, the pulled copy always winning.
 *
 * The signed-in state (`auth.currentUser != null`) and whether the server
 * accepts each remote call are parameters of the operations.
 */
module NoteRepositories {
  import opened Wrappers
  import opened Notes
  import opened NoteEntities
  import opened NoteDaos
  import opened RemoteTree

  /** The row the pull stores for a remote note: `note.toEntity().copy(isSynced = true)`. */
  function PulledRow(note: Note): (e: NoteEntity)
    ensures e.isSynced && e.id == note.id
    ensures ToDomain(e) == note.(isSynced := true)
  {
    ToEntity(note).(isSynced := true)
  }

  /** The rows a list of pulled notes stands for: one per id, the last note with that id winning. */
  function PulledRows(notes: seq<Note>): (m: map<string, NoteEntity>)
    ensures m.Keys == set n | n in notes :: n.id
  {
    if notes == [] then map[]
    else
      var init, last := notes[..|notes| - 1], notes[|notes| - 1];
      assert forall n :: n in notes <==> n in init || n == last;
      PulledRows(init)[last.id := PulledRow(last)]
  }

  /** Each pulled row is the row of some pulled note with its id, so it is synced and keyed by its id. */
  lemma {:induction false} PulledRowsFromNotes(notes: seq<Note>, id: string)
    requires id in PulledRows(notes)
    ensures exists n :: n in notes && n.id == id && PulledRows(notes)[id] == PulledRow(n)
    ensures PulledRows(notes)[id].id == id && PulledRows(notes)[id].isSynced
  {
    var init, last := notes[..|notes| - 1], notes[|notes| - 1];
    if id == last.id {
      assert last in notes;
    } else {
      PulledRowsFromNotes(init, id);
      var n :| n in init && n.id == id && PulledRows(init)[id] == PulledRow(n);
      assert n in notes;
    }
  }

  /** The last pulled note with a given id decides its row. */
  lemma {:induction false} PulledRowsLastWins(notes: seq<Note>, i: nat)
    requires i < |notes|
    requires forall j :: i < j < |notes| ==> notes[j].id != notes[i].id
    ensures notes[i].id in PulledRows(notes) && PulledRows(notes)[notes[i].id] == PulledRow(notes[i])
  {
    var init, last := notes[..|notes| - 1], notes[|notes| - 1];
    if i < |notes| - 1 {
      PulledRowsLastWins(init, i);
    }
  }

  /**
   * The table after `remoteNotes.forEach { dao.insertNote(...) }`: one
   * REPLACE upsert per pulled note, in order. It is the old table overridden
   * by the pulled rows, so ids present only locally are never removed.
   */
  function Merged(rows: map<string, NoteEntity>, notes: seq<Note>): (r: map<string, NoteEntity>)
    ensures r == rows + PulledRows(notes)
  {
    if notes == [] then rows
    else
      var init, last := notes[..|notes| - 1], notes[|notes| - 1];
      var r := Merged(rows, init)[last.id := PulledRow(last)];
      assert r == rows + PulledRows(init)[last.id := PulledRow(last)];
      r
  }

  /** The table after the push phase: each pending row whose write was accepted becomes synced. */
  function Pushed(rows: map<string, NoteEntity>, accepted: set<string>): (r: map<string, NoteEntity>)
    ensures r.Keys == rows.Keys
    ensures forall id :: id in rows ==> r[id].isSynced == (rows[id].isSynced || id in accepted)
    ensures forall id :: id in rows ==> r[id].(isSynced := rows[id].isSynced) == rows[id]
  {
    map id | id in rows :: if !rows[id].isSynced && id in accepted then rows[id].(isSynced := true) else rows[id]
  }

  /** The nodes the push phase writes: one per pending row whose write was accepted, under its id. */
  function PushedNodes(rows: map<string, NoteEntity>, accepted: set<string>): (r: map<string, Node>)
    ensures forall id :: id in r <==> id in rows && !rows[id].isSynced && id in accepted
    ensures forall id :: id in r ==> r[id] == Encode(ToDomain(rows[id]))
  {
    map id | id in rows && !rows[id].isSynced && id in accepted :: Encode(ToDomain(rows[id]))
  }

  /** The remote subtree after the push phase: the pushed nodes written over the old children. */
  function PushedTree(tree: map<string, Node>, rows: map<string, NoteEntity>, accepted: set<string>): (r: map<string, Node>)
    ensures r.Keys == tree.Keys + PushedNodes(rows, accepted).Keys
    ensures forall id :: id in tree && id !in PushedNodes(rows, accepted) ==> r[id] == tree[id]
  {
    tree + PushedNodes(rows, accepted)
  }

  /** The table after merging a snapshot: a snapshot that does not exist changes nothing. */
  function MergedSnapshot(rows: map<string, NoteEntity>, snapshot: Snapshot): (r: map<string, NoteEntity>)
    ensures !Exists(snapshot) ==> r == rows
  {
    if Exists(snapshot) then Merged(rows, RemoteNotes(snapshot.children)) else rows
  }

  class NoteRepositoryImpl {
    const dao: NoteDao
    const notesRef: NotesRef

    ghost predicate Valid()
      reads dao
    {
      dao.Valid()
    }

    constructor (dao: NoteDao, notesRef: NotesRef)
      ensures this.dao == dao && this.notesRef == notesRef
    {
      this.dao := dao;
      this.notesRef := notesRef;
    }

    /** `getNotes()`: the table as domain notes, every row once, newest first. */
    method GetNotes() returns (notes: seq<Note>)
      requires Valid()
      ensures |notes| == |dao.rows|
      ensures forall i :: 0 <= i < |notes| ==> notes[i].id in dao.rows && ToEntity(notes[i]) == dao.rows[notes[i].id]
      ensures forall i, j :: 0 <= i < j < |notes| ==> notes[i].id != notes[j].id && notes[i].timestamp >= notes[j].timestamp
    {
      var entities := dao.GetAllNotes();
      notes := seq(|entities|, i requires 0 <= i < |entities| => ToDomain(entities[i]));
    }

    /** `getNoteById(id)`: the stored note, or null when no row has that id. */
    function GetNoteById(id: string): (r: Option<Note>)
      reads dao
      requires Valid()
      ensures r.None? <==> id !in dao.rows
      ensures r.Some? ==> r.value.id == id && ToEntity(r.value) == dao.rows[id]
    {
      match dao.GetNoteById(id)
      case Some(e) => Some(ToDomain(e))
      case None => None
    }

    /**
     * `insertNote(note)`: the row is written as given before anything else;
     * only an accepted remote write re-inserts it marked synced. A remote
     * failure is swallowed.
     */
    method InsertNote(note: Note, signedIn: bool, accepted: bool)
      requires Valid()
      modifies dao, notesRef
      ensures Valid()
      ensures dao.rows == old(dao.rows)[note.id := if signedIn && accepted then ToEntity(note).(isSynced := true) else ToEntity(note)]
      ensures notesRef.tree == if signedIn && accepted then old(notesRef.tree)[note.id := Encode(note)] else old(notesRef.tree)
    {
      var entity := ToEntity(note);
      dao.InsertNote(entity);
      if signedIn {
        var ok := notesRef.SetValue(note.id, Encode(note), accepted);
        if ok {
          dao.InsertNote(entity.(isSynced := true));
        }
      }
    }

    /** `deleteNote(id)`: the row goes at once; the remote child only when signed in and accepted. */
    method DeleteNote(id: string, signedIn: bool, accepted: bool)
      requires Valid()
      modifies dao, notesRef
      ensures Valid()
      ensures dao.rows == old(dao.rows) - {id}
      ensures notesRef.tree == if signedIn && accepted then old(notesRef.tree) - {id} else old(notesRef.tree)
    {
      dao.DeleteNoteById(id);
      if signedIn {
        var ok := notesRef.RemoveValue(id, accepted);
      }
    }

    /**
     * The push phase of `syncNotes()`: each pending row is written on its
     * own and, when accepted, re-inserted marked synced; a rejected write
     * leaves its row pending and does not stop the others.
     */
    method PushUnsyncedNotes(accepted: set<string>)
      requires Valid()
      modifies dao, notesRef
      ensures Valid()
      ensures dao.rows == Pushed(old(dao.rows), accepted)
      ensures notesRef.tree == PushedTree(old(notesRef.tree), old(dao.rows), accepted)
    {
      var unsyncedNotes := dao.GetUnsyncedNotes();
      ghost var rows0, tree0 := dao.rows, notesRef.tree;
      ghost var target, nodes := Pushed(rows0, accepted), PushedNodes(rows0, accepted);
      ghost var done: set<string> := {};
      for i := 0 to |unsyncedNotes|
        invariant dao.Valid()
        invariant PushLoop(unsyncedNotes, i, rows0, tree0, target, nodes, done, dao.rows, notesRef.tree)
      {
        ghost var rows, tree := dao.rows, notesRef.tree;
        var entity := unsyncedNotes[i];
        var note := ToDomain(entity);
        var ok := notesRef.SetValue(note.id, Encode(note), entity.id in accepted);
        if ok {
          dao.InsertNote(entity.(isSynced := true));
        }
        PushStep(unsyncedNotes, i, rows0, tree0, accepted, target, nodes, done, rows, tree, Encode(note), dao.rows, notesRef.tree);
        done := done + {entity.id};
      }
      PushFinish(unsyncedNotes, rows0, tree0, accepted, target, nodes, done, dao.rows, notesRef.tree);
    }

    /**
     * `fetchAndMergeRemoteNotes(snapshot)`: merges the given snapshot, or,
     * without one and when signed in, the one `get()` returns. `read` is the
     * snapshot that was merged; a `get()` the server rejects (`readAccepted`
     * false) throws, and the exception is swallowed.
     */
    method FetchAndMergeRemoteNotes(snapshot: Option<Snapshot>, signedIn: bool, readAccepted: bool)
      returns (ghost read: Option<Snapshot>)
      requires Valid()
      modifies dao
      ensures Valid()
      ensures snapshot.Some? ==> read == snapshot
      ensures snapshot.None? ==> (read.Some? <==> signedIn && readAccepted)
      ensures snapshot.None? && read.Some? ==> Lists(read.value, notesRef.tree)
      ensures dao.rows == if read.Some? then MergedSnapshot(old(dao.rows), read.value) else old(dao.rows)
    {
      var dataSnapshot: Snapshot;
      if snapshot.Some? {
        dataSnapshot := snapshot.value;
      } else {
        if !signedIn {
          return None;
        }
        var fetched := notesRef.Get(readAccepted);
        if fetched.None? {
          return None;
        }
        dataSnapshot := fetched.value;
      }
      read := Some(dataSnapshot);
      if !Exists(dataSnapshot) {
        return;
      }

      var remoteNotes := CollectRemoteNotes(dataSnapshot.children);
      MergeRemoteNotes(remoteNotes);
    }

    /** `remoteNotes.forEach { noteDao.insertNote(it.toEntity().copy(isSynced = true)) }`. */
    method MergeRemoteNotes(remoteNotes: seq<Note>)
      requires Valid()
      modifies dao
      ensures Valid()
      ensures dao.rows == Merged(old(dao.rows), remoteNotes)
    {
      ghost var rows0 := dao.rows;
      for i := 0 to |remoteNotes|
        invariant dao.Valid()
        invariant dao.rows == Merged(rows0, remoteNotes[..i])
      {
        assert remoteNotes[..i + 1][..i] == remoteNotes[..i];
        dao.InsertNote(PulledRow(remoteNotes[i]));
      }
      assert remoteNotes[..|remoteNotes|] == remoteNotes;
    }

    /**
     * `syncNotes()`: nothing when signed out; otherwise every pending row is
     * written independently (`accepted` holds the ids whose write the server
     * accepts), then the subtree is pulled and merged.
     */
    method SyncNotes(signedIn: bool, accepted: set<string>, readAccepted: bool) returns (ghost read: Option<Snapshot>)
      requires Valid()
      modifies dao, notesRef
      ensures Valid()
      ensures !signedIn ==> dao.rows == old(dao.rows) && notesRef.tree == old(notesRef.tree) && read.None?
      ensures signedIn ==> notesRef.tree == PushedTree(old(notesRef.tree), old(dao.rows), accepted)
      ensures signedIn ==> (read.Some? <==> readAccepted)
      ensures signedIn && read.Some? ==> Lists(read.value, notesRef.tree)
      ensures signedIn ==> dao.rows == if read.Some? then MergedSnapshot(Pushed(old(dao.rows), accepted), read.value)
                                       else Pushed(old(dao.rows), accepted)
    {
      if !signedIn {
        return None;
      }
      PushUnsyncedNotes(accepted);
      read := FetchAndMergeRemoteNotes(None, signedIn, readAccepted);
    }
  }

  /**
   * `dataSnapshot.children.forEach { ... remoteNotes.add(...) }`: the notes
   * of the mapped children, in order.
   */
  method CollectRemoteNotes(children: seq<Child>) returns (remoteNotes: seq<Note>)
    ensures remoteNotes == RemoteNotes(children)
  {
    remoteNotes := [];
    for i := 0 to |children|
      invariant remoteNotes == RemoteNotes(children[..i])
    {
      assert children[..i + 1][..i] == children[..i];
      match MapChild(children[i].node)
      case Some(note) =>
        remoteNotes := remoteNotes + [note];
      case None =>
    }
    assert children[..|children|] == children;
  }
  /** Partway through the push: the processed ids hold their final row, the others their old one. */
  ghost predicate PushedSoFar(rows0: map<string, NoteEntity>, target: map<string, NoteEntity>,
                              done: set<string>, rows: map<string, NoteEntity>)
  {
    && rows.Keys == rows0.Keys == target.Keys
    && forall id :: id in rows0 ==> rows[id] == if id in done then target[id] else rows0[id]
  }

  /** Partway through the push: the accepted processed ids hold their pushed node. */
  ghost predicate PushedTreeSoFar(tree0: map<string, Node>, nodes: map<string, Node>,
                                  done: set<string>, tree: map<string, Node>)
  {
    && (forall id :: id in tree <==> id in tree0 || (id in done && id in nodes))
    && (forall id :: id in tree ==> tree[id] == if id in done && id in nodes then nodes[id] else tree0[id])
  }

  /**
   * The push loop's invariant after `i` of the pending rows `notes`: the
   * processed ids are `done`, each a pending row of the old table, and both
   * stores hold their final value (from `target` and `nodes`) for those ids
   * and their old value elsewhere.
   */
  ghost predicate PushLoop(notes: seq<NoteEntity>, i: int, rows0: map<string, NoteEntity>, tree0: map<string, Node>,
                           target: map<string, NoteEntity>, nodes: map<string, Node>,
                           done: set<string>, rows: map<string, NoteEntity>, tree: map<string, Node>)
  {
    && 0 <= i <= |notes|
    && RowsOf(notes, rows0)
    && (forall k :: 0 <= k < |notes| ==> !notes[k].isSynced)
    && (forall id :: id in rows0 && !rows0[id].isSynced ==> rows0[id] in notes)
    && (forall k :: 0 <= k < i ==> notes[k].id in done)
    && (forall id :: id in done ==> id in rows0 && !rows0[id].isSynced)
    && PushedSoFar(rows0, target, done, rows)
    && PushedTreeSoFar(tree0, nodes, done, tree)
  }

  /**
   * One iteration of the push loop: the `i`-th pending row's `node` is
   * written, and the row re-inserted synced, exactly when it is accepted.
   */
  lemma PushStep(notes: seq<NoteEntity>, i: int, rows0: map<string, NoteEntity>, tree0: map<string, Node>,
                 accepted: set<string>, target: map<string, NoteEntity>, nodes: map<string, Node>,
                 done: set<string>, rows: map<string, NoteEntity>, tree: map<string, Node>,
                 node: Node, rows': map<string, NoteEntity>, tree': map<string, Node>)
    requires PushLoop(notes, i, rows0, tree0, target, nodes, done, rows, tree) && i < |notes|
    requires target == Pushed(rows0, accepted)
    requires notes[i].id in nodes <==> notes[i].id in accepted
    requires notes[i].id in nodes ==> nodes[notes[i].id] == node
    requires rows' == if notes[i].id in accepted then rows[notes[i].id := notes[i].(isSynced := true)] else rows
    requires tree' == if notes[i].id in accepted then tree[notes[i].id := node] else tree
    ensures PushLoop(notes, i + 1, rows0, tree0, target, nodes, done + {notes[i].id}, rows', tree')
  {
    var entity := notes[i];
    assert entity.id in rows0 && rows0[entity.id] == entity && !entity.isSynced;
    PushRowStep(rows0, accepted, target, done, rows, entity, rows');
    PushTreeStep(nodes, tree0, done, tree, entity.id, node, tree');
    PrefixDone(notes, i, done);
  }

  /** The ids of the first `i + 1` rows are processed once the `i`-th one is. */
  lemma PrefixDone(notes: seq<NoteEntity>, i: int, done: set<string>)
    requires 0 <= i < |notes|
    requires forall k :: 0 <= k < i ==> notes[k].id in done
    ensures forall k :: 0 <= k < i + 1 ==> notes[k].id in done + {notes[i].id}
  {
  }

  /** Once every pending row has been processed, both stores hold the push's result. */
  lemma PushFinish(notes: seq<NoteEntity>, rows0: map<string, NoteEntity>, tree0: map<string, Node>,
                   accepted: set<string>, target: map<string, NoteEntity>, nodes: map<string, Node>,
                   done: set<string>, rows: map<string, NoteEntity>, tree: map<string, Node>)
    requires KeyedById(rows0)
    requires target == Pushed(rows0, accepted) && nodes == PushedNodes(rows0, accepted)
    requires PushLoop(notes, |notes|, rows0, tree0, target, nodes, done, rows, tree)
    ensures rows == Pushed(rows0, accepted)
    ensures tree == PushedTree(tree0, rows0, accepted)
  {
    forall id | id in rows0 && !rows0[id].isSynced
      ensures id in done
    {
      assert rows0[id] in notes;
      var k :| 0 <= k < |notes| && notes[k] == rows0[id];
      assert notes[k].id in done;
    }
    PushFinishRows(rows0, accepted, target, done, rows);
    PushFinishTree(rows0, accepted, nodes, tree0, done, tree);
  }

  /** One iteration of the push loop on the table. */
  lemma PushRowStep(rows0: map<string, NoteEntity>, accepted: set<string>, target: map<string, NoteEntity>,
                    done: set<string>, rows: map<string, NoteEntity>, entity: NoteEntity, rows': map<string, NoteEntity>)
    requires target == Pushed(rows0, accepted)
    requires entity.id in rows0 && rows0[entity.id] == entity && !entity.isSynced
    requires PushedSoFar(rows0, target, done, rows)
    requires rows' == if entity.id in accepted then rows[entity.id := entity.(isSynced := true)] else rows
    ensures PushedSoFar(rows0, target, done + {entity.id}, rows')
  {
  }

  /** One iteration of the push loop on the remote subtree. */
  lemma PushTreeStep(nodes: map<string, Node>, tree0: map<string, Node>, done: set<string>,
                     tree: map<string, Node>, id: string, node: Node, tree': map<string, Node>)
    requires id in nodes ==> nodes[id] == node
    requires PushedTreeSoFar(tree0, nodes, done, tree)
    requires tree' == if id in nodes then tree[id := node] else tree
    ensures PushedTreeSoFar(tree0, nodes, done + {id}, tree')
  {
  }

  /** When every pending id has been processed, the push has reached its final table. */
  lemma PushFinishRows(rows0: map<string, NoteEntity>, accepted: set<string>, target: map<string, NoteEntity>,
                       done: set<string>, rows: map<string, NoteEntity>)
    requires target == Pushed(rows0, accepted)
    requires forall id :: id in rows0 && !rows0[id].isSynced ==> id in done
    requires PushedSoFar(rows0, target, done, rows)
    ensures rows == target
  {
    forall id | id in rows ensures rows[id] == target[id] {
      if id !in done {
        assert rows0[id].isSynced;
      }
    }
  }

  /** When every pending id has been processed, the push has reached its final subtree. */
  lemma PushFinishTree(rows0: map<string, NoteEntity>, accepted: set<string>, nodes: map<string, Node>,
                       tree0: map<string, Node>, done: set<string>, tree: map<string, Node>)
    requires nodes == PushedNodes(rows0, accepted)
    requires forall id :: id in rows0 && !rows0[id].isSynced ==> id in done
    requires PushedTreeSoFar(tree0, nodes, done, tree)
    ensures tree == PushedTree(tree0, rows0, accepted)
  {
    var r := tree0 + nodes;
    assert tree.Keys == r.Keys;
    forall id | id in tree ensures tree[id] == r[id] {
    }
  }

  /** A subtree of the shape this app writes, as the rows a pull makes of it. */
  function PulledTree(tree: map<string, Node>): (m: map<string, NoteEntity>)
    ensures forall k :: k in m <==> k in tree && MapChild(tree[k]).Some?
  {
    map k | k in tree && MapChild(tree[k]).Some? :: PulledRow(MapChild(tree[k]).value)
  }

  /** Pulling the same notes twice leaves the table as pulling them once. */
  lemma MergeIdempotent(rows: map<string, NoteEntity>, notes: seq<Note>)
    ensures Merged(Merged(rows, notes), notes) == Merged(rows, notes)
  {
    var p := PulledRows(notes);
    assert (rows + p) + p == rows + p;
  }

  /** Merging the same snapshot twice leaves the table as merging it once. */
  lemma MergedSnapshotIdempotent(rows: map<string, NoteEntity>, snapshot: Snapshot)
    ensures MergedSnapshot(MergedSnapshot(rows, snapshot), snapshot) == MergedSnapshot(rows, snapshot)
  {
    if Exists(snapshot) {
      MergeIdempotent(rows, RemoteNotes(snapshot.children));
    }
  }

  /**
   * The pull never removes a row, and a row whose id no pulled note carries
   * is left as it was; every pulled id ends up synced.
   */
  lemma MergeKeepsLocalRows(rows: map<string, NoteEntity>, notes: seq<Note>, id: string)
    ensures rows.Keys <= Merged(rows, notes).Keys
    ensures id in rows && (forall n :: n in notes ==> n.id != id) ==> Merged(rows, notes)[id] == rows[id]
    ensures (exists n :: n in notes && n.id == id) ==> Merged(rows, notes)[id].isSynced
  {
    if exists n :: n in notes && n.id == id {
      PulledRowsFromNotes(notes, id);
    }
  }

  /**
   * A child that maps to a note, and whose id no other child maps to, ends
   * up in the table exactly as pulled (defaults applied, marked synced),
   * whatever local row had that id.
   */
  lemma {:induction false} PulledChildOverwrites(rows: map<string, NoteEntity>, children: seq<Child>, i: nat)
    requires i < |children| && MapChild(children[i].node).Some?
    requires forall j :: 0 <= j < |children| && j != i && MapChild(children[j].node).Some? ==>
               MapChild(children[j].node).value.id != MapChild(children[i].node).value.id
    ensures var n := MapChild(children[i].node).value;
            n.id in Merged(rows, RemoteNotes(children)) && Merged(rows, RemoteNotes(children))[n.id] == PulledRow(n)
  {
    var n := MapChild(children[i].node).value;
    var notes := RemoteNotes(children);
    RemoteNotesFromChildren(children, n);
    assert n.id in PulledRows(notes);
    PulledRowsFromNotes(notes, n.id);
    var m :| m in notes && m.id == n.id && PulledRows(notes)[n.id] == PulledRow(m);
    RemoteNotesFromChildren(children, m);
    var j :| 0 <= j < |children| && MapChild(children[j].node) == Some(m);
    assert j == i;
  }

  /**
   * On a subtree of the shape this app writes, the pull does not depend on
   * the order of the children: it overrides the table with the subtree's
   * pulled rows.
   */
  lemma PullOfKeyedTree(rows: map<string, NoteEntity>, tree: map<string, Node>, snapshot: Snapshot)
    requires Lists(snapshot, tree) && KeyedByIdField(tree)
    ensures MergedSnapshot(rows, snapshot) == rows + PulledTree(tree)
  {
    if !Exists(snapshot) {
      EmptySnapshotEmptyTree(tree, snapshot);
      assert PulledTree(tree) == map[];
    } else {
      PulledRowsOfKeyedTree(tree, snapshot);
    }
  }

  lemma EmptySnapshotEmptyTree(tree: map<string, Node>, snapshot: Snapshot)
    requires Lists(snapshot, tree) && !Exists(snapshot)
    ensures tree == map[]
  {
    assert |tree| == 0;
  }

  /** In a snapshot of a keyed subtree, a child that maps to a note maps to one carrying the child's key. */
  lemma KeyedChildId(tree: map<string, Node>, snapshot: Snapshot, i: int)
    requires Lists(snapshot, tree) && KeyedByIdField(tree)
    requires 0 <= i < |snapshot.children| && MapChild(snapshot.children[i].node).Some?
    ensures MapChild(snapshot.children[i].node).value.id == snapshot.children[i].key
  {
    assert ReadString(tree[snapshot.children[i].key], "id") == Read(snapshot.children[i].key);
  }

  lemma PulledRowsOfKeyedTree(tree: map<string, Node>, snapshot: Snapshot)
    requires Lists(snapshot, tree) && KeyedByIdField(tree)
    ensures PulledRows(RemoteNotes(snapshot.children)) == PulledTree(tree)
  {
    var p, t := PulledRows(RemoteNotes(snapshot.children)), PulledTree(tree);
    forall k | k in t ensures k in p && p[k] == t[k] {
      KeyedTreeRowPulled(tree, snapshot, k);
    }
    forall k | k in p ensures k in t {
      PulledRowInKeyedTree(tree, snapshot, k);
    }
    SamePointsSameMap(p, t);
  }

  /** Two tables with the same keys and the same row under each key are the same table. */
  lemma SamePointsSameMap(p: map<string, NoteEntity>, t: map<string, NoteEntity>)
    requires forall k :: k in t ==> k in p && p[k] == t[k]
    requires forall k :: k in p ==> k in t
    ensures p == t
  {
  }

  lemma KeyedTreeRowPulled(tree: map<string, Node>, snapshot: Snapshot, k: string)
    requires Lists(snapshot, tree) && KeyedByIdField(tree)
    requires k in PulledTree(tree)
    ensures k in PulledRows(RemoteNotes(snapshot.children))
    ensures PulledRows(RemoteNotes(snapshot.children))[k] == PulledTree(tree)[k]
  {
    var children := snapshot.children;
    var i :| 0 <= i < |children| && children[i].key == k;
    KeyedChildId(tree, snapshot, i);
    forall j | 0 <= j < |children| && j != i && MapChild(children[j].node).Some?
      ensures MapChild(children[j].node).value.id != MapChild(children[i].node).value.id
    {
      KeyedChildId(tree, snapshot, j);
    }
    PulledChildOverwrites(map[], children, i);
  }

  lemma PulledRowInKeyedTree(tree: map<string, Node>, snapshot: Snapshot, k: string)
    requires Lists(snapshot, tree) && KeyedByIdField(tree)
    requires k in PulledRows(RemoteNotes(snapshot.children))
    ensures k in PulledTree(tree)
  {
    var children := snapshot.children;
    var notes := RemoteNotes(children);
    PulledRowsFromNotes(notes, k);
    var n :| n in notes && n.id == k;
    RemoteNotesFromChildren(children, n);
    var i :| 0 <= i < |children| && MapChild(children[i].node) == Some(n);
    KeyedChildId(tree, snapshot, i);
  }

  /** Writing a note under its id keeps the subtree keyed by its `id` fields. */
  lemma WriteKeepsKeyedTree(tree: map<string, Node>, note: Note)
    requires KeyedByIdField(tree)
    ensures KeyedByIdField(tree[note.id := Encode(note)])
  {
    EncodeIdField(note);
  }

  lemma EncodeIdField(note: Note)
    ensures ReadString(Encode(note), "id") == Read(note.id)
  {
  }

  /** The push keeps the subtree keyed by its `id` fields. */
  lemma PushKeepsKeyedTree(tree: map<string, Node>, rows: map<string, NoteEntity>, accepted: set<string>)
    requires KeyedByIdField(tree) && KeyedById(rows)
    ensures KeyedByIdField(PushedTree(tree, rows, accepted))
  {
    var nodes := PushedNodes(rows, accepted);
    var r := tree + nodes;
    forall k | k in r ensures ReadString(r[k], "id") == Read(k) {
      if k in nodes {
        EncodeIdField(ToDomain(rows[k]));
      }
    }
  }

  /** Removing a child keeps the subtree keyed by its `id` fields. */
  lemma RemoveKeepsKeyedTree(tree: map<string, Node>, id: string)
    requires KeyedByIdField(tree)
    ensures KeyedByIdField(tree - {id})
  {
  }

  /** A table whose pending rows all have rejected writes has nothing left to push. */
  lemma NothingLeftToPush(rows: map<string, NoteEntity>, tree: map<string, Node>, accepted: set<string>)
    requires forall id :: id in rows && !rows[id].isSynced ==> id !in accepted
    ensures Pushed(rows, accepted) == rows && PushedTree(tree, rows, accepted) == tree
  {
    var p := Pushed(rows, accepted);
    forall id | id in rows ensures p[id] == rows[id] {
      assert p[id].(isSynced := rows[id].isSynced) == rows[id];
    }
    assert PushedNodes(rows, accepted) == map[];
  }

  /**
   * After a sync whose pull lists the pushed subtree, every row still
   * pending is one whose write was rejected.
   */
  lemma SyncLeavesOnlyRejectedPending(rows: map<string, NoteEntity>, tree: map<string, Node>,
                                      accepted: set<string>, snapshot: Snapshot)
    requires KeyedById(rows) && KeyedByIdField(tree)
    requires Lists(snapshot, PushedTree(tree, rows, accepted))
    ensures var rows1 := MergedSnapshot(Pushed(rows, accepted), snapshot);
            forall id :: id in rows1 && !rows1[id].isSynced ==> id !in accepted
  {
    var pushed, tree1 := Pushed(rows, accepted), PushedTree(tree, rows, accepted);
    PushKeepsKeyedTree(tree, rows, accepted);
    PullOfKeyedTree(pushed, tree1, snapshot);
    var rows1 := MergedSnapshot(pushed, snapshot);
    var pulled := PulledTree(tree1);
    forall id | id in rows1 && !rows1[id].isSynced ensures id !in accepted {
      if id !in pulled {
        assert rows1[id] == pushed[id];
      }
    }
  }

  /**
   * Two syncs in a row, with no local edit between them, the same writes
   * accepted and both pulls listing the subtree, leave both stores as the
   * first sync left them.
   */
  lemma {:induction false} SyncTwiceIsSyncOnce(rows: map<string, NoteEntity>, tree: map<string, Node>,
                                               accepted: set<string>, s1: Snapshot, s2: Snapshot)
    requires KeyedById(rows) && KeyedByIdField(tree)
    requires Lists(s1, PushedTree(tree, rows, accepted))
    requires Lists(s2, PushedTree(tree, rows, accepted))
    ensures var tree1 := PushedTree(tree, rows, accepted);
            var rows1 := MergedSnapshot(Pushed(rows, accepted), s1);
            && Pushed(rows1, accepted) == rows1
            && PushedTree(tree1, rows1, accepted) == tree1
            && MergedSnapshot(Pushed(rows1, accepted), s2) == rows1
  {
    var tree1 := PushedTree(tree, rows, accepted);
    var rows1 := MergedSnapshot(Pushed(rows, accepted), s1);
    SyncLeavesOnlyRejectedPending(rows, tree, accepted, s1);
    NothingLeftToPush(rows1, tree1, accepted);
    PushKeepsKeyedTree(tree, rows, accepted);
    SecondPullChangesNothing(Pushed(rows, accepted), tree1, s1, s2);
  }

  /** Pulling a keyed subtree again over the table its first pull left changes nothing. */
  lemma SecondPullChangesNothing(rows: map<string, NoteEntity>, tree: map<string, Node>, s1: Snapshot, s2: Snapshot)
    requires KeyedByIdField(tree) && Lists(s1, tree) && Lists(s2, tree)
    ensures MergedSnapshot(MergedSnapshot(rows, s1), s2) == MergedSnapshot(rows, s1)
  {
    var rows1 := MergedSnapshot(rows, s1);
    PullOfKeyedTree(rows, tree, s1);
    PullOfKeyedTree(rows1, tree, s2);
    OverrideTwice(rows, PulledTree(tree));
  }

  /** Overriding a map twice with the same map is overriding it once. */
  lemma OverrideTwice<K, V>(m: map<K, V>, p: map<K, V>)
    ensures (m + p) + p == m + p
  {
  }

  /**
   * A sync in which every pending write is accepted leaves no row pending,
   * whether or not the pull then succeeds.
   */
  lemma FullSyncLeavesNothingPending(rows: map<string, NoteEntity>, accepted: set<string>, read: Option<Snapshot>)
    requires forall id :: id in rows && !rows[id].isSynced ==> id in accepted
    ensures var r := if read.Some? then MergedSnapshot(Pushed(rows, accepted), read.value) else Pushed(rows, accepted);
            forall id :: id in r ==> r[id].isSynced
  {
    if read.Some? && Exists(read.value) {
      var notes := RemoteNotes(read.value.children);
      forall id | id in PulledRows(notes) ensures PulledRows(notes)[id].isSynced {
        PulledRowsFromNotes(notes, id);
      }
    }
  }

  /**
   * As written, for every table and snapshot: a pending row whose write is
   * rejected stays pending through the push, and the pull then replaces it by
   * the row of the remote child with its id, marked synced, whatever the
   * local edit held.
   */
  lemma {:induction false} RejectedEditOverwritten(rows: map<string, NoteEntity>, accepted: set<string>,
                                                   snapshot: Snapshot, i: nat)
    requires i < |snapshot.children| && MapChild(snapshot.children[i].node).Some?
    requires forall j :: 0 <= j < |snapshot.children| && j != i && MapChild(snapshot.children[j].node).Some? ==>
               MapChild(snapshot.children[j].node).value.id != MapChild(snapshot.children[i].node).value.id
    requires var id := MapChild(snapshot.children[i].node).value.id;
             id in rows && !rows[id].isSynced && id !in accepted
    ensures var n := MapChild(snapshot.children[i].node).value;
            && Pushed(rows, accepted)[n.id] == rows[n.id]
            && n.id in MergedSnapshot(Pushed(rows, accepted), snapshot)
            && MergedSnapshot(Pushed(rows, accepted), snapshot)[n.id] == PulledRow(n)
  {
    var n := MapChild(snapshot.children[i].node).value;
    assert Pushed(rows, accepted)[n.id].(isSynced := false) == rows[n.id];
    assert Exists(snapshot);
    PulledChildOverwrites(Pushed(rows, accepted), snapshot.children, i);
  }

  /**
   * As written, a pending edit whose write is rejected is overwritten by the
   * older remote copy in the same sync, and the row then reads as synced.
   */
  lemma RejectedEditLostOnPull()
    ensures var rows := map["a" := NoteEntity("a", "new", "", 2, false)];
            var tree := map["a" := Encode(Note("a", "old", "", 1, false))];
            var snapshot := Snapshot([Child("a", tree["a"])]);
            && PushedTree(tree, rows, {}) == tree
            && Lists(snapshot, tree)
            && MergedSnapshot(Pushed(rows, {}), snapshot) == map["a" := NoteEntity("a", "old", "", 1, true)]
  {
    var rows := map["a" := NoteEntity("a", "new", "", 2, false)];
    var stale := Note("a", "old", "", 1, false);
    var tree := map["a" := Encode(stale)];
    NothingAcceptedNothingPushed(rows, tree);
    OneChildListed("a", Encode(stale));
    OneChildPulled(Child("a", Encode(stale)), stale);
    OneNoteMerged(rows, stale.(isSynced := true));
    assert PulledRow(stale.(isSynced := true)) == NoteEntity("a", "old", "", 1, true);
  }

  /** When no write is accepted the push phase changes neither store. */
  lemma NothingAcceptedNothingPushed(rows: map<string, NoteEntity>, tree: map<string, Node>)
    ensures Pushed(rows, {}) == rows && PushedTree(tree, rows, {}) == tree
  {
    assert PushedNodes(rows, {}) == map[];
  }

  lemma OneChildListed(key: string, node: Node)
    ensures Lists(Snapshot([Child(key, node)]), map[key := node])
  {
    var children := [Child(key, node)];
    assert children[0].key == key;
  }

  /** A snapshot of one child holding a written note pulls that note, marked synced. */
  lemma OneChildPulled(child: Child, note: Note)
    requires child.node == Encode(note) && note.id != ""
    ensures RemoteNotes([child]) == [note.(isSynced := true)]
  {
    EncodeRoundTrip(note);
    assert [child][..0] == [];
  }

  /** Pulling one note upserts its row. */
  lemma OneNoteMerged(rows: map<string, NoteEntity>, note: Note)
    ensures Merged(rows, [note]) == rows[note.id := PulledRow(note)]
  {
    assert [note][..0] == [];
  }
}
