/**
 * The Firebase Realtime Database as the repository sees it: the subtree
 * `users/{uid}/notes` of the signed-in user, a map from child key to a node
 * of named scalar fields, and the value snapshots read from it.
 */
module RemoteTree {
  import opened Wrappers
  import opened Notes

  /** A scalar stored in the tree. `Other` is any value of another kind (a double, a list, a nested object). */
  datatype Value = Text(s: string) | Number(n: Long) | Flag(b: bool) | Other

  /** A child of `notes`: its named scalar fields. */
  datatype Node = Node(fields: map<string, Value>)

  /** One child of a snapshot: the key it is stored under and its fields. */
  datatype Child = Child(key: string, node: Node)

  /** A value snapshot of `notes`, its children in the order they are delivered. */
  datatype Snapshot = Snapshot(children: seq<Child>)

  /** `DataSnapshot.exists()`: a location without children holds no value, and yields no notes. */
  predicate Exists(snapshot: Snapshot)
    ensures !Exists(snapshot) <==> snapshot == Snapshot([])
    ensures !Exists(snapshot) ==> RemoteNotes(snapshot.children) == []
  {
    |snapshot.children| > 0
  }

  /** `snapshot` holds every child of `tree` once, under its own key. */
  ghost predicate Lists(snapshot: Snapshot, tree: map<string, Node>) {
    && |snapshot.children| == |tree|
    && (forall i :: 0 <= i < |snapshot.children| ==>
          snapshot.children[i].key in tree && tree[snapshot.children[i].key] == snapshot.children[i].node)
    && (forall i, j :: 0 <= i < j < |snapshot.children| ==> snapshot.children[i].key != snapshot.children[j].key)
    && (forall k :: k in tree ==> exists i :: 0 <= i < |snapshot.children| && snapshot.children[i].key == k)
  }

  /** The shape this app writes: every child carries its own key as its `id` field. */
  ghost predicate KeyedByIdField(tree: map<string, Node>) {
    forall k :: k in tree ==> ReadString(tree[k], "id") == Read(k)
  }

  /**
   * `setValue(note)`: Firebase's bean mapping of the data class `Note`, one
   * field per getter (the getter of `isSynced` is named `isSynced`, which the
   * mapper turns into the property `synced`). Reading it back with
   * `MapChild` gives the note again, except that the flag comes back true.
   * Every written field is a scalar; the id is stored as text under `id`
   * and the flag under `synced`.
   */
  function Encode(note: Note): (node: Node)
    ensures forall f :: f in node.fields ==> node.fields[f] != Other
    ensures "id" in node.fields && node.fields["id"] == Text(note.id)
    ensures "synced" in node.fields && node.fields["synced"] == Flag(note.isSynced)
  {
    Node(map["id" := Text(note.id), "title" := Text(note.title), "content" := Text(note.content),
             "timestamp" := Number(note.timestamp), "synced" := Flag(note.isSynced)])
  }

  /** Reading back a written note gives it again, marked synced; a note with an empty id is dropped. */
  lemma EncodeRoundTrip(note: Note)
    ensures MapChild(Encode(note)) == if note.id == "" then None else Some(note.(isSynced := true))
  {
    var node := Encode(note);
    assert ReadString(node, "id") == Read(note.id);
    assert ReadString(node, "title") == Read(note.title);
    assert ReadString(node, "content") == Read(note.content);
    assert ReadLong(node, "timestamp") == Read(note.timestamp);
  }

  /** The outcome of `child(field).getValue(String::class.java) ?: default`. */
  datatype Read<T> = Read(value: T) | Threw

  /** `getValue(String::class.java) ?: ""`: an absent field gives "", a field of another kind throws. */
  function ReadString(node: Node, field: string): (r: Read<string>)
    ensures field !in node.fields ==> r == Read("")
    ensures field in node.fields && node.fields[field].Text? ==> r == Read(node.fields[field].s)
    ensures field in node.fields && !node.fields[field].Text? ==> r.Threw?
  {
    if field !in node.fields then Read("")
    else match node.fields[field]
      case Text(s) => Read(s)
      case _ => Threw
  }

  /** `getValue(Long::class.java) ?: 0L`: an absent field gives 0, a field of another kind throws. */
  function ReadLong(node: Node, field: string): (r: Read<Long>)
    ensures field !in node.fields ==> r == Read(0)
    ensures field in node.fields && node.fields[field].Number? ==> r == Read(node.fields[field].n)
    ensures field in node.fields && !node.fields[field].Number? ==> r.Threw?
  {
    if field !in node.fields then Read(0)
    else match node.fields[field]
      case Number(n) => Read(n)
      case _ => Threw
  }

  /**
   * The per-child mapping of the pull: the four fields read with their
   * defaults, the child dropped when a read throws (the exception is caught
   * for that child alone) or when its id is empty; a kept note is marked
   * synced. The stored `synced` field is never read.
   */
  function MapChild(node: Node): (r: Option<Note>)
    ensures r.Some? <==>
      && ReadString(node, "id").Read? && ReadString(node, "id").value != ""
      && ReadString(node, "title").Read? && ReadString(node, "content").Read?
      && ReadLong(node, "timestamp").Read?
    ensures r.Some? ==> r.value == Note(ReadString(node, "id").value, ReadString(node, "title").value,
                                       ReadString(node, "content").value, ReadLong(node, "timestamp").value, true)
  {
    match (ReadString(node, "id"), ReadString(node, "title"), ReadString(node, "content"), ReadLong(node, "timestamp"))
    case (Read(id), Read(title), Read(content), Read(timestamp)) =>
      if id != "" then Some(Note(id, title, content, timestamp, true)) else None
    case _ => None
  }

  /** The `synced` field a node carries is irrelevant to what the pull makes of it. */
  lemma MapChildIgnoresSynced(node: Node, flag: Value)
    ensures MapChild(Node(node.fields["synced" := flag])) == MapChild(node)
  {
    var node' := Node(node.fields["synced" := flag]);
    assert ReadString(node', "id") == ReadString(node, "id");
    assert ReadString(node', "title") == ReadString(node, "title");
    assert ReadString(node', "content") == ReadString(node, "content");
    assert ReadLong(node', "timestamp") == ReadLong(node, "timestamp");
  }

  /** The notes of a snapshot: `MapChild` over its children in order, dropped children left out. */
  function RemoteNotes(children: seq<Child>): (notes: seq<Note>)
    ensures |notes| <= |children|
    ensures forall n :: n in notes ==> n.id != "" && n.isSynced
  {
    if children == [] then []
    else
      var prefix := RemoteNotes(children[..|children| - 1]);
      match MapChild(children[|children| - 1].node)
      case Some(n) => prefix + [n]
      case None => prefix
  }

  /** A note is pulled exactly when some child maps to it. */
  lemma {:induction false} RemoteNotesFromChildren(children: seq<Child>, n: Note)
    ensures n in RemoteNotes(children) <==> exists i :: 0 <= i < |children| && MapChild(children[i].node) == Some(n)
  {
    if children != [] {
      var init, last := children[..|children| - 1], children[|children| - 1].node;
      RemoteNotesFromChildren(init, n);
      var tail := if MapChild(last).Some? then [MapChild(last).value] else [];
      assert RemoteNotes(children) == RemoteNotes(init) + tail;
      assert n in RemoteNotes(children) <==> n in RemoteNotes(init) || MapChild(last) == Some(n);
      assert forall i :: 0 <= i < |init| ==> init[i] == children[i];
    }
  }

  /**
   * The `notes` reference of the signed-in user. `accepted` says whether the
   * server accepts the call; a call the server rejects (permission denied,
   * invalid data) throws from `await()` and changes nothing. A call made
   * while disconnected is not one of these: it neither fails nor returns.
   */
  class NotesRef {
    var tree: map<string, Node>

    constructor (tree: map<string, Node>)
      ensures this.tree == tree
    {
      this.tree := tree;
    }

    /** `child(key).setValue(node).await()`. */
    method SetValue(key: string, node: Node, accepted: bool) returns (ok: bool)
      modifies this
      ensures ok == accepted
      ensures tree == if accepted then old(tree)[key := node] else old(tree)
    {
      ok := accepted;
      if accepted {
        tree := tree[key := node];
      }
    }

    /** `child(key).removeValue().await()`. */
    method RemoveValue(key: string, accepted: bool) returns (ok: bool)
      modifies this
      ensures ok == accepted
      ensures tree == if accepted then old(tree) - {key} else old(tree)
    {
      ok := accepted;
      if accepted {
        tree := tree - {key};
      }
    }

    /** `get().await()`: a snapshot listing the whole tree, in some order; nothing when not accepted. */
    method Get(accepted: bool) returns (r: Option<Snapshot>)
      ensures r.Some? <==> accepted
      ensures r.Some? ==> Lists(r.value, tree)
    {
      if !accepted {
        return None;
      }
      var children: seq<Child> := [];
      var unread := tree.Keys;
      while unread != {}
        invariant unread <= tree.Keys
        invariant |children| + |unread| == |tree|
        invariant forall i :: 0 <= i < |children| ==>
          children[i].key in tree && children[i].key !in unread && tree[children[i].key] == children[i].node
        invariant forall i, j :: 0 <= i < j < |children| ==> children[i].key != children[j].key
        invariant forall k :: k in tree && k !in unread ==> exists i :: 0 <= i < |children| && children[i].key == k
        decreases unread
      {
        var k :| k in unread;
        ghost var before := children;
        children := children + [Child(k, tree[k])];
        assert forall i :: 0 <= i < |before| ==> children[i] == before[i];
        assert children[|before|].key == k;
        unread := unread - {k};
      }
      r := Some(Snapshot(children));
    }
  }
}
