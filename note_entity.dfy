/** The Room row for a note and its conversions to and from the domain record. */
module NoteEntities {
  import opened Notes

  /** A row of table `notes`; `id` is the primary key and is never generated. */
  datatype NoteEntity = NoteEntity(id: string, title: string, content: string, timestamp: Long, isSynced: bool)

  /** `NoteEntity.toDomain()`: a field-for-field copy, inverse of `ToEntity`. */
  function ToDomain(e: NoteEntity): (n: Note)
    ensures n.id == e.id && n.title == e.title && n.content == e.content
    ensures n.timestamp == e.timestamp && n.isSynced == e.isSynced
  {
    Note(e.id, e.title, e.content, e.timestamp, e.isSynced)
  }

  /** `Note.toEntity()`: a field-for-field copy, inverse of `ToDomain`. */
  function ToEntity(n: Note): (e: NoteEntity)
    ensures ToDomain(e) == n
  {
    NoteEntity(n.id, n.title, n.content, n.timestamp, n.isSynced)
  }

  /** Every row comes back unchanged from a round trip through the domain. */
  lemma EntityRoundTrip(e: NoteEntity)
    ensures ToEntity(ToDomain(e)) == e
  {
  }

  /** Both conversions are injective, so distinct notes give distinct rows. */
  lemma ToEntityInjective(a: Note, b: Note)
    ensures ToEntity(a) == ToEntity(b) <==> a == b
  {
    if ToEntity(a) == ToEntity(b) {
      assert a == ToDomain(ToEntity(a));
    }
  }
}
