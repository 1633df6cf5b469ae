# FireNotes offline-first sync, modelled in Dafny

FireNotes is an Android notes app. It keeps every note in a local Room
table and mirrors it, for a signed-in user, under
`users/<uid>/notes/<id>` in the Firebase Realtime Database. This project
models the following core, and proves what each part promises:

- the repository that writes locally first and then remotely (insert, delete);
- the manual sync: push every pending row, then pull and merge the remote subtree;
- the Room DAO as a keyed table with its queries;
- the entity/domain mappers;
- the four screen view models (sign-in, sign-up, note editor, note list), as
  small state machines.

Files, one module each:

| file | models |
|---|---|
| `wrappers.dfy` | Kotlin's nullable values and the elvis operator |
| `kotlin_text.dfy` | `Char.isWhitespace`, `trim`, `isBlank` and `String.length` in UTF-16 code units |
| `note.dfy` | the domain `Note` and Kotlin's 64-bit `Long` |
| `note_entity.dfy` | `NoteEntity`, `toDomain` and `toEntity` |
| `note_dao.dfy` | `NoteDao`: a class over a map from primary key to row |
| `remote_tree.dfy` | the user's remote subtree, the per-child mapping of a pull, and the `notes` reference with its success-or-failure calls |
| `note_repository.dfy` | `NoteRepositoryImpl` and the functions that specify its push and pull |
| `auth.dfy` | credentials, auth results and the trim/blank check both auth screens share |
| `login_view_model.dfy`, `register_view_model.dfy`, `add_edit_note_view_model.dfy`, `notes_view_model.dfy` | the view models |

How the model is set up:

- **Collaborators become inputs.** Whether a user is signed in
  (`signedIn`) and whether the server accepts a call (`accepted`,
  `readAccepted`, or for the push the set `accepted` of ids whose write
  succeeds) are parameters of the repository's methods. A call that is not
  accepted is one the server rejects (permission denied, invalid data): it
  throws from `await()`. A call made while the device is disconnected is
  not modelled as a failure (see "## Left out").
- **Coroutines are split at their suspension point.** Each coroutine a view
  model launches becomes two steps: the event runs up to and including the
  suspending call, and a second method runs the rest with that call's
  outcome. The calls made are recorded in a log field (`loginCalls`,
  `saveCalls`, `calls`), and what goes onto an event flow is appended to
  `events`. `viewModelScope` starts on `Dispatchers.Main.immediate`, so a
  launched coroutine runs synchronously up to its first suspension.
- **The remote subtree is a map from key to node.** A node is a map from
  field name to value. `setValue(note)` is Firebase's bean mapping of
  `Note`, which stores `isSynced` under the property name `synced`.

Guarantees proved:

- No view model ever has two auth calls, two saves or two refresh syncs in
  flight at once (each class's `Valid()`).
- Pushing is per row: a write the server rejects leaves its row pending and
  does not stop the others. (Offline, the loop instead waits at the first
  pending row; that case is under "## Left out".)
- A pull overrides the table with the pulled rows, later children winning.
  It never removes a local-only row, and merging a snapshot twice is merging
  it once.
- On a subtree of the shape the app writes, the result of a pull does not
  depend on the order of the children.
- Two syncs in a row, with no local edit between them, the same writes
  accepted and both pulls succeeding, leave both stores as one sync does
  (`SyncTwiceIsSyncOnce`).

In three places the code does less than an offline-first design that never
loses a pending edit would. The model follows the code:

- **Marking a row synced.** The code re-inserts the row marked synced after
  every accepted write (`app/src/main/java/com/andy/note/domain/repository/NoteRepositoryImpl.kt` lines 49 and 80). It does not first check
  whether the row was edited again while the write was in flight.
- **The first local write.** It stores the row exactly as given, with the
  caller's flag (line 44). It does not force the flag to pending.
- **The pull after a rejected push.** It overwrites a pending row whose push
  was rejected with the older remote copy, marked synced, in the same sync.
  `RejectedEditOverwritten` proves this for every table and snapshot with
  one remote child of that id; `RejectedEditLostOnPull` is a concrete case.

## Model

| member | source | states |
|---|---|---|
| Wrappers.Option.GetOr | app/src/main/java/com/andy/note/ui/auth/LoginViewModel.kt:64 | `x ?: default`: the value when present, the default when null |
| KotlinText.IsWhitespace | app/src/main/java/com/andy/note/ui/auth/LoginViewModel.kt:40-44 | `Char.isWhitespace`, behind `trim()` and `isBlank()`: no printable ASCII character is whitespace, and every whitespace character is a single UTF-16 unit |
| KotlinText.IsBlank | app/src/main/java/com/andy/note/ui/auth/LoginViewModel.kt:44 | `isBlank()`: the string is blank exactly when its whitespace prefix is all of it |
| KotlinText.LeadingWhitespace | app/src/main/java/com/andy/note/ui/auth/LoginViewModel.kt:40 | counts exactly the whitespace prefix: every counted character is whitespace and the next one is not |
| KotlinText.TrailingWhitespace | app/src/main/java/com/andy/note/ui/auth/LoginViewModel.kt:41 | counts exactly the whitespace suffix |
| KotlinText.Trim | app/src/main/java/com/andy/note/ui/auth/LoginViewModel.kt:40-41 | `trim()`: the infix left after removing the whitespace on both sides; everything removed is whitespace, the result neither starts nor ends with whitespace, and it is empty exactly when the input is blank |
| KotlinText.TrimPreservesBlank | app/src/main/java/com/andy/note/ui/auth/LoginViewModel.kt:40-44 | the trimmed string is blank exactly when the input is |
| KotlinText.TrimIdempotent | app/src/main/java/com/andy/note/ui/auth/LoginViewModel.kt:40-41 | trimming twice is trimming once |
| KotlinText.TrimInBmp | app/src/main/java/com/andy/note/ui/auth/RegisterViewModel.kt:49 | trimming keeps a string inside the Basic Multilingual Plane |
| KotlinText.Utf16Length | app/src/main/java/com/andy/note/ui/auth/RegisterViewModel.kt:49 | `String.length` lies between the number of characters and twice that, and equals it for Basic Multilingual Plane text |
| NoteEntities.ToDomain | app/src/main/java/com/andy/note/data/local/NoteEntity.kt:17-25 | copies all five fields unchanged |
| NoteEntities.ToEntity | app/src/main/java/com/andy/note/data/local/NoteEntity.kt:28-37 | copies all five fields: `toEntity(n).toDomain() == n` |
| NoteEntities.EntityRoundTrip | app/src/main/java/com/andy/note/data/local/NoteEntity.kt:17-37 | `toDomain(e).toEntity() == e` for every row |
| NoteEntities.ToEntityInjective | app/src/main/java/com/andy/note/data/local/NoteEntity.kt:28-37 | distinct notes map to distinct rows, and equal rows come from equal notes |
| NoteDaos.NewestKeyExists | app/src/main/java/com/andy/note/data/local/NoteDao.kt:13 | a non-empty set of keys has one whose row has the largest timestamp |
| NoteDaos.NoteDao.constructor | app/src/main/java/com/andy/note/data/local/NoteDao.kt:10-33 | a new table is empty and keyed by id |
| NoteDaos.NoteDao.GetNoteById | app/src/main/java/com/andy/note/data/local/NoteDao.kt:16-17 | null exactly when no row has the key; otherwise the row stored under it |
| NoteDaos.NoteDao.GetUnsyncedNotes | app/src/main/java/com/andy/note/data/local/NoteDao.kt:19-20 | exactly the rows with `isSynced == false`, each once, as stored |
| NoteDaos.NoteDao.GetAllNotes | app/src/main/java/com/andy/note/data/local/NoteDao.kt:13-14 | every row exactly once, as stored, ordered by non-increasing timestamp, as many elements as rows |
| NoteDaos.NoteDao.InsertNote | app/src/main/java/com/andy/note/data/local/NoteDao.kt:22-23 | REPLACE upsert by primary key; every other row unchanged; the table stays keyed by id |
| NoteDaos.NoteDao.DeleteNote | app/src/main/java/com/andy/note/data/local/NoteDao.kt:25-26 | removes the row whose key is the entity's id, whatever its other fields |
| NoteDaos.NoteDao.DeleteNoteById | app/src/main/java/com/andy/note/data/local/NoteDao.kt:28-29 | removes that key, a no-op when absent, every other row unchanged |
| NoteDaos.NoteDao.ClearAllNotes | app/src/main/java/com/andy/note/data/local/NoteDao.kt:31-32 | the table is empty afterwards |
| NoteDaos.AppendNewest | app/src/main/java/com/andy/note/data/local/NoteDao.kt:13-14 | appending the newest unscanned row keeps the listing ordered, duplicate-free and made of stored rows |
| NoteDaos.UpsertReadsBack | app/src/main/java/com/andy/note/data/local/NoteDao.kt:22-23 | after an upsert the key reads back the row and every other key reads as before |
| NoteDaos.ListingSize | app/src/main/java/com/andy/note/data/local/NoteDao.kt:13-14 | a duplicate-free listing holding every row has as many elements as the table |
| NoteDaos.DistinctIdsCount | app/src/main/java/com/andy/note/data/local/NoteDao.kt:13-14 | a list with distinct ids has as many ids as elements |
| RemoteTree.Encode | app/src/main/java/com/andy/note/domain/repository/NoteRepositoryImpl.kt:48 | the node `setValue(note)` writes (also at line 79): every field a scalar, the id as text under `id`, the flag under the bean property name `synced`; reading it back is `EncodeRoundTrip` |
| RemoteTree.Exists | app/src/main/java/com/andy/note/domain/repository/NoteRepositoryImpl.kt:132 | `exists()`: false exactly for the snapshot without children, which yields no notes |
| RemoteTree.EncodeRoundTrip | app/src/main/java/com/andy/note/domain/repository/NoteRepositoryImpl.kt:139-146 | reading back a note written by `setValue` gives it again marked synced; a note with an empty id would be dropped |
| RemoteTree.ReadString | app/src/main/java/com/andy/note/domain/repository/NoteRepositoryImpl.kt:139-141 | `getValue(String) ?: ""`: absent gives "", text gives the text, any other kind throws |
| RemoteTree.ReadLong | app/src/main/java/com/andy/note/domain/repository/NoteRepositoryImpl.kt:142 | `getValue(Long) ?: 0L`: absent gives 0, a number gives it, any other kind throws |
| RemoteTree.MapChild | app/src/main/java/com/andy/note/domain/repository/NoteRepositoryImpl.kt:137-149 | a child gives a note exactly when none of the four reads throws and the id is non-empty; the note holds the read values and is marked synced |
| RemoteTree.MapChildIgnoresSynced | app/src/main/java/com/andy/note/domain/repository/NoteRepositoryImpl.kt:139-145 | the stored `synced` field never affects the mapping |
| RemoteTree.RemoteNotes | app/src/main/java/com/andy/note/domain/repository/NoteRepositoryImpl.kt:134-150 | at most one note per child, each with a non-empty id and marked synced |
| RemoteTree.RemoteNotesFromChildren | app/src/main/java/com/andy/note/domain/repository/NoteRepositoryImpl.kt:134-150 | a note is collected exactly when some child maps to it |
| RemoteTree.NotesRef.constructor | app/src/main/java/com/andy/note/domain/repository/NoteRepositoryImpl.kt:27-30 | the reference wraps the signed-in user's subtree |
| RemoteTree.NotesRef.SetValue | app/src/main/java/com/andy/note/domain/repository/NoteRepositoryImpl.kt:48 | an accepted write replaces the child under the key; a rejected one changes nothing and reports failure |
| RemoteTree.NotesRef.RemoveValue | app/src/main/java/com/andy/note/domain/repository/NoteRepositoryImpl.kt:60 | an accepted remove deletes the child; a rejected one changes nothing |
| RemoteTree.NotesRef.Get | app/src/main/java/com/andy/note/domain/repository/NoteRepositoryImpl.kt:129 | `get().await()` succeeds exactly when accepted, and then lists every child of the subtree once |
| NoteRepositories.PulledRow | app/src/main/java/com/andy/note/domain/repository/NoteRepositoryImpl.kt:154 | the row a pulled note becomes is synced, carries its id, and maps back to the note marked synced |
| NoteRepositories.PulledRows | app/src/main/java/com/andy/note/domain/repository/NoteRepositoryImpl.kt:153-155 | the pulled rows have exactly the pulled notes' ids as keys |
| NoteRepositories.PulledRowsFromNotes | app/src/main/java/com/andy/note/domain/repository/NoteRepositoryImpl.kt:153-155 | each pulled row comes from a pulled note with its id and is synced |
| NoteRepositories.PulledRowsLastWins | app/src/main/java/com/andy/note/domain/repository/NoteRepositoryImpl.kt:153-155 | the last pulled note with an id decides that id's row |
| NoteRepositories.Merged | app/src/main/java/com/andy/note/domain/repository/NoteRepositoryImpl.kt:153-155 | the sequence of upserts equals the old table overridden by the pulled rows |
| NoteRepositories.Pushed | app/src/main/java/com/andy/note/domain/repository/NoteRepositoryImpl.kt:75-84 | keeps every key; a row ends synced exactly when it was synced or its write was accepted; nothing but the flag changes |
| NoteRepositories.PushedNodes | app/src/main/java/com/andy/note/domain/repository/NoteRepositoryImpl.kt:76-81 | one node per pending row whose write was accepted, the encoding of that row's note |
| NoteRepositories.PushedTree | app/src/main/java/com/andy/note/domain/repository/NoteRepositoryImpl.kt:79 | the pushed nodes written over the old subtree; other children unchanged |
| NoteRepositories.MergedSnapshot | app/src/main/java/com/andy/note/domain/repository/NoteRepositoryImpl.kt:132-155 | a snapshot that does not exist leaves the table unchanged |
| NoteRepositories.NoteRepositoryImpl.constructor | app/src/main/java/com/andy/note/domain/repository/NoteRepositoryImpl.kt:21-25 | the repository holds the given table and reference |
| NoteRepositories.NoteRepositoryImpl.GetNotes | app/src/main/java/com/andy/note/domain/repository/NoteRepositoryImpl.kt:32-36 | every row once, as a domain note, newest first |
| NoteRepositories.NoteRepositoryImpl.GetNoteById | app/src/main/java/com/andy/note/domain/repository/NoteRepositoryImpl.kt:38-40 | null exactly when the id is absent; otherwise the stored row as a note with that id |
| NoteRepositories.NoteRepositoryImpl.InsertNote | app/src/main/java/com/andy/note/domain/repository/NoteRepositoryImpl.kt:42-54 | local row set as given; when signed in and accepted the remote child is written and the row re-inserted synced; otherwise the remote is untouched and the caller's flag stays |
| NoteRepositories.NoteRepositoryImpl.DeleteNote | app/src/main/java/com/andy/note/domain/repository/NoteRepositoryImpl.kt:56-65 | the row is removed whatever happens remotely; the remote child is removed only when signed in and accepted |
| NoteRepositories.NoteRepositoryImpl.PushUnsyncedNotes | app/src/main/java/com/andy/note/domain/repository/NoteRepositoryImpl.kt:75-84 | table becomes `Pushed`, subtree becomes `PushedTree`: per-row outcomes, one failure not stopping the rest |
| NoteRepositories.NoteRepositoryImpl.FetchAndMergeRemoteNotes | app/src/main/java/com/andy/note/domain/repository/NoteRepositoryImpl.kt:120-161 | merges the given snapshot, or when signed in and the read succeeds the fetched one listing the subtree; a missing snapshot, no user or a failed read changes nothing |
| NoteRepositories.NoteRepositoryImpl.MergeRemoteNotes | app/src/main/java/com/andy/note/domain/repository/NoteRepositoryImpl.kt:153-155 | the upserts in order leave `Merged(old table, notes)` |
| NoteRepositories.NoteRepositoryImpl.SyncNotes | app/src/main/java/com/andy/note/domain/repository/NoteRepositoryImpl.kt:71-88 | signed out: neither store changes; signed in: push, then the pull's outcome decides whether the pushed table is merged with a listing of the pushed subtree; by `SyncTwiceIsSyncOnce`, a second such sync right after changes neither store |
| NoteRepositories.CollectRemoteNotes | app/src/main/java/com/andy/note/domain/repository/NoteRepositoryImpl.kt:134-150 | the loop collects exactly `RemoteNotes` of the children, in order |
| NoteRepositories.PushStep | app/src/main/java/com/andy/note/domain/repository/NoteRepositoryImpl.kt:76-84 | one push iteration keeps the loop invariant: the processed ids grow by the row's id, and both stores hold their final value for exactly those ids |
| NoteRepositories.PushFinish | app/src/main/java/com/andy/note/domain/repository/NoteRepositoryImpl.kt:75-84 | once every pending row is processed, the table is `Pushed` and the subtree is `PushedTree` |
| NoteRepositories.PushRowStep | app/src/main/java/com/andy/note/domain/repository/NoteRepositoryImpl.kt:76-84 | one push iteration keeps the processed rows at their final value and the rest as before |
| NoteRepositories.PushTreeStep | app/src/main/java/com/andy/note/domain/repository/NoteRepositoryImpl.kt:79 | one push iteration writes exactly the processed row's node when accepted |
| NoteRepositories.PushFinishRows | app/src/main/java/com/andy/note/domain/repository/NoteRepositoryImpl.kt:75-84 | once every pending row is processed the table is `Pushed` |
| NoteRepositories.PushFinishTree | app/src/main/java/com/andy/note/domain/repository/NoteRepositoryImpl.kt:75-84 | once every pending row is processed the subtree is `PushedTree` |
| NoteRepositories.PulledTree | app/src/main/java/com/andy/note/domain/repository/NoteRepositoryImpl.kt:136-155 | the rows of a subtree: one per child that maps to a note |
| NoteRepositories.MergeIdempotent | app/src/main/java/com/andy/note/domain/repository/NoteRepositoryImpl.kt:153-155 | merging the same notes twice gives the table merging them once gives |
| NoteRepositories.MergedSnapshotIdempotent | app/src/main/java/com/andy/note/domain/repository/NoteRepositoryImpl.kt:122-155 | applying the same snapshot twice equals applying it once |
| NoteRepositories.MergeKeepsLocalRows | app/src/main/java/com/andy/note/domain/repository/NoteRepositoryImpl.kt:153-155 | no row is removed; a row no pulled note names is unchanged; every pulled id ends synced |
| NoteRepositories.PulledChildOverwrites | app/src/main/java/com/andy/note/domain/repository/NoteRepositoryImpl.kt:136-155 | a child whose id no other child has ends in the table exactly as mapped, with defaults, synced, overwriting the local row |
| NoteRepositories.PullOfKeyedTree | app/src/main/java/com/andy/note/domain/repository/NoteRepositoryImpl.kt:120-161 | on a subtree keyed by its id fields the merge is the table overridden by `PulledTree`, whatever the children's order |
| NoteRepositories.EmptySnapshotEmptyTree | app/src/main/java/com/andy/note/domain/repository/NoteRepositoryImpl.kt:132 | a snapshot that does not exist lists an empty subtree |
| NoteRepositories.KeyedChildId | app/src/main/java/com/andy/note/domain/repository/NoteRepositoryImpl.kt:139 | in a keyed subtree a mapped child's note carries the child's key |
| NoteRepositories.PulledRowsOfKeyedTree | app/src/main/java/com/andy/note/domain/repository/NoteRepositoryImpl.kt:134-155 | on a keyed subtree the pulled rows are `PulledTree` |
| NoteRepositories.KeyedTreeRowPulled | app/src/main/java/com/andy/note/domain/repository/NoteRepositoryImpl.kt:136-155 | each row of `PulledTree` is pulled unchanged |
| NoteRepositories.PulledRowInKeyedTree | app/src/main/java/com/andy/note/domain/repository/NoteRepositoryImpl.kt:136-155 | every pulled id is a key of the subtree that maps to a note |
| NoteRepositories.WriteKeepsKeyedTree | app/src/main/java/com/andy/note/domain/repository/NoteRepositoryImpl.kt:48 | writing a note under its id keeps the subtree keyed by its id fields |
| NoteRepositories.EncodeIdField | app/src/main/java/com/andy/note/domain/repository/NoteRepositoryImpl.kt:48 | a written node's `id` field reads as the note's id |
| NoteRepositories.PushKeepsKeyedTree | app/src/main/java/com/andy/note/domain/repository/NoteRepositoryImpl.kt:76-84 | the push keeps the subtree keyed by its id fields |
| NoteRepositories.RemoveKeepsKeyedTree | app/src/main/java/com/andy/note/domain/repository/NoteRepositoryImpl.kt:60 | removing a child keeps the subtree keyed by its id fields |
| NoteRepositories.NothingLeftToPush | app/src/main/java/com/andy/note/domain/repository/NoteRepositoryImpl.kt:75-84 | when every pending row's write is rejected the push changes neither store |
| NoteRepositories.SyncLeavesOnlyRejectedPending | app/src/main/java/com/andy/note/domain/repository/NoteRepositoryImpl.kt:71-88 | after a sync whose pull lists the pushed subtree, every row still pending is one whose write was rejected |
| NoteRepositories.SecondPullChangesNothing | app/src/main/java/com/andy/note/domain/repository/NoteRepositoryImpl.kt:122-155 | pulling a subtree keyed by id twice leaves the table the first pull left |
| NoteRepositories.SyncTwiceIsSyncOnce | app/src/main/java/com/andy/note/domain/repository/NoteRepositoryImpl.kt:71-88 | two syncs in a row with the same writes accepted and both pulls listing the subtree: the second push writes nothing and the second pull changes nothing |
| NoteRepositories.FullSyncLeavesNothingPending | app/src/main/java/com/andy/note/domain/repository/NoteRepositoryImpl.kt:71-88 | when every pending write is accepted no row is pending afterwards, whether or not the pull succeeds |
| NoteRepositories.RejectedEditOverwritten | app/src/main/java/com/andy/note/domain/repository/NoteRepositoryImpl.kt:76-155 | for every table and snapshot: a pending row whose write is rejected stays pending through the push, then the pull replaces it by the row of the one remote child with that id, marked synced |
| NoteRepositories.RejectedEditLostOnPull | app/src/main/java/com/andy/note/domain/repository/NoteRepositoryImpl.kt:71-88 | a pending edit whose write is rejected is replaced by the older remote copy in the same sync and reads as synced |
| NoteRepositories.NothingAcceptedNothingPushed | app/src/main/java/com/andy/note/domain/repository/NoteRepositoryImpl.kt:76-84 | with every write rejected the push changes neither store |
| NoteRepositories.OneChildListed | app/src/main/java/com/andy/note/domain/repository/NoteRepositoryImpl.kt:129 | one child under its key is a listing of the one-child subtree |
| NoteRepositories.OneChildPulled | app/src/main/java/com/andy/note/domain/repository/NoteRepositoryImpl.kt:136-146 | a one-child snapshot of a written note pulls that note, synced |
| NoteRepositories.OneNoteMerged | app/src/main/java/com/andy/note/domain/repository/NoteRepositoryImpl.kt:153-155 | pulling one note upserts its synced row |
| Auth.TrimmedCredentials | app/src/main/java/com/andy/note/ui/auth/LoginViewModel.kt:39-47 | nothing exactly when either field is blank; otherwise the two trimmed fields, each non-empty and without surrounding whitespace |
| Auth.TrimmedCredentialsStable | app/src/main/java/com/andy/note/ui/auth/LoginViewModel.kt:40-41 | the credentials sent pass the check again unchanged |
| LoginViewModels.LoginOutcome | app/src/main/java/com/andy/note/ui/auth/LoginViewModel.kt:59-66 | success gives `LoginSuccess`; failure shows its message, or "Login failed" when it has none |
| LoginViewModels.LoginViewModel.constructor | app/src/main/java/com/andy/note/ui/auth/LoginViewModel.kt:20-24 | default state, nothing emitted, no call made |
| LoginViewModels.LoginViewModel.OnEvent | app/src/main/java/com/andy/note/ui/auth/LoginViewModel.kt:26-56 | an edit changes only its field; `Login` while loading changes nothing; blank fields show "Please fill in all fields" without a call and leave loading as it was; otherwise loading starts and login is called once with the trimmed fields |
| LoginViewModels.LoginViewModel.OnLoginResult | app/src/main/java/com/andy/note/ui/auth/LoginViewModel.kt:53-66 | loading ends, nothing else in the state changes, and the folded result is emitted |
| RegisterViewModels.Validate | app/src/main/java/com/andy/note/ui/auth/RegisterViewModel.kt:38-52 | accepted credentials are the trimmed fields and pass the length rule; a rejection carries one of the two messages |
| RegisterViewModels.ValidateChecks | app/src/main/java/com/andy/note/ui/auth/RegisterViewModel.kt:43-52 | "Fields cannot be empty" exactly when a field is blank, whatever the password's length; "Password must be at least 6 characters" exactly when neither is blank and the trimmed password has fewer than six UTF-16 units; accepted otherwise |
| RegisterViewModels.PaddedShortPasswordRejected | app/src/main/java/com/andy/note/ui/auth/RegisterViewModel.kt:39-52 | " 12345 " is too short: the length is taken after trimming |
| RegisterViewModels.BmpPasswordLength | app/src/main/java/com/andy/note/ui/auth/RegisterViewModel.kt:49 | for Basic Multilingual Plane passwords the rule is on the number of characters |
| RegisterViewModels.RegisterOutcome | app/src/main/java/com/andy/note/ui/auth/RegisterViewModel.kt:64-71 | success gives `RegisterSuccess`; failure shows its message, or "Registration failed" |
| RegisterViewModels.RegisterViewModel.constructor | app/src/main/java/com/andy/note/ui/auth/RegisterViewModel.kt:20-24 | default state, nothing emitted, no call made |
| RegisterViewModels.RegisterViewModel.OnEvent | app/src/main/java/com/andy/note/ui/auth/RegisterViewModel.kt:26-58 | an edit changes only its field; `Register` while loading changes nothing; a failing check shows its message without a call; otherwise loading starts and register is called with the trimmed fields |
| RegisterViewModels.RegisterViewModel.OnRegisterResult | app/src/main/java/com/andy/note/ui/auth/RegisterViewModel.kt:58-71 | loading ends, nothing else in the state changes, and the folded result is emitted |
| AddEditNoteViewModels.SaveEvents | app/src/main/java/com/andy/note/ui/notes/AddEditNoteViewModel.kt:81-91 | success emits "Note Saved" then `SaveNote`; failure emits one snackbar starting "Error saving note: " followed by the message; `SaveNote` is emitted exactly on success |
| AddEditNoteViewModels.AddEditNoteViewModel.constructor | app/src/main/java/com/andy/note/ui/notes/AddEditNoteViewModel.kt:34-48 | default state and no current id; a lookup is pending exactly when the argument is present and not the string "null" |
| AddEditNoteViewModels.AddEditNoteViewModel.OnNoteLoaded | app/src/main/java/com/andy/note/ui/notes/AddEditNoteViewModel.kt:37-45 | a found note sets the current id to its id and loads its title and content; a missing one changes nothing |
| AddEditNoteViewModels.AddEditNoteViewModel.OnEvent | app/src/main/java/com/andy/note/ui/notes/AddEditNoteViewModel.kt:50-79 | an edit changes only its field; `SaveNote` while loading changes nothing; otherwise loading starts and one note is saved with the current id or the fresh one, the current fields, the given time and `isSynced` false |
| AddEditNoteViewModels.AddEditNoteViewModel.OnSaveFinished | app/src/main/java/com/andy/note/ui/notes/AddEditNoteViewModel.kt:81-95 | the outcome's events are emitted and loading is false afterwards in both cases |
| NotesViewModels.Syncs | app/src/main/java/com/andy/note/ui/notes/NotesViewModel.kt:52-76 | the number of `syncNotes` calls made, as the multiplicity of `SyncNotesCall` among the calls; `NotesViewModel.Valid` ties it to the completed refreshes plus the one in flight |
| NotesViewModels.SyncsAppend | app/src/main/java/com/andy/note/ui/notes/NotesViewModel.kt:52-76 | one more call adds one sync exactly when it is a sync |
| NotesViewModels.ErrorMessage | app/src/main/java/com/andy/note/ui/notes/NotesViewModel.kt:93 | the error's message, or "An unexpected error occurred" when it has none |
| NotesViewModels.NotesViewModel.constructor | app/src/main/java/com/andy/note/ui/notes/NotesViewModel.kt:31-36 | loading is set before any emission; the notes flow, one sync and the realtime listener start in that order |
| NotesViewModels.NotesViewModel.OnEvent | app/src/main/java/com/andy/note/ui/notes/NotesViewModel.kt:39-65 | `DeleteNote` deletes by the note's id without touching the state; `Refresh` while refreshing changes nothing, otherwise it starts refreshing and one sync |
| NotesViewModels.NotesViewModel.OnRefreshFinished | app/src/main/java/com/andy/note/ui/notes/NotesViewModel.kt:67-76 | refreshing ends whether the sync returned or threw; nothing else changes |
| NotesViewModels.NotesViewModel.OnNotesEmitted | app/src/main/java/com/andy/note/ui/notes/NotesViewModel.kt:84-90 | the list becomes the table, every row once, newest first; loading ends, the error clears, refreshing is kept |
| NotesViewModels.NotesViewModel.OnNotesError | app/src/main/java/com/andy/note/ui/notes/NotesViewModel.kt:91-96 | the error becomes the message or the fallback, loading ends, the notes are kept, collection stops |

## Left out

- The realtime subscription lifecycle (`app/src/main/java/com/andy/note/domain/repository/NoteRepositoryImpl.kt` lines 93-114: listener registration, `callbackFlow`, `trySend`, `awaitClose`) is concurrency plumbing. Only the per-snapshot merge it calls is modelled: `FetchAndMergeRemoteNotes` with a snapshot given.
- Firebase and Room are replaced by maps plus a success-or-failure input. SQL execution, network transport, Firebase's key validation and `DataSnapshot` internals are not modelled.
- The guest subtree (`app/src/main/java/com/andy/note/domain/repository/NoteRepositoryImpl.kt` line 29) is not modelled. Every remote operation is gated on a signed-in user, so nothing is ever written there.
- Only the signed-in user's own subtree is modelled. One user's remote data and another's are never compared.
- Firebase's numeric coercions are not modelled: a double stored in `timestamp` is treated like any other non-number, so reading it throws.
- Each bean property is assumed to be written under its Kotlin name, except `isSynced`, which is stored as `synced`.
- Local store failures are not modelled: every Room call succeeds.
- A remote call made while the device is disconnected. Firebase Realtime Database queues such a `setValue` or `removeValue` and completes its task only when the server acknowledges it, so `await()` (`app/src/main/java/com/andy/note/domain/repository/NoteRepositoryImpl.kt` lines 48, 60 and 79) suspends until the device reconnects, as the comment at line 125 warns. In the model such a call is a step whose continuation is never taken: offline, the editor's save stays loading with no `OnSaveFinished`, and the push loop waits at its first pending row. The `accepted` and `readAccepted` parameters model only a rejection returned by the server.
- KotlinText.IsWhitespace: follows the current Unicode table, as current JDKs use it (Unicode 6.3 and later). Some older Android runtimes also count U+180E MONGOLIAN VOWEL SEPARATOR as whitespace; that variant is not modelled.
- Text is assumed to be well-formed UTF-16. A Dafny `char` is a Unicode scalar value, so a Kotlin string holding an unpaired surrogate cannot be represented; `Utf16Length` counts each astral character as a surrogate pair.
- NoteRepositories.SyncTwiceIsSyncOnce: holds only when both syncs accept the same writes and both pulls succeed. If the second sync accepts a write the first rejected, a row still pending with no remote copy becomes synced and is written; if only the second pull succeeds, it merges rows the first did not.
- Concurrency is not modelled. Each step runs to completion, so an edit that lands while a write is in flight, or two interleaved syncs, are not explored.
- Exceptions thrown while iterating `dataSnapshot.children` itself, outside the per-child `try`, are not modelled.
- AddNoteUseCase.kt is not part of this model. The outcome of the editor's save is therefore an input of `OnSaveFinished`.
- ProfileViewModel.kt, the one-line use cases, DI, navigation and the Compose screens are thin wrappers or rendering, and are left out.
- `UUID.randomUUID()` and `System.currentTimeMillis()` are the `freshId` and `now` parameters of `AddEditNoteViewModel.OnEvent`.
- The event flows are `MutableSharedFlow`s without replay or buffer. `events` records every `emit` call; an event emitted while no screen collects the flow is lost, and the wait until the collector takes it is not modelled.
- `printStackTrace` logging has no behaviour, and is left out.
- NoteRepositories.NoteRepositoryImpl.GetNotes: states one listing of the table. The Room flow's re-emission after every change is modelled only as separate `NotesViewModel.OnNotesEmitted` steps.
- NoteDaos.NoteDao.GetAllNotes: among rows with equal timestamps it promises no order, as SQL promises none. The Room order for ties is not modelled.
- RemoteTree.NotesRef.SetValue, RemoteTree.NotesRef.RemoveValue: a note id is assumed to be a single non-empty path segment without '/', as the app's UUIDs are (`app/src/main/java/com/andy/note/ui/notes/AddEditNoteViewModel.kt` line 66). Firebase's `child(id)` parses the id as a path: `child("")` is the whole `notes` subtree and "a/b" a nested node, so writing or removing such an id would replace or delete more than one child. The "other children unchanged" parts of `NoteRepositoryImpl.InsertNote`, `DeleteNote` and `PushUnsyncedNotes` rest on the same assumption.
- RemoteTree.NotesRef.Get: children are listed in an unspecified order, where Firebase orders them by key. Every proof holds for any order.
- LoginViewModels.LoginViewModel.OnEvent, RegisterViewModels.RegisterViewModel.OnEvent, AddEditNoteViewModels.AddEditNoteViewModel.OnEvent: assume the launched coroutine runs synchronously up to its suspension point, as it does on `Dispatchers.Main.immediate`. An interleaving before that point is not modelled.
