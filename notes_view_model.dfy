/**
 * ui/notes/NotesViewModel.kt: the list screen's state holder. The three
 * things `init` starts (the collected notes flow, a background sync and the
 * realtime listener) and the use-case calls events make are recorded in
 * `calls`; what the collected flow delivers arrives in `OnNotesEmitted`
 * and `OnNotesError`, and the end of a refresh's sync in
 * `OnRefreshFinished`.
 */
module NotesViewModels {
  import opened Wrappers
  import opened Notes
  import opened NoteEntities
  import opened NoteRepositories

  /** ui/notes/NotesState.kt. */
  datatype NotesState = NotesState(notes: seq<Note>, isLoading: bool, isRefreshing: bool, error: Option<string>)

  /** ui/notes/NotesEvent.kt. */
  datatype NotesEvent = DeleteNote(note: Note) | Refresh

  /** A call the view model makes into a use case. */
  datatype UseCaseCall = GetNotesCall | SyncNotesCall | SyncRealtimeCall | DeleteNoteCall(id: string)

  const UnexpectedError := "An unexpected error occurred"

  /** The number of sync calls among `calls`: how often `SyncNotesCall` occurs in it. */
  function Syncs(calls: seq<UseCaseCall>): (n: nat)
    ensures n == multiset(calls)[SyncNotesCall]
  {
    if calls == [] then 0 else
      assert calls == calls[..|calls| - 1] + [calls[|calls| - 1]];
      Syncs(calls[..|calls| - 1]) + (if calls[|calls| - 1] == SyncNotesCall then 1 else 0)
  }

  /** Appending a call counts one more sync exactly when it is one. */
  lemma SyncsAppend(calls: seq<UseCaseCall>, call: UseCaseCall)
    ensures Syncs(calls + [call]) == Syncs(calls) + (if call == SyncNotesCall then 1 else 0)
  {
    assert (calls + [call])[..|calls|] == calls;
  }

  /** The message a failed notes flow leaves in the state. */
  function ErrorMessage(message: Option<string>): (r: string)
    ensures message.Some? ==> r == message.value
    ensures message.None? ==> r == UnexpectedError
  {
    message.GetOr(UnexpectedError)
  }

  class NotesViewModel {
    const repository: NoteRepositoryImpl
    var state: NotesState
    var calls: seq<UseCaseCall>
    /** Whether the notes flow is still being collected; `catch` ends it. */
    var collecting: bool
    /** How many refreshes have finished. */
    ghost var refreshed: nat

    /**
     * Besides the one sync `init` starts, every sync call belongs to a
     * refresh, and at most one of those is in flight, exactly while the
     * screen shows it refreshing.
     */
    ghost predicate Valid()
      reads this
    {
      Syncs(calls) == 1 + refreshed + (if state.isRefreshing then 1 else 0)
    }

    /**
     * `init`: `getNotes()` marks the list loading and starts collecting,
     * then the background sync and the realtime listener start, in that
     * order.
     */
    constructor (repository: NoteRepositoryImpl)
      ensures Valid()
      ensures this.repository == repository
      ensures state == NotesState([], true, false, None)
      ensures calls == [GetNotesCall, SyncNotesCall, SyncRealtimeCall]
      ensures collecting
    {
      this.repository := repository;
      state := NotesState([], true, false, None);
      var started := [GetNotesCall, SyncNotesCall, SyncRealtimeCall];
      assert started[..2][..1] == [GetNotesCall];
      calls := started;
      collecting := true;
      refreshed := 0;
    }

    /**
     * `onEvent(event)`: `DeleteNote` deletes by the note's id without
     * touching the state; `Refresh` is ignored while refreshing and
     * otherwise marks the screen refreshing and starts a sync.
     */
    method OnEvent(event: NotesEvent)
      requires Valid()
      modifies this
      ensures Valid()
      ensures collecting == old(collecting)
      ensures event.DeleteNote? ==> state == old(state) && calls == old(calls) + [DeleteNoteCall(event.note.id)]
      ensures event.Refresh? && old(state).isRefreshing ==> state == old(state) && calls == old(calls)
      ensures event.Refresh? && !old(state).isRefreshing ==>
                state == old(state).(isRefreshing := true) && calls == old(calls) + [SyncNotesCall]
    {
      match event
      case DeleteNote(note) =>
        SyncsAppend(calls, DeleteNoteCall(note.id));
        calls := calls + [DeleteNoteCall(note.id)];
      case Refresh =>
        if state.isRefreshing {
          return;
        }
        SyncsAppend(calls, SyncNotesCall);
        state := state.(isRefreshing := true);
        calls := calls + [SyncNotesCall];
    }

    /**
     * The refresh's sync has returned or thrown (`syncThrew`); either way,
     * in `finally`, the screen stops refreshing and nothing else changes.
     */
    method OnRefreshFinished(syncThrew: bool)
      requires Valid() && state.isRefreshing
      modifies this
      ensures Valid() && !state.isRefreshing
      ensures state == old(state).(isRefreshing := false)
      ensures calls == old(calls) && collecting == old(collecting)
    {
      state := state.(isRefreshing := false);
      refreshed := refreshed + 1;
    }

    /**
     * The notes flow emits the table as it now stands: the list replaces
     * `notes`, loading ends and any error clears; `isRefreshing` is kept.
     */
    method OnNotesEmitted()
      requires Valid() && repository.Valid() && collecting
      modifies this
      ensures Valid()
      ensures state == old(state).(notes := state.notes, isLoading := false, error := None)
      ensures |state.notes| == |repository.dao.rows|
      ensures forall i :: 0 <= i < |state.notes| ==>
                state.notes[i].id in repository.dao.rows && ToEntity(state.notes[i]) == repository.dao.rows[state.notes[i].id]
      ensures forall i, j :: 0 <= i < j < |state.notes| ==>
                state.notes[i].id != state.notes[j].id && state.notes[i].timestamp >= state.notes[j].timestamp
      ensures calls == old(calls) && collecting
    {
      var notes := repository.GetNotes();
      state := state.(notes := notes, isLoading := false, error := None);
    }

    /**
     * The notes flow fails: the error's message, or the fallback when it
     * has none, is shown, loading ends, `notes` is kept and collection
     * stops.
     */
    method OnNotesError(message: Option<string>)
      requires Valid() && collecting
      modifies this
      ensures Valid() && !collecting
      ensures state == old(state).(error := Some(ErrorMessage(message)), isLoading := false)
      ensures calls == old(calls)
    {
      state := state.(error := Some(ErrorMessage(message)), isLoading := false);
      collecting := false;
    }
  }
}
