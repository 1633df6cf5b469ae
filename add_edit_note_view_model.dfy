/**
 * ui/notes/AddEditNoteViewModel.kt: the editor's state holder. Each
 * coroutine is split at its suspension point: the load launched at
 * construction completes in `OnNoteLoaded`, and a save runs in `OnEvent`
 * up to the call of the add-note use case (recorded in `saveCalls`) and
 * finishes in `OnSaveFinished` with that call's outcome. The fresh UUID and
 * the clock reading a save uses are parameters.
 */
module AddEditNoteViewModels {
  import opened Wrappers
  import opened Notes
  import opened NoteRepositories

  /** ui/notes/AddEditNoteState.kt; `error` is never written by the view model. */
  datatype AddEditNoteState = AddEditNoteState(title: string, content: string, isLoading: bool, error: Option<string>)

  datatype AddEditNoteEvent = EnteredTitle(value: string) | EnteredContent(value: string) | SaveNote

  datatype UiEvent = ShowSnackbar(message: string) | SaveNote

  /** How the add-note call ended: normally, or with an exception whose message may be null. */
  datatype SaveOutcome = Saved | Failed(message: Option<string>)

  const NoteSaved := "Note Saved"
  const ErrorSavingNote := "Error saving note: "

  /**
   * What a finished save emits: on success the confirmation and then the
   * navigation event; on failure one snackbar carrying the exception's
   * message, which string interpolation renders as "null" when absent.
   */
  function SaveEvents(outcome: SaveOutcome): (r: seq<UiEvent>)
    ensures UiEvent.SaveNote in r <==> outcome.Saved?
    ensures outcome.Saved? ==> r == [ShowSnackbar(NoteSaved), UiEvent.SaveNote]
    ensures outcome.Failed? ==> |r| == 1 && r[0].ShowSnackbar?
    ensures outcome.Failed? ==> |ErrorSavingNote| <= |r[0].message| && r[0].message[..|ErrorSavingNote|] == ErrorSavingNote
    ensures outcome.Failed? && outcome.message.Some? ==> r[0].message[|ErrorSavingNote|..] == outcome.message.value
  {
    match outcome
    case Saved => [ShowSnackbar(NoteSaved), UiEvent.SaveNote]
    case Failed(message) => [ShowSnackbar(ErrorSavingNote + message.GetOr("null"))]
  }

  class AddEditNoteViewModel {
    const repository: NoteRepositoryImpl
    var state: AddEditNoteState
    var events: seq<UiEvent>
    var currentNoteId: Option<string>
    /** The id whose lookup the constructor launched and that has not completed yet. */
    var pendingLoad: Option<string>
    /** The notes handed to the add-note use case, in order. */
    var saveCalls: seq<Note>
    /** How many of those calls have finished. */
    ghost var finished: nat

    /** At most one save is in flight, exactly while loading, and every saved note is marked not synced. */
    ghost predicate Valid()
      reads this
    {
      && |saveCalls| == finished + (if state.isLoading then 1 else 0)
      && forall i :: 0 <= i < |saveCalls| ==> !saveCalls[i].isSynced
    }

    /**
     * `init`: the state starts at its defaults; a `noteId` argument other
     * than the string "null" launches its lookup.
     */
    constructor (repository: NoteRepositoryImpl, noteIdArg: Option<string>)
      ensures Valid()
      ensures this.repository == repository
      ensures state == AddEditNoteState("", "", false, None) && events == [] && saveCalls == []
      ensures currentNoteId == None
      ensures pendingLoad == if noteIdArg.Some? && noteIdArg.value != "null" then noteIdArg else None
    {
      this.repository := repository;
      state := AddEditNoteState("", "", false, None);
      events := [];
      currentNoteId := None;
      saveCalls := [];
      finished := 0;
      if noteIdArg.Some? && noteIdArg.value != "null" {
        pendingLoad := noteIdArg;
      } else {
        pendingLoad := None;
      }
    }

    /**
     * The launched lookup completes: a found note becomes the one being
     * edited and its title and content replace the fields; a missing one
     * leaves everything as it was.
     */
    method OnNoteLoaded()
      requires Valid() && repository.Valid() && pendingLoad.Some?
      modifies this
      ensures Valid()
      ensures pendingLoad == None
      ensures events == old(events) && saveCalls == old(saveCalls)
      ensures match repository.GetNoteById(old(pendingLoad.value))
              case Some(note) =>
                currentNoteId == old(pendingLoad) && note.id == old(pendingLoad.value)
                && state == old(state).(title := note.title, content := note.content)
              case None =>
                currentNoteId == old(currentNoteId) && state == old(state)
    {
      var found := repository.GetNoteById(pendingLoad.value);
      pendingLoad := None;
      if found.Some? {
        currentNoteId := Some(found.value.id);
        state := state.(title := found.value.title, content := found.value.content);
      }
    }

    /**
     * `onEvent(event)`: an edit replaces its field alone; `SaveNote` is
     * ignored while loading, and otherwise starts loading and hands the
     * use case a note with the current id, or the fresh one when there is
     * none, the current fields, the time `now` and `isSynced` false.
     */
    method OnEvent(event: AddEditNoteEvent, freshId: string, now: Long)
      requires Valid()
      modifies this
      ensures Valid()
      ensures currentNoteId == old(currentNoteId) && pendingLoad == old(pendingLoad) && events == old(events)
      ensures event.EnteredTitle? ==> state == old(state).(title := event.value) && saveCalls == old(saveCalls)
      ensures event.EnteredContent? ==> state == old(state).(content := event.value) && saveCalls == old(saveCalls)
      ensures event.SaveNote? && old(state).isLoading ==> state == old(state) && saveCalls == old(saveCalls)
      ensures event.SaveNote? && !old(state).isLoading ==>
                && state == old(state).(isLoading := true)
                && saveCalls == old(saveCalls) + [Note(old(currentNoteId).GetOr(freshId), old(state).title,
                                                       old(state).content, now, false)]
    {
      match event
      case EnteredTitle(value) =>
        state := state.(title := value);
      case EnteredContent(value) =>
        state := state.(content := value);
      case SaveNote =>
        if state.isLoading {
          return;
        }
        state := state.(isLoading := true);
        var idToUse := currentNoteId.GetOr(freshId);
        saveCalls := saveCalls + [Note(idToUse, state.title, state.content, now, false)];
    }

    /** The rest of the save: the outcome's events, then, in every case, loading stops. */
    method OnSaveFinished(outcome: SaveOutcome)
      requires Valid() && state.isLoading
      modifies this
      ensures Valid() && !state.isLoading
      ensures state == old(state).(isLoading := false)
      ensures events == old(events) + SaveEvents(outcome)
      ensures currentNoteId == old(currentNoteId) && pendingLoad == old(pendingLoad) && saveCalls == old(saveCalls)
    {
      events := events + SaveEvents(outcome);
      state := state.(isLoading := false);
      finished := finished + 1;
    }
  }
}
