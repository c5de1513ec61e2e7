/** The state of the notes page component (frontend/src/pages/NotesPage/NotesPage.jsx)
    and the handlers that change it. Each `useState` value is a field; a
    handler is a method that makes the state updates the component makes.
    Requests to the server are replaced by their outcome, passed in by the
    caller: `None` when the request succeeded, `Some(message)` when it threw. */
module NotesPage {
  import opened Wrappers
  import opened JsString
  import opened Reorder
  import opened PageRules

  /** What the list request returns: the notes of the page, the number of
      pages and the number of notes. */
  datatype Listing = Listing(data: seq<Note>, pages: int, total: int)

  class Component {
    var notesOnPage: seq<Note>
    var errorMessage: string
    var newNoteTitle: string
    var newNoteBody: string
    var editingNoteId: Option<NoteId>
    var editingTitle: string
    var editingBody: string
    var searchQuery: string
    var currentPage: int
    var totalPages: int
    var totalCount: int
    var draggedNoteId: Option<NoteId>

    /** Every way the page number is set keeps it at 1 or above. */
    ghost predicate Valid()
      reads this
    {
      currentPage >= 1
    }

    /** The initial state, once the mount effect has read the URL. */
    constructor (params: Params)
      ensures Valid()
      ensures currentPage == InitialPage(params) && searchQuery == InitialQuery(params)
      ensures notesOnPage == [] && errorMessage == "" && totalPages == 1 && totalCount == 0
      ensures newNoteTitle == "" && newNoteBody == ""
      ensures editingNoteId == None && editingTitle == "" && editingBody == ""
      ensures draggedNoteId == None
    {
      notesOnPage, errorMessage := [], "";
      newNoteTitle, newNoteBody := "", "";
      editingNoteId, editingTitle, editingBody := None, "", "";
      searchQuery, currentPage, totalPages, totalCount := "", 1, 1, 0;
      draggedNoteId := None;
      var pageFromUrl := AcceptedPage(params);
      if pageFromUrl.Some? {
        currentPage := pageFromUrl.value;
      }
      var qFromUrl := AcceptedQuery(params);
      if qFromUrl.Some? {
        searchQuery := qFromUrl.value;
      }
    }

    /** The parameters the URL effect writes for the current state; reading
        them back gives the same page, and the query trimmed. */
    function QueryParams(): (ps: Params)
      reads this
      requires Valid()
      ensures InitialPage(ps) == currentPage
      ensures InitialQuery(ps) == Trim(searchQuery)
    {
      UrlRoundTrip(currentPage, searchQuery);
      WrittenParams(currentPage, searchQuery)
    }

    /** `loadNotes`, given the response of the list request. */
    method LoadNotes(response: Result<Listing, string>)
      modifies this`notesOnPage, this`totalPages, this`totalCount, this`errorMessage
      ensures response.Success? ==>
                && notesOnPage == response.value.data
                && totalPages == response.value.pages
                && totalCount == response.value.total
                && errorMessage == ""
      ensures response.Failure? ==>
                && notesOnPage == old(notesOnPage)
                && totalPages == old(totalPages)
                && totalCount == old(totalCount)
                && errorMessage == response.error
    {
      errorMessage := "";
      match response
      case Success(listing) =>
        notesOnPage := listing.data;
        totalPages := listing.pages;
        totalCount := listing.total;
      case Failure(message) =>
        errorMessage := message;
    }

    /** `handleCreateSubmit`: nothing happens for a blank title; otherwise the
        trimmed fields are sent and, once created, the form is cleared, the
        page goes back to 1 and the list is reloaded. */
    method HandleCreateSubmit(created: Option<string>, reload: Result<Listing, string>)
      returns (sent: Option<Payload>)
      requires Valid()
      modifies this`newNoteTitle, this`newNoteBody, this`currentPage
      modifies this`notesOnPage, this`totalPages, this`totalCount, this`errorMessage
      ensures Valid()
      ensures sent == SubmitPayload(old(newNoteTitle), old(newNoteBody))
      ensures sent.None? || created.Some? ==>
                && newNoteTitle == old(newNoteTitle) && newNoteBody == old(newNoteBody)
                && currentPage == old(currentPage)
                && notesOnPage == old(notesOnPage)
                && totalPages == old(totalPages) && totalCount == old(totalCount)
      ensures sent.None? ==> errorMessage == old(errorMessage)
      ensures sent.Some? && created.Some? ==> errorMessage == created.value
      ensures sent.Some? && created.None? ==>
                && newNoteTitle == "" && newNoteBody == "" && currentPage == 1
                && (reload.Success? ==>
                      notesOnPage == reload.value.data && totalPages == reload.value.pages
                      && totalCount == reload.value.total && errorMessage == "")
                && (reload.Failure? ==>
                      notesOnPage == old(notesOnPage) && totalPages == old(totalPages)
                      && totalCount == old(totalCount) && errorMessage == reload.error)
    {
      sent := SubmitPayload(newNoteTitle, newNoteBody);
      if sent.None? {
        return;
      }
      if created.Some? {
        errorMessage := created.value;
        return;
      }
      newNoteTitle, newNoteBody := "", "";
      currentPage := 1;
      LoadNotes(reload);
    }

    /** `handleDelete`, given the user's answer to the confirmation: the
        note is removed only when confirmed, then the list is reloaded.
        `requested` is the id the remove request was sent for, if any. */
    method HandleDelete(noteId: NoteId, confirmed: bool, removed: Option<string>, reload: Result<Listing, string>)
      returns (requested: Option<NoteId>)
      modifies this`notesOnPage, this`totalPages, this`totalCount, this`errorMessage
      ensures requested == if confirmed then Some(noteId) else None
      ensures !confirmed || removed.Some? ==>
                notesOnPage == old(notesOnPage) && totalPages == old(totalPages) && totalCount == old(totalCount)
      ensures !confirmed ==> errorMessage == old(errorMessage)
      ensures confirmed && removed.Some? ==> errorMessage == removed.value
      ensures confirmed && removed.None? ==>
                && (reload.Success? ==>
                      notesOnPage == reload.value.data && totalPages == reload.value.pages
                      && totalCount == reload.value.total && errorMessage == "")
                && (reload.Failure? ==>
                      notesOnPage == old(notesOnPage) && totalPages == old(totalPages)
                      && totalCount == old(totalCount) && errorMessage == reload.error)
    {
      if !confirmed {
        return None;
      }
      requested := Some(noteId);
      if removed.Some? {
        errorMessage := removed.value;
        return;
      }
      LoadNotes(reload);
    }

    /** `beginEditing`: a missing body edits as the empty string. */
    method BeginEditing(note: Note)
      modifies this`editingNoteId, this`editingTitle, this`editingBody
      ensures editingNoteId == Some(note.id) && editingTitle == note.title
      ensures editingBody == note.body.GetOr("")
    {
      editingNoteId := Some(note.id);
      editingTitle := note.title;
      editingBody := note.body.GetOr("");
    }

    /** `cancelEditing`. */
    method CancelEditing()
      modifies this`editingNoteId, this`editingTitle, this`editingBody
      ensures editingNoteId == None && editingTitle == "" && editingBody == ""
    {
      editingNoteId, editingTitle, editingBody := None, "", "";
    }

    /** `saveEditing`: nothing happens for a blank title; otherwise the
        trimmed fields are sent and, once updated, the list is reloaded and
        editing ends. */
    method SaveEditing(noteId: NoteId, updated: Option<string>, reload: Result<Listing, string>)
      returns (sent: Option<Payload>, requested: Option<NoteId>)
      modifies this`editingNoteId, this`editingTitle, this`editingBody
      modifies this`notesOnPage, this`totalPages, this`totalCount, this`errorMessage
      ensures sent == SubmitPayload(old(editingTitle), old(editingBody))
      ensures requested == if sent.Some? then Some(noteId) else None
      ensures sent.None? || updated.Some? ==>
                && editingNoteId == old(editingNoteId)
                && editingTitle == old(editingTitle) && editingBody == old(editingBody)
                && notesOnPage == old(notesOnPage)
                && totalPages == old(totalPages) && totalCount == old(totalCount)
      ensures sent.None? ==> errorMessage == old(errorMessage)
      ensures sent.Some? && updated.Some? ==> errorMessage == updated.value
      ensures sent.Some? && updated.None? ==>
                && editingNoteId == None && editingTitle == "" && editingBody == ""
                && (reload.Success? ==>
                      notesOnPage == reload.value.data && totalPages == reload.value.pages
                      && totalCount == reload.value.total && errorMessage == "")
                && (reload.Failure? ==>
                      notesOnPage == old(notesOnPage) && totalPages == old(totalPages)
                      && totalCount == old(totalCount) && errorMessage == reload.error)
    {
      sent := SubmitPayload(editingTitle, editingBody);
      if sent.None? {
        return sent, None;
      }
      requested := Some(noteId);
      if updated.Some? {
        errorMessage := updated.value;
        return;
      }
      LoadNotes(reload);
      CancelEditing();
    }

    /** `handleDragStart`. */
    method HandleDragStart(noteId: NoteId)
      modifies this`draggedNoteId
      ensures draggedNoteId == Some(noteId)
    {
      draggedNoteId := Some(noteId);
    }

    /** `handleDrop` up to the optimistic update: the guards, then the two
        splices on a copy of the page list, which replaces the list. */
    method HandleDrop(overNoteId: NoteId)
      modifies this`notesOnPage, this`draggedNoteId
      ensures notesOnPage == Drop(old(notesOnPage), old(draggedNoteId), overNoteId)
      ensures draggedNoteId ==
                if PlanDrop(old(notesOnPage), old(draggedNoteId), overNoteId).Planned?
                then None else old(draggedNoteId)
    {
      if draggedNoteId.None? || draggedNoteId.value == "" || draggedNoteId.value == overNoteId {
        return;
      }
      var workingList := notesOnPage;
      var fromIndex := FindIndex(workingList, draggedNoteId.value);
      var toIndex := FindIndex(workingList, overNoteId);
      if fromIndex == -1 || toIndex == -1 {
        return;
      }
      if workingList[fromIndex].pinned != workingList[toIndex].pinned {
        return;
      }
      var movedNote := workingList[fromIndex];
      workingList := workingList[..fromIndex] + workingList[fromIndex + 1..];
      workingList := workingList[..toIndex] + [movedNote] + workingList[toIndex..];
      notesOnPage := workingList;
      draggedNoteId := None;
    }

    /** The search box: a new query goes back to page 1. */
    method OnSearchChange(value: string)
      modifies this`currentPage, this`searchQuery
      ensures Valid()
      ensures currentPage == 1 && searchQuery == value
    {
      currentPage := 1;
      searchQuery := value;
    }

    /** The Prev button: it does nothing while disabled, and otherwise goes
        one page back. */
    method Prev()
      requires Valid()
      modifies this`currentPage
      ensures Valid()
      ensures currentPage == if PrevEnabled(old(currentPage)) then old(currentPage) - 1 else old(currentPage)
    {
      if !PrevEnabled(currentPage) {
        return;
      }
      currentPage := PrevPage(currentPage);
    }

    /** The Next button: it does nothing while disabled, and otherwise goes
        one page on, never past `totalPages`. */
    method Next()
      requires Valid()
      modifies this`currentPage
      ensures Valid()
      ensures NextEnabled(old(currentPage), totalPages) ==>
                currentPage == old(currentPage) + 1 && currentPage <= totalPages
      ensures !NextEnabled(old(currentPage), totalPages) ==> currentPage == old(currentPage)
    {
      if !NextEnabled(currentPage, totalPages) {
        return;
      }
      currentPage := NextPage(currentPage, totalPages);
    }
  }
}
