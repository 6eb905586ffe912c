/**
 * The bookmark list component's state, `bookmarks` and `loading`, and the three
 * handlers that change it: the result of the initial fetch, a local delete, and
 * a realtime change event. Backend calls are abstracted into the response they
 * return, which each handler receives as a parameter.
 */
module BookmarkListComponent {
  import opened Wrappers
  import opened Reconciler

  /** What the select query resolves to: `data` (possibly null) and `error` (null on success). */
  datatype FetchResponse = FetchResponse(data: Option<seq<Bookmark>>, error: Option<string>)

  /** What the delete query resolves to: `error` is null on success. */
  datatype DeleteResponse = DeleteResponse(error: Option<string>)

  class BookmarkList {
    /** The owner whose rows the queries and the change subscription are scoped to. */
    const userId: string
    var bookmarks: seq<Bookmark>
    var loading: bool

    /** A freshly mounted list: empty, and waiting for the first fetch. */
    constructor (userId: string)
      ensures this.userId == userId
      ensures bookmarks == [] && loading
    {
      this.userId := userId;
      bookmarks := [];
      loading := true;
    }

    /**
     * Handles the fetch result: an error keeps the list, a success replaces it
     * by the returned rows (none when `data` is null); either way loading ends.
     */
    method FetchBookmarks(response: FetchResponse)
      modifies this
      ensures response.error.Some? ==> bookmarks == old(bookmarks)
      ensures response.error.None? && response.data.Some? ==> bookmarks == response.data.value
      ensures response.error.None? && response.data.None? ==> bookmarks == []
      ensures !loading
    {
      if response.error.Some? {
        // the error is only logged
      } else {
        bookmarks := response.data.GetOr([]);
      }
      loading := false;
    }

    /** Handles one realtime change event by the matching keyed list update. */
    method OnChange(e: Event)
      modifies this
      ensures bookmarks == Apply(old(bookmarks), e)
      ensures loading == old(loading)
    {
      if e.Insert? {
        bookmarks := [e.row] + bookmarks;
      } else if e.Delete? {
        bookmarks := RemoveById(bookmarks, e.id);
      } else if e.Update? {
        bookmarks := ReplaceById(bookmarks, e.row);
      }
    }

    /**
     * Handles the result of deleting `id` from the backend: on failure the list
     * is kept and the user is alerted; on success the same filter as a remote
     * delete event removes every record with that id.
     */
    method HandleDelete(id: string, response: DeleteResponse) returns (alerted: bool)
      modifies this
      ensures alerted <==> response.error.Some?
      ensures response.error.Some? ==> bookmarks == old(bookmarks)
      ensures response.error.None? ==> bookmarks == Apply(old(bookmarks), Delete(id))
      ensures response.error.None? ==> forall x :: x in bookmarks ==> x.id != id
      ensures loading == old(loading)
    {
      if response.error.Some? {
        alerted := true;
      } else {
        alerted := false;
        bookmarks := RemoveById(bookmarks, id);
      }
    }
  }

  /**
   * Mounting the list and receiving a failed first fetch, with no change event
   * handled in between, shows the empty list, no longer loading.
   */
  method MountWithFailedFetch(userId: string, message: string) returns (shown: seq<Bookmark>, loading: bool)
    ensures shown == [] && !loading
  {
    var view := new BookmarkList(userId);
    view.FetchBookmarks(FetchResponse(None, Some(message)));
    shown, loading := view.bookmarks, view.loading;
  }

  /**
   * The first fetch is not awaited before the change subscription opens, so an
   * insert event can be handled before a failed fetch resolves; the failed
   * fetch then keeps the inserted row and the list shown is not empty.
   */
  method InsertBeforeFailedFetch(userId: string, row: Bookmark, message: string) returns (shown: seq<Bookmark>, loading: bool)
    ensures shown == [row] && !loading
  {
    var view := new BookmarkList(userId);
    view.OnChange(Insert(row));
    view.FetchBookmarks(FetchResponse(None, Some(message)));
    shown, loading := view.bookmarks, view.loading;
  }

  /**
   * A delete issued in one session arrives in another as a change event and
   * removes the record there without any action by the user.
   */
  method DeleteSeenInOtherSession(userId: string, rows: seq<Bookmark>, id: string) returns (mine: seq<Bookmark>, theirs: seq<Bookmark>)
    ensures mine == theirs
    ensures forall x :: x in theirs ==> x.id != id
    ensures forall x :: x in rows && x.id != id ==> x in theirs
  {
    var a := new BookmarkList(userId);
    var b := new BookmarkList(userId);
    a.FetchBookmarks(FetchResponse(Some(rows), None));
    b.FetchBookmarks(FetchResponse(Some(rows), None));
    var alerted := a.HandleDelete(id, DeleteResponse(None));
    b.OnChange(Delete(id));
    mine, theirs := a.bookmarks, b.bookmarks;
    forall x | x in rows && x.id != id
      ensures x in theirs
    {
      RemoveByIdCounts(rows, id, x);
    }
  }
}
