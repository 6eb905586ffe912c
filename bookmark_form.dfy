/**
 * The add-bookmark form: its `url`, `title` and `loading` state and the submit
 * handler. The backend insert is abstracted into the error it reports (none on
 * success), which the handler receives as a parameter.
 */
module BookmarkFormComponent {
  import opened Wrappers

  /** The row the submit handler asks the backend to insert. */
  datatype NewRow = NewRow(url: string, title: string, userId: string)

  class BookmarkForm {
    /** The signed-in owner every new row is attributed to. */
    const userId: string
    /** Whether the parent passed an `onBookmarkAdded` callback. */
    const hasOnBookmarkAdded: bool
    var url: string
    var title: string
    var loading: bool

    /** A fresh form: both fields empty, not submitting. */
    constructor (userId: string, hasOnBookmarkAdded: bool)
      ensures this.userId == userId && this.hasOnBookmarkAdded == hasOnBookmarkAdded
      ensures url == "" && title == "" && !loading
    {
      this.userId := userId;
      this.hasOnBookmarkAdded := hasOnBookmarkAdded;
      url, title, loading := "", "", false;
    }

    /** The title input's change handler. */
    method SetTitle(value: string)
      modifies this
      ensures title == value && url == old(url) && loading == old(loading)
    {
      title := value;
    }

    /** The URL input's change handler. */
    method SetUrl(value: string)
      modifies this
      ensures url == value && title == old(title) && loading == old(loading)
    {
      url := value;
    }

    /**
     * Submits the form. With either field empty nothing happens. Otherwise the
     * row (url, title, owner) is sent; `insertError` is what the backend
     * reports. On success both fields are cleared and the callback, if any, is
     * notified; on failure the fields are kept and the user is alerted. Loading
     * is over once the handler returns.
     */
    method Submit(insertError: Option<string>) returns (inserted: Option<NewRow>, notified: bool, alerted: bool)
      modifies this
      ensures old(url) == "" || old(title) == "" ==>
        && inserted == None && !notified && !alerted
        && url == old(url) && title == old(title) && loading == old(loading)
      ensures old(url) != "" && old(title) != "" ==>
        && inserted == Some(NewRow(old(url), old(title), userId))
        && !loading
      ensures old(url) != "" && old(title) != "" && insertError.None? ==>
        && url == "" && title == ""
        && notified == hasOnBookmarkAdded && !alerted
      ensures old(url) != "" && old(title) != "" && insertError.Some? ==>
        && url == old(url) && title == old(title)
        && !notified && alerted
    {
      inserted, notified, alerted := None, false, false;
      if url == "" || title == "" {
        return;
      }
      loading := true;
      inserted := Some(NewRow(url, title, userId));
      if insertError.None? {
        url := "";
        title := "";
        if hasOnBookmarkAdded {
          notified := true;
        }
      } else {
        alerted := true;
      }
      loading := false;
    }
  }

  /**
   * Filling in the form and submitting it twice with a successful first insert:
   * the first submit sends the typed row exactly when both fields are filled,
   * and the second sends nothing, because the success cleared the fields.
   */
  method SubmitTwiceAfterSuccess(userId: string, url: string, title: string, secondError: Option<string>)
    returns (first: Option<NewRow>, second: Option<NewRow>)
    ensures first.Some? <==> url != "" && title != ""
    ensures first.Some? ==> first.value == NewRow(url, title, userId)
    ensures second == None
  {
    var form := new BookmarkForm(userId, true);
    form.SetTitle(title);
    form.SetUrl(url);
    var notified, alerted;
    first, notified, alerted := form.Submit(None);
    second, notified, alerted := form.Submit(secondError);
  }

  /**
   * A failed insert keeps what the user typed, so submitting again resends the
   * same row; when that retry succeeds the callback fires and the form is empty.
   */
  method RetryAfterFailure(userId: string, url: string, title: string, message: string)
    returns (first: Option<NewRow>, retry: Option<NewRow>, alertedFirst: bool, notifiedRetry: bool, cleared: bool)
    requires url != "" && title != ""
    ensures first == retry == Some(NewRow(url, title, userId))
    ensures alertedFirst && notifiedRetry && cleared
  {
    var form := new BookmarkForm(userId, true);
    form.SetUrl(url);
    form.SetTitle(title);
    var notified, alerted;
    first, notified, alertedFirst := form.Submit(Some(message));
    retry, notifiedRetry, alerted := form.Submit(None);
    cleared := form.url == "" && form.title == "";
  }
}
