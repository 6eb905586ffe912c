# Bookmark manager: list reconciler and add form

This project models the two pieces of client-side logic in a small bookmark
manager whose storage, sign-in and change notifications are provided by a
hosted backend.

- **The bookmark list** (`components/BookmarkList.tsx`). The component keeps a
  local list of bookmark rows and a `loading` flag. Three handlers change them.
  - The initial fetch result: an error keeps the list. A success replaces the
    list with the returned rows, or with an empty list when `data` is null.
    Either way `loading` becomes false.
  - A realtime change event. `INSERT` prepends the new row. `DELETE` filters
    out every row with the old row's id. `UPDATE` replaces every row with the
    new row's id, in place. Any other event type is ignored.
  - A local delete. A failed delete alerts the user and keeps the list. A
    successful one applies the same filter as a `DELETE` event.

  Module `Reconciler` (`reconciler.dfy`) holds the keyed list transformations
  as pure functions (`RemoveById`, `ReplaceById`, `Apply`, `ApplyAll`) and the
  lemmas about them. Module `BookmarkListComponent` (`bookmark_list.dfy`) holds
  the class `BookmarkList`: its fields `bookmarks` and `loading`, and its handler
  methods, whose postconditions tie the new state to those functions.
- **The add form** (`components/BookmarkForm.tsx`). The form holds `url`,
  `title` and `loading`. Submitting does nothing when either field is empty.
  Otherwise it sends the row (url, title, owner) to the backend. On success it
  clears both fields and calls `onBookmarkAdded` if the parent gave one. On
  failure it keeps the fields and alerts. `loading` is reset in every case.
  Module `BookmarkFormComponent` (`bookmark_form.dfy`) models this as the class
  `BookmarkForm` with a `Submit` method. The method takes the backend's error
  (none on success) as a parameter. It returns the row it sent, whether the
  callback fired and whether the user was alerted.

Backend responses are modelled by their shape. `{ data, error }` becomes
`FetchResponse(data, error)` and `{ error }` becomes `DeleteResponse(error)` or
an `Option<string>`. A null field is `None`, so "error is truthy" is
`error.Some?`. Module `Wrappers` (`wrappers.dfy`) defines `Option`.

In two places the code does something other than one might expect, and the model follows the code:

- **Duplicate ids.** One might expect an insert event for an id already in
  the list to be suppressed. The code prepends without checking
  (`components/BookmarkList.tsx:51`). `Reconciler.InsertKeepsDuplicateId`
  proves that both copies remain.
- **Failed fetch.** A failed fetch might be expected to show an empty list. The
  code keeps whatever list it had (`components/BookmarkList.tsx:25-29`). After
  mounting that list is empty, so when no change event is handled before the
  fetch fails the outcome is the same (`BookmarkListComponent.MountWithFailedFetch`).
  The fetch is not awaited before the change subscription opens
  (`components/BookmarkList.tsx:35-47`), so an insert event can arrive first;
  the failed fetch then keeps that row and the list shown is not empty
  (`BookmarkListComponent.InsertBeforeFailedFetch`).

## Model

| member | source | states |
|---|---|---|
| `Reconciler.RemoveById` | components/BookmarkList.tsx:53-55 | the filtered list is never longer than the input, and every record in it came from the input and has a different id from the deleted one |
| `Reconciler.ReplaceById` | components/BookmarkList.tsx:57-61 | the mapped list has exactly as many records as the input |
| `Reconciler.Apply` | components/BookmarkList.tsx:50-62 | an insert event grows the list by one, a delete event never lengthens it, an update event keeps its length, and an unrecognised event type leaves it unchanged |
| `Reconciler.InsertPrepends` | components/BookmarkList.tsx:51 | after an insert the list is one longer, its head is the new row and its tail is the old list |
| `Reconciler.InsertKeepsDuplicateId` | components/BookmarkList.tsx:51 | inserting a row whose id is already at position i leaves two records with that id, the new one at the head and the old one at i + 1, because there is no de-duplication |
| `Reconciler.RemoveByIdCounts` | components/BookmarkList.tsx:53-55 | after a delete, no record with that id occurs, each other record occurs exactly as many times as before, and a record is present if and only if it was present before and has a different id |
| `Reconciler.RemoveByIdIsSubsequence` | components/BookmarkList.tsx:53-55 | the records that survive a delete keep their original relative order, so the result is a subsequence of the input |
| `Reconciler.RemoveByIdUnchanged` | components/BookmarkList.tsx:53-55 | a delete leaves the list unchanged if and only if no record has that id |
| `Reconciler.RemoveByIdIdempotent` | components/BookmarkList.tsx:86 | deleting the same id twice, for example a local delete followed by its realtime echo, gives the same list as deleting it once |
| `Reconciler.RemoveByIdCommutes` | components/BookmarkList.tsx:53-55 | two delete events give the same list in either delivery order |
| `Reconciler.DeleteAfterInsert` | components/BookmarkList.tsx:50-55 | an insert followed by a delete of the inserted id gives the old list with that id filtered out, so older copies with that id go too |
| `Reconciler.DeleteUndoesInsert` | components/BookmarkList.tsx:50-55 | when no record of the list had the inserted row's id, an insert followed by a delete of that id restores the old list exactly |
| `Reconciler.ReplaceByIdAt` | components/BookmarkList.tsx:57-61 | after an update, each position whose id matches the payload holds the payload, and every other position is unchanged |
| `Reconciler.ReplaceByIdKeepsIds` | components/BookmarkList.tsx:57-61 | an update keeps every position's id, so no record moves |
| `Reconciler.ReplaceByIdUnchanged` | components/BookmarkList.tsx:57-61 | an update leaves the list unchanged if and only if every record with the payload's id already equals the payload |
| `Reconciler.ReplaceByIdIdempotent` | components/BookmarkList.tsx:57-61 | applying the same update twice gives the same list as applying it once |
| `Reconciler.ApplyAll` | components/BookmarkList.tsx:48-63 | the list after the callback has handled a run of events in delivery order holds at most one more record per event than the starting list |
| `Reconciler.ApplyProvenance` | components/BookmarkList.tsx:48-63 | every record after an event was in the list before, or it is the payload of that insert or update event |
| `Reconciler.ApplyAllProvenance` | components/BookmarkList.tsx:48-63 | after any run of events, every record came from the starting list or from the payload of an insert or update event in the run |
| `Reconciler.ApplyAllKeepsUndeleted` | components/BookmarkList.tsx:50-55 | in a run of insert and delete events, a record of the starting list is still in the final list when no delete in the run names its id |
| `Reconciler.ApplyAllKeepsInserted` | components/BookmarkList.tsx:50-55 | in a run of insert and delete events, the row inserted at step k is in the final list when no later delete names its id |
| `Reconciler.NoIdStays` | components/BookmarkList.tsx:50-62 | an id that no record of the list carries is still absent after any run of events that inserts no row with that id, because updates keep ids and deletes only remove |
| `Reconciler.ApplyAllDeletedGone` | components/BookmarkList.tsx:50-62 | once a delete at step k names an id, no record with that id is in the final list unless a later insert brings one with that id back |
| `Reconciler.ApplyAllDeletesIsSubsequence` | components/BookmarkList.tsx:52-55 | a run made only of delete and unrecognised events yields a subsequence of the starting list |
| `BookmarkListComponent.BookmarkList.constructor` | components/BookmarkList.tsx:14-15 | a newly mounted list is empty and loading |
| `BookmarkListComponent.BookmarkList.FetchBookmarks` | components/BookmarkList.tsx:18-31 | a fetch error keeps the list; a success replaces it with `data`, or with the empty list when `data` is null; `loading` is false after either outcome |
| `BookmarkListComponent.BookmarkList.OnChange` | components/BookmarkList.tsx:48-63 | the list becomes `Apply` of the old list and the event; `loading` does not change |
| `BookmarkListComponent.BookmarkList.HandleDelete` | components/BookmarkList.tsx:78-88 | the user is alerted exactly when the delete failed; on failure the list is unchanged; on success it equals the list after a remote delete event for that id, and no record with that id remains |
| `BookmarkListComponent.MountWithFailedFetch` | components/BookmarkList.tsx:14-35 | mounting and then receiving a failed first fetch, with no change event handled in between, shows an empty list that is no longer loading |
| `BookmarkListComponent.InsertBeforeFailedFetch` | components/BookmarkList.tsx:25-51 | an insert event handled after mounting but before a failed first fetch resolves leaves exactly that row shown, no longer loading, because a failed fetch keeps the list |
| `BookmarkListComponent.DeleteSeenInOtherSession` | components/BookmarkList.tsx:50-88 | a successful local delete in one session and the delete event that reaches a second session leave both sessions with the same list; the deleted id is gone and every other fetched record is still there |
| `BookmarkFormComponent.BookmarkForm.constructor` | components/BookmarkForm.tsx:6-9 | a new form has empty `url` and `title` and is not loading |
| `BookmarkFormComponent.BookmarkForm.SetTitle` | components/BookmarkForm.tsx:51 | the title input sets `title` and nothing else |
| `BookmarkFormComponent.BookmarkForm.SetUrl` | components/BookmarkForm.tsx:65 | the URL input sets `url` and nothing else |
| `BookmarkFormComponent.BookmarkForm.Submit` | components/BookmarkForm.tsx:12-37 | with an empty field, nothing is sent and the state is unchanged. Otherwise the row sent is exactly (url, title, owner) and `loading` ends false. On success both fields are cleared, the callback fires exactly when one was given, and there is no alert. On failure both fields keep their values, the callback does not fire, and the user is alerted |
| `BookmarkFormComponent.SubmitTwiceAfterSuccess` | components/BookmarkForm.tsx:12-37 | the first submit sends the typed row exactly when both fields are filled; a second submit after a success sends nothing, because the fields were cleared |
| `BookmarkFormComponent.RetryAfterFailure` | components/BookmarkForm.tsx:12-37 | after a failed insert, submitting again resends the same row; when the retry succeeds the callback fires and both fields are empty |

## Left out

- Backend queries (select, insert, delete, with their `eq` filters and `order`) and reading the signed-in user are library calls over the network. Only the response they return is modelled, as a handler parameter.
- The ordering by descending `created_at` is done by the server's query (`components/BookmarkList.tsx:23`). No local code maintains it, so the model claims no ordering invariant: an insert event prepends whatever it carries.
- Realtime channel setup, the subscription status callback and channel removal on unmount (`components/BookmarkList.tsx:38-47`, `65-75`) are the backend's pub/sub lifecycle and only log. A `BookmarkList` receives events through `OnChange`.
- Interleaving of asynchronous handlers: each handler is modelled as one atomic step on the state it finally writes. React's batching of `setState` calls within one handler is not modelled.
- Rendering (the loading spinner, the empty state, the count and the cards), date formatting, `console` logging and the `alert` dialogs are presentation. An alert is modelled only as the `alerted` result.
- The `disabled={loading}` attribute on the submit button (`components/BookmarkForm.tsx:73`) is rendering. `Submit` does not consult `loading`, and neither does the handler in the source.
- The `onBookmarkAdded` callback is modelled only as present or absent (`hasOnBookmarkAdded`). What it does in the parent page is not part of this model. `Submit` reports a call to it as the result `notified`. A callback that throws is not modelled: the source would then alert after the fields were already cleared (`components/BookmarkForm.tsx:28-33`), while the model's success case never alerts. The dashboard's callback only increments a counter and cannot throw.
- The dashboard page's sign-in redirect and its `refreshKey` remount counter, the landing page and the sign-in error page are routing and static markup. They are not part of this model.
