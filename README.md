# Bookmark app client logic in Dafny

This project models the two pieces of client logic in the smart-bookmark web
application that contain decisions of their own. Everything else in the
application either renders markup or calls a hosted backend.

- **The bookmark list component** (`components/BookmarkList.js`). It keeps a
  newest-first list of the user's bookmarks. The list is seeded from an
  initial snapshot and reconciled with realtime notifications:
  - an INSERT is ignored when its identifier is already listed, and is
    otherwise put at the front;
  - a DELETE removes every record with that identifier.

  The component also has a single `deletingId` slot. `handleDelete` fills it
  before the storage request and empties it afterwards, whatever the outcome.
  Module `BookmarkList` holds the two updaters as pure functions
  (`InsertUpdate`, `DeleteUpdate`) and the component state as the class
  `ListState`. In the class, `handleDelete` is split into `BeginDelete` and
  `CompleteDelete`, so realtime events can arrive between the two halves as
  separate calls.
- **The bookmark form component** (`components/BookmarkForm.js`). `normalizeUrl`
  puts `https://` in front of a URL unless it already starts with `http://`
  or `https://`. `handleSubmit` clears the error and rejects a blank title or
  URL. Otherwise it marks the form busy and inserts the trimmed title, the
  normalised trimmed URL and the owner. On success it clears the inputs; on
  failure it keeps them and reports an error. Either way it ends not busy.
  Module `BookmarkForm` has the function `Submission`, which says what a
  submission sends. It also has the class `FormState`, whose `HandleSubmit` is
  `BeginSubmit` (everything before the insert is awaited) followed by
  `CompleteSubmit` (everything after it).
  Module `JsString` models `String.prototype.trim`. It uses the exact set of
  ECMAScript WhiteSpace and LineTerminator code points.

Calls to the backend become parameters: `ok` is the outcome of a delete or an
insert. The realtime notifications become calls to `OnInsert` and `OnDelete`,
or a value of type `Event` passed to `Replay`.

Two details of `handleDelete`:
- There is one pending-delete slot, not a set of identifiers (components/BookmarkList.js:8).
- It is cleared after a successful request as well as after a failed one (line 92).

One consequence: if two deletes overlap, the
first one to finish clears the slot while the second is still in flight.
See `BeginDelete` and `CompleteDelete`.

## Model

| member | source | states |
|---|---|---|
| `JsString.TrimStart` | components/BookmarkForm.js:27 | dropping the leading whitespace never lengthens the string, and leaves it empty or starting with a non-whitespace character |
| `JsString.TrimStartSuffix` | components/BookmarkForm.js:27 | the leading trim returns the rest of the input after a prefix that is all whitespace |
| `JsString.TrimEnd` | components/BookmarkForm.js:27 | dropping the trailing whitespace never lengthens the string, and leaves it empty or ending with a non-whitespace character |
| `JsString.TrimEndPrefix` | components/BookmarkForm.js:27 | the trailing trim returns the start of the input before a suffix that is all whitespace |
| `JsString.Trim` | components/BookmarkForm.js:27 | `s.trim()` is empty exactly when every character of `s` is whitespace; otherwise it starts and ends with a non-whitespace character |
| `JsString.TrimIsSlice` | components/BookmarkForm.js:27 | `s.trim()` is a contiguous slice of `s` with only whitespace before and after it |
| `JsString.TrimNoOp` | components/BookmarkForm.js:27 | a string that starts and ends with a non-whitespace character is its own trim |
| `JsString.TrimIdempotent` | components/BookmarkForm.js:27 | trimming twice gives the same string as trimming once |
| `BookmarkList.InsertUpdate` | components/BookmarkList.js:36-44 | after an INSERT the record's identifier is listed; no record is lost; the only record that can be added is the new one; the set of listed identifiers grows by exactly the new identifier |
| `BookmarkList.InsertDuplicateUnchanged` | components/BookmarkList.js:37-41 | an INSERT whose identifier is already listed returns the list unchanged |
| `BookmarkList.InsertFreshPrepends` | components/BookmarkList.js:43 | an INSERT with a new identifier grows the list by one; the head is the new record and the tail is the old list |
| `BookmarkList.InsertIdempotent` | components/BookmarkList.js:36-44 | applying the same INSERT twice gives the same list as applying it once |
| `BookmarkList.InsertPreservesUnique` | components/BookmarkList.js:36-44 | if the listed identifiers are pairwise distinct, they stay so after an INSERT |
| `BookmarkList.DeleteUpdate` | components/BookmarkList.js:57-61 | after a DELETE, a record remains exactly when it was listed and has a different identifier; so no record with that identifier remains; the list never grows |
| `BookmarkList.DeleteKeepsCounts` | components/BookmarkList.js:58 | after a DELETE, every record with a different identifier keeps exactly as many copies as it had, and records with that identifier keep none |
| `BookmarkList.DeleteIsSubsequence` | components/BookmarkList.js:58 | the records left by a DELETE appear in the old list in the same relative order |
| `BookmarkList.DeleteAbsentUnchanged` | components/BookmarkList.js:58 | a DELETE of an identifier that is not listed is a no-op |
| `BookmarkList.DeleteIdempotent` | components/BookmarkList.js:57-61 | delivering the same DELETE twice is the same as delivering it once |
| `BookmarkList.DeletePreservesUnique` | components/BookmarkList.js:58 | if the listed identifiers are pairwise distinct, they stay so after a DELETE |
| `BookmarkList.DeletePresentShrinksByOne` | components/BookmarkList.js:58-59 | on an id-unique list, deleting a listed identifier shrinks the list by exactly one |
| `BookmarkList.ReplayPreservesUnique` | components/BookmarkList.js:34-61 | whatever stream of INSERT and DELETE notifications arrives, an id-unique list stays id-unique |
| `BookmarkList.ReplayInsertsIdSet` | components/BookmarkList.js:36-44 | a stream of INSERTs adds to the listed identifiers exactly the identifiers it carries, in any order and with duplicates |
| `BookmarkList.InsertStreamLength` | components/BookmarkList.js:36-44 | starting from an empty list, a stream of INSERTs leaves as many records as it carries distinct identifiers |
| `BookmarkList.InsertThenDeleteScenario` | components/BookmarkList.js:36-61 | snapshot [1], then INSERT 2, gives [2, 1]; DELETE 1 then gives [2]; a second DELETE 1 leaves [2] |
| `BookmarkList.ListState.constructor` | components/BookmarkList.js:7-8 | the list starts as the initial snapshot and no delete is pending |
| `BookmarkList.ListState.OnInsert` | components/BookmarkList.js:34-45 | the list becomes the INSERT update of the old list; id-uniqueness is kept; the pending slot is untouched |
| `BookmarkList.ListState.OnDelete` | components/BookmarkList.js:55-62 | the list becomes the DELETE update of the old list; id-uniqueness is kept; the pending slot is untouched |
| `BookmarkList.ListState.BeginDelete` | components/BookmarkList.js:75-77 | the pending slot holds the requested identifier before the request; the list is unchanged |
| `BookmarkList.ListState.CompleteDelete` | components/BookmarkList.js:85-92 | after the request, an alert is raised exactly when it failed; the pending slot is empty on success and on failure alike; the list is unchanged, because removal happens only through the DELETE notification |
| `BookmarkForm.NormalizeUrl` | components/BookmarkForm.js:15-20 | the result always starts with `http://` or `https://` and ends with the input; it equals the input exactly when the input already had a scheme; otherwise it is `https://` followed by the input |
| `BookmarkForm.NormalizeUrlIdempotent` | components/BookmarkForm.js:15-20 | normalising twice is the same as normalising once |
| `BookmarkForm.Submission` | components/BookmarkForm.js:27-42 | nothing is sent exactly when the title or the URL is all whitespace; otherwise the row is the trimmed title, the normalised trimmed URL and the owner's id; its title is non-empty and its URL has a scheme |
| `BookmarkForm.BlankInputRejected` | components/BookmarkForm.js:27-30 | for every input, a title or URL that is all whitespace (or empty) sends nothing, whatever the other field holds |
| `BookmarkForm.BlankInputExamples` | components/BookmarkForm.js:27-30 | the pairs ("", "x.com"), ("Title", "") and (" \t", "x.com") each send nothing |
| `BookmarkForm.SchemeAddedOnSubmit` | components/BookmarkForm.js:34-42 | "My Site" with "example.com" is sent as "My Site" with "https://example.com" |
| `BookmarkForm.FormState.constructor` | components/BookmarkForm.js:7-10 | the form starts with empty inputs, not busy, and with no error |
| `BookmarkForm.FormState.SetTitle` | components/BookmarkForm.js:71 | the title input takes the typed value |
| `BookmarkForm.FormState.SetUrl` | components/BookmarkForm.js:86 | the URL input takes the typed value |
| `BookmarkForm.FormState.BeginSubmit` | components/BookmarkForm.js:24-42 | the row returned is `Submission` of the current inputs; on blank input the error is the fill-in message and the busy flag is unchanged; otherwise the error is cleared and the form is busy while the insert is awaited; the inputs are never touched |
| `BookmarkForm.FormState.CompleteSubmit` | components/BookmarkForm.js:44-53 | once the insert answers, success clears both inputs; failure keeps them and sets the save-failed message; the form is not busy afterwards either way |
| `BookmarkForm.FormState.HandleSubmit` | components/BookmarkForm.js:22-54 | the row returned is `Submission` of the inputs. A rejected submission leaves title, URL and busy flag unchanged and shows the fill-in message. An accepted one ends not busy. It then has empty inputs and no error on success, or the same inputs and the save-failed message on failure |

## Left out

- Backend calls are not modelled: the Supabase channel, its filters, `subscribe`/`unsubscribe`, `.insert`, `.delete` and the auth calls. Only their outcomes enter the model, as the `ok` parameters and as the `OnInsert`/`OnDelete` calls.
- `realtimeStatus` is not modelled. It only stores the status string the library reports, and has no transition logic.
- `addLog`, `eventLog` and `console.log`/`console.error` are not modelled. They are logging with locale-dependent timestamps.
- `formatDate` is not modelled, because it is locale date formatting.
- `getHostname` is not modelled, because it relies on the platform URL parser.
- `e.preventDefault()` is not modelled, and neither is any JSX rendering. The rendering includes the `disabled` test against `deletingId`, which only reads the slot.
- Newest-first ordering is not claimed. It holds only because the initial snapshot is fetched sorted, and INSERT never re-sorts. The model proves order preservation for DELETE (a subsequence) and prepending for INSERT, and nothing more.
- Asynchronous interleaving is not modelled below the event level. Each notification, and each half of a delete or a submission, is one atomic step. Overlapping requests are modelled only through the order of those calls.
- Row identifiers are modelled as strings, compared with `==`, standing in for the storage layer's opaque ids.
- The other pages, routes and components contain no logic of their own (session gating, navigation, a log-only debugger). These are `app/page.js`, `app/dashboard/page.js`, `app/auth/callback/route.js`, `app/layout.js`, `components/Header.js` and `components/RealtimeDebugger.js`.
