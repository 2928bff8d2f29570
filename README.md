# KaMaTi Gang study hub: discussion board and notes, modelled in Dafny

This project models the two parts of the KaMaTi Gang study hub that hold
sequential logic.

- **The API server's discussion and reply store** (`backend/server.py`).
  The document database becomes three in-memory tables: discussions,
  replies and notes. Each is a sequence in insertion order, held by the
  class `DiscussionStore.Store`. The handlers become methods that return a
  status: `Ok` (200) or `NotFound` (404).
  - The invariant `Consistent` is kept by every handler. Ids are unique,
    every reply points at a stored discussion, and every discussion's
    `replies` counter equals the number of stored replies pointing at it.
  - `uuid4()` and the clock become parameters: a fresh id and an abstract
    `Instant`.
  - The datetime helpers `prepare_for_mongo` and `parse_from_mongo` are
    modelled in module `Serialization`. They loop over a record and use an
    injective ISO encoding.
- **The single-page client** (`frontend/src/App.js`).
  - The notes catalogue is pure (module `NotesCatalog`): the flattening
    of the notes data into one list, and the search and filter predicate.
  - The community board's view state is the class `DiscussionView.KaMaTi`.
    Its fields are `discussions`, `newDiscussion`, `newReply`, `replyingTo`,
    `showDeleteConfirm` and `theme`. Its methods are the handlers that
    change those fields.
  - Each call to the store is given as an outcome parameter: success or
    failure of a write, and `Some(list)` or `None` for a list fetch.
  - Every request the client issues is appended to the field `sent`. So
    "no request is issued" and "exactly one DELETE for the stored id" are
    statements about that log.

Module `Basics` holds the shared pieces: `Option`, decimal rendering and
parsing, an insertion sort by an integer key, and the subsequence relation.

Where the design description of the board and the code differ, the model
follows the code:
- Opening a second reply form keeps the reply buffer. It is not cleared
  (`frontend/src/App.js:381`).
- A failed delete leaves the confirmation dialog open. It does not close it
  (`frontend/src/App.js:219-227`).
- The discussion list is loaded on mount only when the `feedbackSubmitted`
  flag is already set. The effect returns early otherwise. The same effect
  runs again after every theme change (`frontend/src/App.js:153-166`).
- Replies can be deleted and upvoted one by one on the server
  (`backend/server.py:247-323`).

## Model

| member | source | states |
|---|---|---|
| `Basics.SortByKey` | backend/server.py:165 | the result is sorted ascending by the key and is a permutation of the input (same multiset, same length) |
| `Basics.DecimalRoundTrip` | frontend/src/App.js:64 | parsing the decimal rendering of `n` gives back `n` |
| `Basics.DecimalInjective` | frontend/src/App.js:64 | distinct numbers have distinct decimal renderings |
| `Serialization.IsoFormat` | backend/server.py:88 | the ISO rendering of an instant is read back by `FromIsoFormat` as that same instant |
| `Serialization.IsoFormatInjective` | backend/server.py:88 | two instants have the same ISO string exactly when they are equal |
| `Serialization.Prepared` | backend/server.py:83-89 | same keys; no datetime value is left; non-datetime entries are untouched; each datetime becomes a string that reads back as that instant |
| `Serialization.PrepareForMongo` | backend/server.py:83-89 | the entry-by-entry overwrite loop ends in exactly the record `Prepared` describes |
| `Serialization.Parsed` | backend/server.py:91-100 | same keys; only strings under keys ending in `_at` can change; a parseable one becomes its instant and an unparseable one is kept |
| `Serialization.ParseFromMongo` | backend/server.py:91-100 | the entry-by-entry overwrite loop ends in exactly the record `Parsed` describes |
| `Serialization.PrepareParseRoundTrip` | backend/server.py:83-100 | parse(prepare(d)) == d exactly when every datetime sits under an `_at` key and no string under an `_at` key already reads as an instant |
| `Serialization.TimeOutsideAtKeyIsLost` | backend/server.py:83-100 | in any record, a datetime under a key without `_at` comes back as its ISO string, so parse(prepare(d)) differs from d |
| `Serialization.InstantLikeTextUnderAtKeyIsConverted` | backend/server.py:91-100 | in any record, a string under an `_at` key that already parses as an instant comes back as that datetime, so parse(prepare(d)) differs from d |
| `DiscussionStore.FindDiscussion` | backend/server.py:185-187 | `find_one` by id: the first matching position, or none exactly when no discussion has that id |
| `DiscussionStore.FindReply` | backend/server.py:252-254 | `find_one` by id: the first matching position, or none exactly when no reply has that id |
| `DiscussionStore.RepliesOf` | backend/server.py:216 | holds exactly the replies whose `discussion_id` is the given one |
| `DiscussionStore.WithoutRepliesOf` | backend/server.py:199 | `delete_many` keeps exactly the replies whose `discussion_id` differs |
| `DiscussionStore.RemoveAt` | backend/server.py:202 | `delete_one` removes one element and shifts the later ones down by one |
| `DiscussionStore.CountAppend` | backend/server.py:233 | inserting a reply raises its discussion's count by one and no other count |
| `DiscussionStore.CountRemoveAt` | backend/server.py:257 | deleting a reply lowers its discussion's count by one and no other count |
| `DiscussionStore.CountAbsent` | backend/server.py:49 | a discussion that no reply points at has count 0 |
| `DiscussionStore.CountWithout` | backend/server.py:199 | after the cascade the deleted discussion's count is 0 and every other count is unchanged |
| `DiscussionStore.CountIsRepliesOfLength` | backend/server.py:216 | the count equals the number of replies `get_replies` returns |
| `DiscussionStore.WithoutAbsentIsIdentity` | backend/server.py:199 | the cascade removes nothing when no reply points at the id |
| `DiscussionStore.WithoutKeepsUniqueIds` | backend/server.py:199 | the cascade keeps reply ids unique |
| `DiscussionStore.AddDiscussionKeepsConsistent` | backend/server.py:170-177 | adding a discussion with a fresh id and `replies == 0` keeps the invariant |
| `DiscussionStore.AddReplyKeepsConsistent` | backend/server.py:226-239 | inserting a reply under a stored discussion and incrementing that discussion's counter keeps the invariant |
| `DiscussionStore.RemoveReplyKeepsConsistent` | backend/server.py:252-263 | removing a reply and decrementing its parent's counter keeps the invariant |
| `DiscussionStore.RemoveDiscussionKeepsConsistent` | backend/server.py:199-205 | cascading to the replies and then removing the discussion keeps the invariant |
| `DiscussionStore.UpvoteDiscussionKeepsConsistent` | backend/server.py:297-300 | raising a discussion's upvotes keeps the invariant |
| `DiscussionStore.UpvoteReplyKeepsConsistent` | backend/server.py:313-316 | raising a reply's upvotes keeps the invariant |
| `DiscussionStore.CascadeOnAbsentIsNoOp` | backend/server.py:199-204 | under the invariant, the cascade before a 404 delete removes no reply |
| `DiscussionStore.Store.constructor` | backend/server.py:16-19 | the empty database satisfies the invariant |
| `DiscussionStore.Store.GetDiscussions` | backend/server.py:161-168 | returns every discussion, each as often as stored, ordered newest first |
| `DiscussionStore.Store.CreateDiscussion` | backend/server.py:170-179 | appends exactly one record: the fresh id, the request's title and content, author defaulting to "Anonymous", both counters 0, the given time; replies and notes unchanged; invariant kept |
| `DiscussionStore.Store.GetDiscussion` | backend/server.py:181-192 | 404 exactly when no discussion has the id; otherwise a stored discussion with that id |
| `DiscussionStore.Store.DeleteDiscussion` | backend/server.py:194-209 | replies of the id are removed in every case; 404 exactly when the discussion is absent, and then both tables are unchanged; otherwise exactly that discussion is removed; invariant kept |
| `DiscussionStore.Store.GetReplies` | backend/server.py:211-219 | exactly the replies of that discussion, oldest first, as many as its counter says |
| `DiscussionStore.Store.CreateReply` | backend/server.py:221-245 | 404 with both tables unchanged exactly when the discussion is absent; otherwise one reply with that `discussion_id` is appended and only that discussion's `replies` goes up by 1; invariant kept |
| `DiscussionStore.Store.DeleteReply` | backend/server.py:247-269 | 404 with no change exactly when the reply is absent; otherwise that reply is removed and only its parent's `replies` goes down by 1; invariant kept |
| `DiscussionStore.Store.UpvoteDiscussion` | backend/server.py:292-307 | 404 with no change exactly when nothing matched; otherwise only that discussion's `upvotes` goes up by 1 |
| `DiscussionStore.Store.UpvoteReply` | backend/server.py:309-323 | 404 with no change exactly when nothing matched; otherwise only that reply's `upvotes` goes up by 1 |
| `DiscussionStore.Store.GetNotes` | backend/server.py:108-121 | exactly the notes that match the supplied filters, newest first |
| `DiscussionStore.NotesMatching` | backend/server.py:112-118 | keeps exactly the notes that match every filter whose parameter is neither None nor empty |
| `DiscussionStore.NoFiltersKeepEveryNote` | backend/server.py:112-118 | with no filter supplied, every note is kept in table order |
| `DiscussionStore.DiscussionDocumentRoundTrip` | backend/server.py:174-188 | a stored discussion reads back exactly as it was written |
| `DiscussionStore.ReplyDocumentRoundTrip` | backend/server.py:231-233 | a stored reply reads back exactly as it was written |
| `NotesCatalog.NoteIdsDistinct` | frontend/src/App.js:64 | within one subject, distinct positions get distinct ids |
| `NotesCatalog.SubjectNotes` | frontend/src/App.js:63-71 | one entry per source note at the same index, with id `${subject}-${j}`, the source's title, semester and url, size defaulting to '2 MB' and `uploaded_at` defaulting to ''; no two entries share an id |
| `NotesCatalog.AllNotesLength` | frontend/src/App.js:62-72 | the flattened list has one entry per source note |
| `NotesCatalog.AllNotesAtFlat` | frontend/src/App.js:62-72 | the j-th note of the g-th subject sits at the g-th subject's offset plus j |
| `NotesCatalog.AllNotesAt` | frontend/src/App.js:62-72 | that entry has id `${subject}-${j}`, the source's title, semester and url, size defaulting to '2 MB' and `uploaded_at` defaulting to '' |
| `NotesCatalog.NoteIdInjective` | frontend/src/App.js:64 | two generated ids are equal exactly when subject and index are equal |
| `NotesCatalog.AllNotesIdsFromSubjects` | frontend/src/App.js:62-72 | every flattened id is `${subject}-${j}` for one of the data's subjects |
| `NotesCatalog.AllNotesIdsDistinct` | frontend/src/App.js:62-72 | with distinct subject keys, no two entries of the flattened list share an id |
| `NotesCatalog.ToLowerCase` | frontend/src/App.js:246-247 | same length; no ASCII capital is left; every other character is kept in place; each capital becomes the letter 32 code points on |
| `NotesCatalog.ToLowerCaseIdempotent` | frontend/src/App.js:246-247 | lowercasing twice is the same as lowercasing once |
| `NotesCatalog.FilteredNotes` | frontend/src/App.js:245-251 | keeps a note exactly when the lowercased title or subject contains the lowercased query, the semester filter is 'all' or equal, and the subject filter is 'all' or equal |
| `NotesCatalog.FilteredIsSubsequence` | frontend/src/App.js:245-251 | the filtered list is an order-preserving subsequence of the notes |
| `NotesCatalog.UnfilteredShowsAll` | frontend/src/App.js:245-251 | an empty query with both filters at 'all' returns the notes unchanged |
| `DiscussionView.TrimEmptyIffBlank` | frontend/src/App.js:192 | `!s.trim()` holds exactly when every character of `s` is JavaScript white space |
| `DiscussionView.ToggleTwice` | frontend/src/App.js:229-231 | the toggle always yields 'light' or 'dark'; toggling twice restores the theme exactly when it was one of the two |
| `DiscussionView.AtMostOneReplyForm` | frontend/src/App.js:381-403 | with distinct ids at most one reply form is shown; it is exactly the one under the discussion whose id `replyingTo` holds; none is shown when `replyingTo` is null or names no listed discussion |
| `DiscussionView.KaMaTi.constructor` | frontend/src/App.js:81-92 | empty list and buffers, no open form or dialog, theme 'dark', nothing sent |
| `DiscussionView.KaMaTi.LoadDiscussions` | frontend/src/App.js:168-175 | one list request; the list is replaced wholesale by the response on success and unchanged on failure; nothing else changes |
| `DiscussionView.KaMaTi.ThemeEffect` | frontend/src/App.js:153-166 | without the feedback flag nothing is requested or changed; with it, the list is loaded |
| `DiscussionView.KaMaTi.ToggleTheme` | frontend/src/App.js:229-231 | only the theme changes, to its toggle |
| `DiscussionView.KaMaTi.EditTitle` | frontend/src/App.js:449 | only the draft's title changes |
| `DiscussionView.KaMaTi.EditContent` | frontend/src/App.js:455 | only the draft's content changes |
| `DiscussionView.KaMaTi.CreateDiscussion` | frontend/src/App.js:191-201 | blank title or content: no request and no change; success: the untrimmed draft is posted, the draft is cleared and the list reloaded; failure: only the post request is logged |
| `DiscussionView.KaMaTi.EditReply` | frontend/src/App.js:408 | only the reply buffer changes |
| `DiscussionView.KaMaTi.ClickReply` | frontend/src/App.js:381 | `replyingTo` becomes null if it was the clicked id and that id otherwise; the buffer is kept |
| `DiscussionView.KaMaTi.CancelReply` | frontend/src/App.js:424-427 | `replyingTo` becomes null and the buffer empty; nothing else changes |
| `DiscussionView.KaMaTi.CreateReply` | frontend/src/App.js:203-217 | blank buffer: no request and no change; success: the untrimmed buffer is posted as 'Anonymous', the buffer is cleared, the form closed and the list reloaded; failure: buffer and form unchanged |
| `DiscussionView.KaMaTi.ClickDelete` | frontend/src/App.js:390 | opens the dialog for that id and sends nothing |
| `DiscussionView.KaMaTi.CancelDelete` | frontend/src/App.js:620-637 | closes the dialog and sends nothing |
| `DiscussionView.KaMaTi.DeleteDiscussion` | frontend/src/App.js:219-227 | one DELETE for the id; success: the list is reloaded and the dialog closed; failure: nothing else changes, so the dialog stays open |
| `DiscussionView.KaMaTi.ConfirmDelete` | frontend/src/App.js:627-629 | one DELETE for the id the dialog was opened for; success: exactly that DELETE and one list request are sent, the list is replaced by the response and the dialog closed, nothing else changes; failure: only the DELETE is logged and the dialog stays open |

## Left out

- HTTP transport and the database driver are not modelled: axios, FastAPI routing, CORS, logging and configuration. Store calls are outcome parameters on the client side, and table operations on the server side.
- The 500 responses are not modelled. They are raised when the driver throws, and the driver is not modelled.
- Request validation by the request models is not modelled: 422 on a missing or mistyped field. Requests arrive already parsed. An author that is left out and one that is sent as null are told apart.
- `DiscussionStore.Store.CreateDiscussion`: requires the fresh id to be unused. `CreateReply` requires the same of its reply id. This stands for the uniqueness of `uuid4()`; collisions are not modelled.
- Concurrency is not modelled. Each handler and each client operation is atomic. In the real server, `create_reply` checks the parent and then inserts, and `delete_discussion` could run in between. That interleaving can leave an orphan reply or a drifted counter; the atomic model excludes it. On the client, which of several in-flight list reloads lands last is not modelled.
- Ties in the `created_at`/`uploaded_at` sorts are not pinned down. The database does not fix an order among equal timestamps. The model sorts by insertion, and its contracts promise only the ordering and the permutation.
- Instants are abstract tick counts. The ISO 8601 calendar format and time zones are not modelled. `isoformat` is an injective rendering that `fromisoformat` inverts.
- `Serialization.PrepareForMongo` and `Serialization.ParseFromMongo` work on record values, not on a shared dictionary. Every caller passes a fresh `.dict()` or a freshly read document, so the in-place update is not observable. Only top-level entries are converted, as in the source.
- `NotesCatalog.ToLowerCase`: lowercases only the ASCII letters. JavaScript's full Unicode case mapping is not modelled.
- The notes CRUD handlers, feedback, search and root endpoints are not modelled: `create_note`, `get_note`, `delete_note`, `submit_feedback`, `get_feedback`, the `$regex` searches and `/`. Only `get_notes` filtering is modelled. The searches depend on a regular-expression engine fed a user pattern.
- The client's feedback popup, `submitFeedback`, `localStorage` and `window.open` are not modelled. The `feedbackSubmitted` flag is a parameter of `ThemeEffect`.
- The 5-minute feedback timer, the splash screen and its typewriter animation are timing-driven display and are not modelled.
- Rendering is not modelled: JSX layout, routing, icons, `activeSection` and the notes modal. The dialogs' visibility is modelled only as the predicates `ReplyFormShown` and `DeleteDialogOpen`.
- The `notes`, `searchQuery` and `filters` state fields are not modelled as fields. `notes` only ever holds the flattened catalogue, and the other two are plain inputs of `FilteredNotes`. The notes data module itself is not part of this model; it is a parameter of `AllNotes`.
- The unused sample notes and the stray footer block are not modelled, because they have no effect.
