# x-draft: a verified model of the draft store, the post editor and the screen switcher

x-draft is a browser tool for drafting multi-post threads. A draft (a
`Thread`) has an id, a topic, an ordered list of posts ("tweets": the first is
the hook, the last the call to action) and two timestamps. This project models
in Dafny the three pieces of logic the application has:

- `threads.dfy` (module `Threads`): the draft store of `src/lib/threads.ts`.
  The collection is a `seq<Thread>`; the browser medium is `Stored`, which is
  either missing, unparseable, or a decoded collection. Lookup is
  `find`/`findIndex` by id, saving is an upsert (replace in place, or put a new
  draft at the front), deleting is a filter. Saving and deleting read the
  whole collection and write it back whole; reading never writes.
- `text.dfy` (module `Text`): ECMAScript `String.prototype.trim`, which the
  editor applies to the topic.
- `editor.dfy` (module `ThreadEditor`): the handlers of
  `src/components/ThreadEditor.tsx` lifted out of React's state setters:
  loading a stored draft, building the scaffold, updating, removing, adding
  and dragging posts, the 280-character check and the record built on save.
- `index_page.dfy` (module `IndexPage`): the `View` union of
  `src/pages/Index.tsx` and the transitions its callbacks make.
- `base.dfy` (module `Base`): `Option`, `Result`, `Max`, `Min`.

The clock, the id generator and the drag source are parameters or fields of
the editor state; nothing reads a real clock, random source or storage.

Details of the code's behaviour the model keeps:

- Editing keeps the stored `createdAt` only when it is non-zero and the id is
  still in the store; otherwise the saved draft gets `now` as its creation
  time (`createdAt || now`).
- There is no list of over-limit indices; the code only computes whether some
  post is over 280 and disables the save button.
- Dropping is a no-op only when there is no drag source or the card is dropped
  on itself; no other index check is made.
- From the read-only view, "edit" carries the id of the displayed draft; the
  model lets the event carry any id, as the callback's type does.
- The editor counts as editing only for a non-empty id (`!!threadId`).

## Model

| member | source | states |
|---|---|---|
| Threads.FindIndex | src/lib/threads.ts:26 | -1 exactly when no draft has the id; otherwise a position holding the id with none before it |
| Threads.Find | src/lib/threads.ts:21 | "not found" exactly when no draft has the id; otherwise the first draft with that id |
| Threads.Upsert | src/lib/threads.ts:25-31 | known id: same length, the first entry with the id replaced, all others unchanged; new id: the draft in front of the unchanged collection; afterwards lookup of the id gives the draft, lookups of other ids are unchanged, unique ids stay unique |
| Threads.UpsertIdempotent | src/lib/threads.ts:24-33 | upserting the same draft twice equals upserting it once |
| Threads.Without | src/lib/threads.ts:36 | no draft with the id remains; a draft survives exactly when it was there and has another id; nothing changes when the id is absent |
| Threads.WithoutAppend | src/lib/threads.ts:36 | the filter distributes over concatenation, so survivors keep their relative order |
| Threads.WithoutFindOther | src/lib/threads.ts:36 | deleting one id leaves the lookup of every other id unchanged |
| Threads.WithoutUniqueLength | src/lib/threads.ts:35-37 | with unique ids, deleting a present id shrinks the collection by exactly one |
| Threads.WithoutKeepsUnique | src/lib/threads.ts:36 | deleting keeps ids unique |
| Threads.UpsertThenWithout | src/lib/threads.ts:24-37 | deleting a draft just saved under a new id restores the collection |
| Threads.GetThreads | src/lib/threads.ts:11-18 | a missing or unparseable value reads as the empty collection, never an error; a stored collection reads back as stored |
| Threads.Write | src/lib/threads.ts:32 | what is written is what is read back |
| Threads.GetThread | src/lib/threads.ts:20-22 | "not found" exactly when no stored draft has the id; a found draft has the id and is in the store |
| Threads.SaveThread | src/lib/threads.ts:24-33 | after saving, lookup of the id gives exactly the saved draft; other ids' lookups are unchanged; a new id puts the draft in front; a known id keeps the length; unique ids stay unique |
| Threads.DeleteThread | src/lib/threads.ts:35-38 | afterwards the id is not found; survivors are exactly the drafts with other ids; other ids' lookups unchanged; with unique ids the length drops by one when the id was present |
| Threads.SaveThreadIdempotent | src/lib/threads.ts:24-33 | saving the same draft twice leaves the medium as saving it once |
| Threads.SaveThenDelete | src/lib/threads.ts:24-37 | saving a draft under a new id and deleting it restores the collection |
| Text.Trim | src/components/ThreadEditor.tsx:37 | the result is a slice of the input with only white space cut off either side; empty exactly when the input is all white space; otherwise neither starts nor ends with white space |
| Text.TrimIdempotent | src/components/ThreadEditor.tsx:86 | trimming an already trimmed topic changes nothing |
| ThreadEditor.Load | src/components/ThreadEditor.tsx:25-34 | editing a stored id copies its topic and posts and starts the editor; any other case changes nothing |
| ThreadEditor.StartWriting | src/components/ThreadEditor.tsx:36-48 | refused with no change exactly when the topic is blank; otherwise only the posts and the started flag change, and the posts are max(count, 3) slots: empty hook, empty body slots, default call to action last |
| ThreadEditor.UpdateTweet | src/components/ThreadEditor.tsx:50-52 | equals the sequence update at the index when it is a position; otherwise the list is unchanged |
| ThreadEditor.RemoveTweet | src/components/ThreadEditor.tsx:54-57 | unchanged at three posts or fewer; never goes below three from three or more; otherwise exactly the indexed post is removed and later posts shift left; the multiset loses only that post |
| ThreadEditor.SliceIndex | src/components/ThreadEditor.tsx:61-62 | a negative index counts back from the end and is clamped at 0; one past the end is clamped to the length; an in-range index is kept |
| ThreadEditor.Slice | src/components/ThreadEditor.tsx:62 | on in-range bounds `slice` is the sequence slice |
| ThreadEditor.AddTweet | src/components/ThreadEditor.tsx:59-64 | one more post; an empty slot sits right before the kept last post; everything before it unchanged; an empty list becomes one empty slot |
| ThreadEditor.DropAt | src/components/ThreadEditor.tsx:70 | the splice removing one element: one shorter, later elements shifted left, the multiset loses that element |
| ThreadEditor.InsertAt | src/components/ThreadEditor.tsx:71 | the splice inserting one element: it lands at the index, later elements shift right |
| ThreadEditor.DropInsert | src/components/ThreadEditor.tsx:70-71 | removing the element just inserted at an index gives the list back |
| ThreadEditor.InsertDrop | src/components/ThreadEditor.tsx:70-71 | reinserting the removed element at its index gives the list back |
| ThreadEditor.MoveTweet | src/components/ThreadEditor.tsx:68-73 | same length, a permutation, the moved post at the target, posts outside the span unchanged and those inside shifted one place |
| ThreadEditor.HandleDrop | src/components/ThreadEditor.tsx:66-76 | no-op without a drag source or onto itself; otherwise the dragged post is at the target, the list is a permutation of the old one and the drag source is cleared |
| ThreadEditor.HasOverLimit | src/components/ThreadEditor.tsx:96 | true exactly when some post is longer than 280 |
| ThreadEditor.HandleSave | src/components/ThreadEditor.tsx:78-94 | refused exactly when the topic is blank; otherwise the record holds the trimmed topic and current posts, the edited id or the fresh one, the stored creation time when editing (or now), and now as update time |
| ThreadEditor.PressSave | src/components/ThreadEditor.tsx:198-203 | blocked for over-limit exactly when some post exceeds 280; a saved draft has no post over 280 and a non-blank topic |
| ThreadEditor.RemoveTweetUndo | src/components/ThreadEditor.tsx:54-57 | reinserting the removed post at its index restores the list |
| ThreadEditor.AddTweetIsInsert | src/components/ThreadEditor.tsx:59-64 | adding is insertion of an empty slot at the last position |
| ThreadEditor.AddThenRemove | src/components/ThreadEditor.tsx:54-64 | removing the slot just added restores the list |
| ThreadEditor.MoveTweetBack | src/components/ThreadEditor.tsx:66-73 | moving a post back to where it came from restores the list |
| ThreadEditor.HandleDropBack | src/components/ThreadEditor.tsx:66-76 | two drops exchanging source and target restore the posts |
| ThreadEditor.EditsKeepMinimum | src/components/ThreadEditor.tsx:41-73 | from three or more posts, any sequence of update, remove, add and drop keeps at least three |
| ThreadEditor.LoadThenSave | src/components/ThreadEditor.tsx:25-91 | opening a stored draft with a trimmed topic and set creation time and saving it unchanged yields the same draft with only the update time now |
| IndexPage.Step | src/pages/Index.tsx:13-58 | a transition exists exactly for the callbacks the screen wires; `new` is entered only from the list by "new"; back from an editor of id goes to the view of id, otherwise to the list; saved(id) and open(id) go to view(id); edit(id) goes to edit(id) |
| IndexPage.NewOnlyFromList | src/pages/Index.tsx:15-58 | in every run of callbacks each visit to `new` immediately follows the list |
| IndexPage.BackReachesList | src/pages/Index.tsx:19-43 | back from new or view reaches the list; from edit two backs pass through view of the same id to the list |

## Left out

- Rendering, hooks, toasts, the drag-over highlight, date formatting and the
  topic and count input setters: presentation, not logic.
- The JSON encoding of the collection and `localStorage` itself: a stored
  value is modelled as already decoded; a value that parses to something other
  than an array is not modelled.
- `generateId`: depends on the clock and `Math.random`; the fresh id and `now`
  are parameters of `ThreadEditor.HandleSave`.
- Post lengths count code points (`|s|` over `seq<char>`), not UTF-16 code
  units as JavaScript's `length` does; the default call to action is therefore
  one unit shorter in the model than in the browser.
- ThreadEditor.HandleDrop: requires the drag source and the target to be
  positions of the list; the handler only receives indices of rendered cards,
  and the out-of-range `splice` that would insert `undefined` is not modelled.
- ThreadEditor.EditsKeepMinimum: a drop between indices outside the list is
  taken as a no-op, for the reason above.
- The drag start and drag end callbacks, which only set or clear the drag
  source, are represented by the `dragIdx` field and not modelled as functions.
- `src/components/PasswordProtect.tsx`, `ThreadView.tsx`, `TweetCard.tsx` and
  `ThreadList.tsx`: a UI gate, presentation and thin wrappers around the store.
