# Live notebooks: the Index page's state machine

The repository is a single React page (`src/pages/Index.jsx`) holding an
in-memory list of notebooks — records `{id, name, content, isPrivate, pin}` —
with buttons to add, open and delete them, a text area bound to an edit
buffer, a "Save Now" button and a debounced autosave. This project models the
page's state and transitions, with the markup stripped away, and proves what
each transition does to that state.

- `store.dfy`, module `NotebookStore`: the notebook record and the three list
  rewrites the handlers perform — appending a fresh record (`Appended`),
  removing every record with an id (`WithoutId`, the `filter`) and committing
  a text into every record with an id (`WithContent`, the `map`) — with
  lemmas on order, membership, multiplicity, idempotence and ids.
- `page.dfy`, module `IndexPage`: class `Index` with the component's state
  fields (`notebooks`, `selectedNotebook`, `noteText`, `autoSaveStatus`) and
  the pending autosave `timer`. Each method is one gesture or timer event
  followed by the effects React runs after it. `Valid()` is the invariant the
  methods keep: with no selection the buffer is empty, the selection names a
  stored id, and a pending timeout saw the current selection and buffer.
- `scenarios.dfy`, module `PageScenarios`: fixed sequences of events on a
  fresh page, with what is stored at the end.

How the page is read:

- The selection is the stored record object itself (lines 35-36 and 79).
  A save replaces matching records with new objects (line 52) and never
  changes the old ones, so the selection keeps the content it had when it
  was selected. The model holds that record by value in `selectedNotebook`.
  The autosave guard compares the buffer with the selection's content, not
  with the stored content.
- The autosave effect depends on the buffer and the selection. Any change to
  either clears the pending timeout and arms a new one. The first render also
  arms one. The timer is an `Option`, so at most one timeout is ever pending.
  A timeout that elapses, as the page is written, is the `FireAsWritten` event;
  `Fire` is the corrected event (see Findings). The 500 ms delay is not modelled.
- Ids are the clock reading taken by the page. They are passed in as
  parameters and are not assumed unique; removal and commit act on every
  record carrying the id.

Consequences of the code worth knowing:

- Ids are `Date.now()` readings and can repeat, so delete removes every
  record with that id (`RemovalDropsEveryDuplicate`), or none if the id is
  absent (`WithoutAbsentId`).
- A save with no selection dereferences null at line 51 as soon as the list
  holds a record; on an empty list the `map` makes no call and the save ends
  normally. "Save Now" exists only while something is selected (lines 88, 96),
  so `SaveNotebook` requires a selection.
- Deleting the selected notebook re-arms the timeout rather than cancelling
  it, because the selection changed. The new timeout finds no selection and
  saves nothing (`DeleteBeforeQuietPeriod`).

## Model

| member | source | states |
|---|---|---|
| NotebookStore.AppendedShape | src/pages/Index.jsx:27-35 | adding yields one more record; every earlier record is unchanged at its index; the last has the given id, name "New Notebook", empty content, not private, empty pin |
| NotebookStore.WithoutId | src/pages/Index.jsx:40 | no longer than the input; a record is in the result exactly when it is in the input and its id differs |
| NotebookStore.WithoutIdCounts | src/pages/Index.jsx:40 | every record whose id differs occurs in the result exactly as often as in the input, and no record with the id occurs |
| NotebookStore.WithoutIdConcat | src/pages/Index.jsx:40 | removal distributes over concatenation, so kept records keep their relative order |
| NotebookStore.WithoutIdAround | src/pages/Index.jsx:40 | a record between two parts is kept or dropped by its id alone; what precedes and follows keep their order around it |
| NotebookStore.WithoutAbsentId | src/pages/Index.jsx:40 | deleting an id no record carries leaves the list unchanged |
| NotebookStore.WithoutIdIds | src/pages/Index.jsx:40 | after removal no record carries the removed id; any other id is present exactly when it was before |
| NotebookStore.WithoutIdIdempotent | src/pages/Index.jsx:40 | deleting the same id twice equals deleting it once |
| NotebookStore.WithContent | src/pages/Index.jsx:50-55 | same length; each record with the id gets the new content with its other fields unchanged; every other record is unchanged |
| NotebookStore.WithContentKeepsShape | src/pages/Index.jsx:50-55 | committing keeps every id, name, isPrivate and pin at its index, and the set of ids present |
| NotebookStore.WithContentIdempotent | src/pages/Index.jsx:50-56 | committing the same text twice gives the same list as committing once |
| NotebookStore.WithContentAbsentId | src/pages/Index.jsx:50-55 | committing to an id no record carries changes nothing |
| NotebookStore.CommitAfterRemoval | src/pages/Index.jsx:39-55 | a commit into the list after a removal never contains the removed id |
| NotebookStore.RemovalDropsEveryDuplicate | src/pages/Index.jsx:29-40 | for every list, adding two notebooks with the same clock reading and then deleting that id leaves exactly what deleting it from the original list leaves: both new records go |
| IndexPage.Index.constructor | src/pages/Index.jsx:5-25 | first render: no notebooks, no selection, empty buffer, status saved, one timeout armed with that state |
| IndexPage.Index.AddNotebook | src/pages/Index.jsx:27-37 | the list is the old list with a new record appended; the selection is that record, the buffer its empty content; the timeout is re-armed; the invariant is kept |
| IndexPage.Index.DeleteNotebook | src/pages/Index.jsx:39-45 | the list loses every record with the id; if the selection had that id, the selection is cleared, the buffer emptied and the timeout re-armed; otherwise selection, buffer and timeout are unchanged |
| IndexPage.Index.SaveInto | src/pages/Index.jsx:47-60 | the save's steps on the list the running save sees: every record of that list with the selected id gets the buffer as content, the rest unchanged; selected record, buffer and pending timeout untouched; status ends saved |
| IndexPage.Index.SaveNotebook | src/pages/Index.jsx:47-60 | every record with the selected id gets the buffer as content, nothing else in the list changes; the selected record, buffer and pending timeout are untouched; the status ends saved |
| IndexPage.Index.HandleNoteChange | src/pages/Index.jsx:62-64 | only the buffer changes; a changed buffer replaces the pending timeout with a new one, an identical one leaves it |
| IndexPage.Index.Open | src/pages/Index.jsx:79 | selects the listed record and resets the buffer to its content, discarding any draft; the list is unchanged; the timeout is re-armed |
| IndexPage.Index.Fire | src/pages/Index.jsx:17-25 | the timeout is consumed; when a selection exists and the buffer differs from the selected record's content, the buffer is committed into the current list and the status is saved, otherwise nothing changes |
| IndexPage.Index.FireAsWritten | src/pages/Index.jsx:17-25 | as Fire, but the commit maps over the list seen by the render that armed the timeout |
| PageScenarios.QuietPeriodCommits | src/pages/Index.jsx:17-25 | create, type "hello", timeout elapses: the notebook holds "hello" and the status is saved |
| PageScenarios.BurstSavesOnce | src/pages/Index.jsx:17-25 | three edits in a burst leave one timeout; it commits the last text and nothing stays pending |
| PageScenarios.DeleteBeforeQuietPeriod | src/pages/Index.jsx:39-45 | deleting the selected notebook before the timeout elapses leaves an empty store, an empty buffer and no save |
| PageScenarios.SwitchDiscardsDraft | src/pages/Index.jsx:11-15 | opening another notebook before the timeout elapses discards the draft; the first notebook stays empty |
| PageScenarios.RepeatedSavesAgree | src/pages/Index.jsx:47-60 | two manual saves and the later timeout (whose selected record still holds the old content) all yield the same list |
| PageScenarios.StaleListRestoresDeleted | src/pages/Index.jsx:17-25 | as written, deleting a non-selected notebook while a save is pending, then the timeout, stores the deleted notebook again |
| PageScenarios.CurrentListKeepsDeleted | src/pages/Index.jsx:17-25 | with the save writing into the current list, the same events keep the deleted notebook deleted |

## Findings

| source | as written | input that shows it | evidently intended | confidence | as-written member | corrected member |
|---|---|---|---|---|---|---|
| src/pages/Index.jsx:17-25 | The timeout's closure calls the `saveNotebook` of the render that armed it, and that function maps over that render's `notebooks`. Deleting a notebook other than the selected one changes neither effect dependency, so the timeout is not re-armed. | add notebook id 1, add notebook id 2, type "x", delete id 1 within 500 ms | a deleted notebook stays deleted; the autosave commits into the current list | medium; not executed | IndexPage.Index.FireAsWritten, PageScenarios.StaleListRestoresDeleted | IndexPage.Index.Fire, PageScenarios.CurrentListKeepsDeleted, NotebookStore.CommitAfterRemoval |

## Left out

- Rendering, styling, icons and the 100-character content preview (lines 66-103): presentation only.
- `lastSaveTime`: the save duration comes from `performance.now()` and floating-point formatting (lines 49, 57-58). It is not modelled.
- The clock: `Date.now()` (line 29) is the `id` parameter of `AddNotebook`. Nothing claims ids are unique.
- Real timers: the 500 ms delay, `setTimeout`/`clearTimeout` handles and React's effect scheduling become the `timer` field and the `FireAsWritten` event (`Fire` in its corrected form). Setter batching is modelled by running each handler and its effects as one method.
- Open: when the record clicked is the very object already selected (no save has replaced it since), React skips the state update. The effects then do not run, so the draft is kept and the timeout is left pending. The model compares records by value and always re-seeds and re-arms.
- The status reporter's label and spinner (lines 92-95): presentation. `SaveNotebook` passes through `Saving` and ends `Saved`.
- HandleNoteChange: requires a selection, because the text area exists only while one is selected (lines 88-90).
- SaveNotebook: requires a selection. Without one, line 51 dereferences null as soon as the list holds a record, and the page offers "Save Now" only with a selection (lines 88, 96).
- `isPrivate` and `pin` are carried as data with no meaning, as in the page.
