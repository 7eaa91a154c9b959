/** The state of the Index page component and its transitions. Each method is
    one user gesture or timer event together with the effects React runs after
    it: the selection-seeding effect copies the selected record's content into
    the edit buffer, and the autosave effect cancels its timeout and arms a new
    one whenever the edit buffer or the selection changes. */
module IndexPage {
  import opened NotebookStore

  datatype SaveStatus = Saving | Saved

  /** The render state seen by the closure of an armed autosave timeout: the
      notebooks list, the selected record and the edit buffer of the render
      whose effect armed it. */
  datatype Capture = Capture(notebooks: seq<Notebook>, selected: Option<Notebook>, noteText: string)

  class Index {
    /** The stored notebooks, in insertion order. */
    var notebooks: seq<Notebook>
    /** The record object that was selected. A save replaces stored records
        with new objects and leaves this one as it was, so it keeps the
        content it had when selected. */
    var selectedNotebook: Option<Notebook>
    /** The edit buffer bound to the text area. */
    var noteText: string
    var autoSaveStatus: SaveStatus
    /** The pending autosave timeout, if any. Being an option, there is never
        more than one. */
    var timer: Option<Capture>

    /** Between events: with nothing selected the buffer is empty; the
        selection names a stored id; and a pending timeout saw the current
        selection and buffer (any change to either re-arms it), so only the
        list it captured may be out of date. */
    ghost predicate Valid()
      reads this
    {
      (selectedNotebook.None? ==> noteText == "") &&
      (selectedNotebook.Some? ==> HasId(notebooks, selectedNotebook.value.id)) &&
      (timer.Some? ==>
        timer.value.selected == selectedNotebook && timer.value.noteText == noteText &&
        (selectedNotebook.Some? ==> HasId(timer.value.notebooks, selectedNotebook.value.id)))
    }

    /** The first render: empty list, no selection, status saved, and the
        autosave effect has armed its first timeout. */
    constructor ()
      ensures Valid()
      ensures notebooks == [] && selectedNotebook == None && noteText == ""
      ensures autoSaveStatus == Saved
      ensures timer == Some(Capture([], None, ""))
    {
      notebooks := [];
      selectedNotebook := None;
      noteText := "";
      autoSaveStatus := Saved;
      timer := Some(Capture([], None, ""));
    }

    /** "Add Notebook": append a fresh record and select it. The id is the
        clock reading the page would take; it need not be unique. */
    method AddNotebook(id: int)
      requires Valid()
      modifies this
      ensures Valid()
      ensures notebooks == Appended(old(notebooks), id)
      ensures selectedNotebook == Some(NewNotebook(id)) && noteText == ""
      ensures autoSaveStatus == old(autoSaveStatus)
      ensures timer == Some(Capture(notebooks, selectedNotebook, noteText))
    {
      var n := NewNotebook(id);
      notebooks := Appended(notebooks, id);
      selectedNotebook := Some(n);
      // the seeding effect sees a new selection
      noteText := n.content;
      // the autosave effect clears the old timeout and arms a new one
      timer := Some(Capture(notebooks, selectedNotebook, noteText));
      assert notebooks[|notebooks| - 1].id == id;
    }

    /** The delete button: drop every record with this id; if the selection
        had it, clear the selection and the buffer. */
    method DeleteNotebook(id: int)
      requires Valid()
      modifies this
      ensures Valid()
      ensures notebooks == WithoutId(old(notebooks), id)
      ensures autoSaveStatus == old(autoSaveStatus)
      ensures old(selectedNotebook).Some? && old(selectedNotebook).value.id == id ==>
        selectedNotebook == None && noteText == "" && timer == Some(Capture(notebooks, None, ""))
      ensures !(old(selectedNotebook).Some? && old(selectedNotebook).value.id == id) ==>
        selectedNotebook == old(selectedNotebook) && noteText == old(noteText) && timer == old(timer)
    {
      var kept := WithoutId(notebooks, id);
      if selectedNotebook.Some? && selectedNotebook.value.id == id {
        notebooks := kept;
        selectedNotebook := None;
        noteText := "";
        // both dependencies of the autosave effect changed: re-arm
        timer := Some(Capture(notebooks, selectedNotebook, noteText));
      } else {
        if selectedNotebook.Some? {
          WithoutIdIds(notebooks, id, selectedNotebook.value.id);
          assert HasId(kept, selectedNotebook.value.id);
        }
        notebooks := kept;
      }
    }

    /** "Save Now", and the body of the autosave: commit the buffer into every
        record with the selected id. The selected record and the pending
        timeout are left alone. */
    method SaveNotebook()
      requires Valid()
      requires selectedNotebook.Some?
      modifies this
      ensures Valid()
      ensures selectedNotebook == old(selectedNotebook) && noteText == old(noteText)
      ensures notebooks == WithContent(old(notebooks), selectedNotebook.value.id, noteText)
      ensures timer == old(timer)
      ensures autoSaveStatus == Saved
    {
      SaveInto(notebooks);
    }

    /** The steps of `saveNotebook`: status saving, commit the buffer into
        every record of `ns` with the selected id, status saved. `ns` is the
        list the running save function sees. */
    method SaveInto(ns: seq<Notebook>)
      requires Valid()
      requires selectedNotebook.Some? && HasId(ns, selectedNotebook.value.id)
      modifies this
      ensures Valid()
      ensures selectedNotebook == old(selectedNotebook) && noteText == old(noteText)
      ensures notebooks == WithContent(ns, selectedNotebook.value.id, noteText)
      ensures timer == old(timer)
      ensures autoSaveStatus == Saved
    {
      autoSaveStatus := Saving;
      WithContentKeepsShape(ns, selectedNotebook.value.id, noteText, selectedNotebook.value.id);
      notebooks := WithContent(ns, selectedNotebook.value.id, noteText);
      autoSaveStatus := Saved;
    }

    /** Typing into the text area: only the buffer changes. A changed buffer
        re-arms the autosave; setting the same text is not a change. */
    method HandleNoteChange(text: string)
      requires Valid()
      requires selectedNotebook.Some?
      modifies this
      ensures Valid()
      ensures noteText == text
      ensures notebooks == old(notebooks) && selectedNotebook == old(selectedNotebook)
      ensures autoSaveStatus == old(autoSaveStatus)
      ensures timer == if text == old(noteText) then old(timer)
                       else Some(Capture(notebooks, selectedNotebook, text))
    {
      if text != noteText {
        noteText := text;
        timer := Some(Capture(notebooks, selectedNotebook, noteText));
      }
    }

    /** The "Open" button of a listed record: select that record and reset
        the buffer to its content, discarding any unsaved draft. */
    method Open(n: Notebook)
      requires Valid()
      requires n in notebooks
      modifies this
      ensures Valid()
      ensures selectedNotebook == Some(n) && noteText == n.content
      ensures notebooks == old(notebooks) && autoSaveStatus == old(autoSaveStatus)
      ensures timer == Some(Capture(notebooks, selectedNotebook, noteText))
    {
      selectedNotebook := Some(n);
      noteText := n.content;
      timer := Some(Capture(notebooks, selectedNotebook, noteText));
      ghost var i :| 0 <= i < |notebooks| && notebooks[i] == n;
    }

    /** The pending timeout elapses. It saves only when something is selected
        and the buffer differs from the selected record's content (which a
        save does not refresh). The save writes into the current list. */
    method Fire()
      requires Valid()
      requires timer.Some?
      modifies this
      ensures Valid()
      ensures timer == None
      ensures selectedNotebook == old(selectedNotebook) && noteText == old(noteText)
      ensures var due := selectedNotebook.Some? && noteText != selectedNotebook.value.content;
        && (due ==> notebooks == WithContent(old(notebooks), selectedNotebook.value.id, noteText)
                    && autoSaveStatus == Saved)
        && (!due ==> notebooks == old(notebooks) && autoSaveStatus == old(autoSaveStatus))
    {
      timer := None;
      if selectedNotebook.Some? && noteText != selectedNotebook.value.content {
        SaveNotebook();
      }
    }

    /** The pending timeout elapses, as the page is written: the closure runs
        the save of the render that armed it, which maps over the list that
        render saw rather than the current one. */
    method FireAsWritten()
      requires Valid()
      requires timer.Some?
      modifies this
      ensures Valid()
      ensures timer == None
      ensures selectedNotebook == old(selectedNotebook) && noteText == old(noteText)
      ensures var due := selectedNotebook.Some? && noteText != selectedNotebook.value.content;
        && (due ==> notebooks == WithContent(old(timer).value.notebooks, selectedNotebook.value.id, noteText)
                    && autoSaveStatus == Saved)
        && (!due ==> notebooks == old(notebooks) && autoSaveStatus == old(autoSaveStatus))
    {
      var seen := timer.value;
      timer := None;
      if seen.selected.Some? && seen.noteText != seen.selected.value.content {
        // the captured selection and buffer are the current ones (Valid)
        SaveInto(seen.notebooks);
      }
    }
  }
}
