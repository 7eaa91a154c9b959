/** Sessions of the Index page driven event by event. Each method runs a fixed
    sequence of gestures and timer events on a fresh page and states what the
    store holds at the end; the facts follow from the contracts of the page's
    methods alone. The timeouts elapse as the page is written
    (`FireAsWritten`), except in `CurrentListKeepsDeleted`. */
module PageScenarios {
  import opened NotebookStore
  import opened IndexPage

  /** Create a notebook, type "hello", let the quiet period elapse: the text is
      committed and the status is saved. */
  method QuietPeriodCommits() returns (stored: seq<Notebook>, status: SaveStatus)
    ensures stored == [NewNotebook(1).(content := "hello")]
    ensures status == Saved
  {
    var page := new Index();
    page.AddNotebook(1);
    page.HandleNoteChange("hello");
    page.FireAsWritten();
    stored, status := page.notebooks, page.autoSaveStatus;
  }

  /** Three edits in a burst re-arm the single timeout each time; when it
      elapses the last text is committed and nothing is left pending. */
  method BurstSavesOnce() returns (stored: seq<Notebook>, pending: bool)
    ensures stored == [NewNotebook(1).(content := "hel")]
    ensures !pending
  {
    var page := new Index();
    page.AddNotebook(1);
    page.HandleNoteChange("h");
    page.HandleNoteChange("he");
    page.HandleNoteChange("hel");
    page.FireAsWritten();
    stored, pending := page.notebooks, page.timer.Some?;
  }

  /** Type a draft, then delete the notebook before the timeout elapses: the
      re-armed timeout finds no selection and saves nothing. */
  method DeleteBeforeQuietPeriod() returns (stored: seq<Notebook>, text: string)
    ensures stored == [] && text == ""
  {
    var page := new Index();
    page.AddNotebook(2);
    page.HandleNoteChange("draft");
    page.DeleteNotebook(2);
    page.FireAsWritten();
    stored, text := page.notebooks, page.noteText;
  }

  /** Open one notebook, type a draft, open another before the timeout
      elapses: the draft is gone and the first notebook is still empty. */
  method SwitchDiscardsDraft() returns (stored: seq<Notebook>)
    ensures stored == [NewNotebook(3), NewNotebook(4)]
  {
    var page := new Index();
    page.AddNotebook(3);
    page.AddNotebook(4);
    page.Open(page.notebooks[0]);
    page.HandleNoteChange("c1");
    page.Open(page.notebooks[1]);
    page.FireAsWritten();
    stored := page.notebooks;
  }

  /** "Save Now" twice, then the timeout that was armed before: the selected
      record still holds the old content, so the timeout saves again, and every save yields the same list. */
  method RepeatedSavesAgree() returns (once: seq<Notebook>, twice: seq<Notebook>, afterTimer: seq<Notebook>)
    ensures once == [NewNotebook(5).(content := "y")]
    ensures twice == once && afterTimer == once
  {
    var page := new Index();
    page.AddNotebook(5);
    page.HandleNoteChange("y");
    page.SaveNotebook();
    once := page.notebooks;
    page.SaveNotebook();
    twice := page.notebooks;
    assert page.selectedNotebook.value.content == "";
    page.FireAsWritten();
    afterTimer := page.notebooks;
  }

  /** As written, deleting a notebook other than the selected one while an
      autosave is pending does not re-arm the timeout, and the save it runs
      maps over the list from before the deletion: the deleted notebook is
      stored again. */
  method StaleListRestoresDeleted() returns (stored: seq<Notebook>)
    ensures stored == [NewNotebook(1), NewNotebook(2).(content := "x")]
    ensures HasId(stored, 1)
  {
    var page := new Index();
    page.AddNotebook(1);
    page.AddNotebook(2);
    page.HandleNoteChange("x");
    page.DeleteNotebook(1);
    page.FireAsWritten();
    stored := page.notebooks;
    assert stored[0].id == 1;
  }

  /** The same gestures with the save writing into the current list: the
      deleted notebook stays deleted. */
  method CurrentListKeepsDeleted() returns (stored: seq<Notebook>)
    ensures stored == [NewNotebook(2).(content := "x")]
    ensures !HasId(stored, 1)
  {
    var page := new Index();
    page.AddNotebook(1);
    page.AddNotebook(2);
    page.HandleNoteChange("x");
    page.DeleteNotebook(1);
    page.Fire();
    stored := page.notebooks;
  }
}
