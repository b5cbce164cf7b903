/**
 * Event sequences over one widget, showing what follows from the handlers' contracts alone: only the
 * latest query is ever searched, closing does not stop an armed search, and a search never resets the
 * focus.
 */
module SearchScenarios {
  import opened Wrappers
  import opened JsText
  import opened SearchQuery
  import opened SearchWidget

  /** Two quick input events: whatever the first armed, only the second's query is pending. */
  method TypingSupersedesPendingSearch(w: Widget, first: string, second: string)
    requires w.Valid()
    modifies w
    ensures w.Valid()
    ensures var query := Trim(second);
      w.pending == if Utf16Length(query) >= MinQueryLength then Some(query) else None
  {
    w.Input(first);
    w.Input(second);
  }

  /**
   * A search armed before closing still runs after it: the closed widget ends with a shown listbox
   * and a status message.
   */
  method CloseKeepsArmedSearch(w: Widget, value: string, fetched: Option<seq<SearchRecord>>)
    requires w.Valid() && Utf16Length(Trim(value)) >= MinQueryLength
    modifies w
    ensures w.Valid()
    ensures !w.isOpen && w.inputValue == "" && !w.panelHidden && w.panel != [] && w.status != ""
  {
    w.Input(value);
    w.Close();
    w.FireTimer(fetched);
  }

  /**
   * A search that returns fewer results than the focused position leaves the focus past the end:
   * Enter then ignores the results, and ArrowUp from beyond the end stays beyond it.
   */
  method SearchKeepsStaleFocus(w: Widget, fetched: Option<seq<SearchRecord>>) returns (action: Action)
    requires w.Valid() && w.pending.Some? && w.currentFocus >= 2
    requires |FetchSearchResults(fetched, w.pending.value)| == 1
    modifies w
    ensures w.Valid() && |w.searchResults| == 1 && w.currentFocus >= 1
    ensures !action.Go?
  {
    w.FireTimer(fetched);
    action := w.Submit();
    w.MoveUp();
  }
}
