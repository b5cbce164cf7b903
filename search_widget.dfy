/**
 * The autocomplete search widget's controller: the state its event handlers share (the closure
 * variables `currentFocus`, `searchResults` and `debounceTimer`, the input's value, the open/closed
 * look, the results panel, `aria-expanded` and the live status text) and one method per event.
 * Navigation is returned as an `Action`; the debounce timer is a pending query fired by an explicit
 * event; the fetched index is an argument of that event.
 */
module SearchWidget {
  import opened Wrappers
  import opened JsText
  import opened SearchQuery
  import UriComponent

  /** The status text shown on opening and whenever the query is too short. */
  const Prompt := "Start typing to see suggestions."
  /** The status text while a search is pending. */
  const SearchingNotice := "Searching..."
  /** The shortest trimmed query, in UTF-16 code units, that arms a search. */
  const MinQueryLength: nat := 3

  /**
   * One child of the results listbox: the disabled "No results found." placeholder, or the option
   * rendered for a result, with its `aria-selected`/`focused` mark.
   */
  datatype PanelOption = Placeholder | Item(record: SearchRecord, selected: bool)

  /** Where the browser goes after an event: nowhere, to a result's path, or to the search page. */
  datatype Action = Stay | Go(path: string) | SearchPage(query: string)

  /** The keys the keydown handler tells apart. */
  datatype Key = Escape | ArrowDown | ArrowUp | Enter | OtherKey

  /** The URL assigned to `window.location.href` for a navigation. */
  function Href(action: Action): string
    requires !action.Stay?
  {
    match action
    case Go(path) => path
    case SearchPage(query) => "/search?q=" + UriComponent.Encode(query)
  }

  /** The search-page URL carries the query so that decoding its parameter gives the query back. */
  lemma SearchPageCarriesQuery(query: string)
    ensures var href := Href(SearchPage(query));
      |href| >= 10 && href[..10] == "/search?q=" && UriComponent.Decode(href[10..]) == Some(query)
  {
    var href := Href(SearchPage(query));
    assert href[10..] == UriComponent.Encode(query);
    UriComponent.EncodeRoundTrip(query);
  }

  /**
   * The records of the navigable options (`[role="option"]:not([aria-disabled="true"])`), in
   * document order: every option but the placeholder.
   */
  function Options(panel: seq<PanelOption>): (r: seq<SearchRecord>)
    ensures |r| <= |panel|
  {
    if panel == [] then []
    else (if panel[0].Item? then [panel[0].record] else []) + Options(panel[1..])
  }

  lemma {:induction false} OptionsAppend(a: seq<PanelOption>, b: seq<PanelOption>)
    ensures Options(a + b) == Options(a) + Options(b)
  {
    if a == [] {
      assert a + b == b;
    } else {
      var head := if a[0].Item? then [a[0].record] else [];
      assert (a + b)[0] == a[0];
      assert (a + b)[1..] == a[1..] + b;
      assert Options(a + b) == head + Options(a[1..] + b);
      OptionsAppend(a[1..], b);
      assert Options(a) == head + Options(a[1..]);
    }
  }

  /** One more child adds one navigable option when it is an item, and none for the placeholder. */
  lemma OptionsStep(panel: seq<PanelOption>, i: nat)
    requires i < |panel|
    ensures |Options(panel[..i + 1])| == |Options(panel[..i])| + if panel[i].Item? then 1 else 0
  {
    assert panel[..i + 1] == panel[..i] + [panel[i]];
    OptionsAppend(panel[..i], [panel[i]]);
  }

  /** What `displayResults` leaves in the listbox: the placeholder alone, or one unselected option per result. */
  function Render(results: seq<SearchRecord>): (panel: seq<PanelOption>)
    ensures results == [] ==> panel == [Placeholder]
    ensures results != [] ==> |panel| == |results|
    ensures forall i :: 0 <= i < |results| ==> panel[i] == Item(results[i], false)
  {
    if results == [] then [Placeholder] else seq(|results|, i requires 0 <= i < |results| => Item(results[i], false))
  }

  /**
   * The listbox shows `results`: one option per result in order (each with any selection mark), or,
   * for no results, either nothing or the placeholder alone.
   */
  predicate Shows(panel: seq<PanelOption>, results: seq<SearchRecord>) {
    if results == [] then panel == [] || panel == [Placeholder]
    else |panel| == |results| && forall i :: 0 <= i < |panel| ==> panel[i].Item? && panel[i].record == results[i]
  }

  /** A listbox that shows `results` offers exactly `results` as its navigable options. */
  lemma {:induction false} ShownOptions(panel: seq<PanelOption>, results: seq<SearchRecord>)
    requires Shows(panel, results)
    ensures Options(panel) == results
  {
    if results != [] {
      ShownOptions(panel[1..], results[1..]);
    }
  }

  /** A rendered listbox shows its results. */
  lemma RenderShows(results: seq<SearchRecord>)
    ensures Shows(Render(results), results)
  {
  }

  /** An option with its selection mark set to `on`; the placeholder is never marked. */
  function Mark(option: PanelOption, on: bool): PanelOption {
    match option
    case Placeholder => Placeholder
    case Item(record, _) => Item(record, on)
  }

  /**
   * The listbox after `updateFocus`: the option whose position among the navigable options is `focus`
   * is marked, every other option is unmarked, and the placeholder is left alone.
   */
  function Highlighted(panel: seq<PanelOption>, focus: int): (r: seq<PanelOption>)
    ensures |r| == |panel|
  {
    seq(|panel|, i requires 0 <= i < |panel| => Mark(panel[i], |Options(panel[..i])| == focus))
  }

  /** Marking keeps the navigable options and so keeps what the listbox shows. */
  lemma HighlightedShows(panel: seq<PanelOption>, results: seq<SearchRecord>, focus: int)
    requires Shows(panel, results)
    ensures Shows(Highlighted(panel, focus), results)
  {
  }

  /** An option further down the list has a larger position among the navigable options. */
  lemma OptionsGrow(panel: seq<PanelOption>, i: nat, j: nat)
    requires i < j <= |panel| && panel[i].Item?
    ensures |Options(panel[..i])| < |Options(panel[..j])|
  {
    assert panel[..j] == panel[..i] + panel[i..j];
    OptionsAppend(panel[..i], panel[i..j]);
    assert panel[i..j] == [panel[i]] + panel[i + 1..j];
    OptionsAppend([panel[i]], panel[i + 1..j]);
  }

  predicate IsMarked(option: PanelOption) {
    option.Item? && option.selected
  }

  /** After `updateFocus` no two options are marked. */
  lemma HighlightedMarksAtMostOne(panel: seq<PanelOption>, focus: int, i: nat, j: nat)
    requires i < j < |panel|
    ensures !(IsMarked(Highlighted(panel, focus)[i]) && IsMarked(Highlighted(panel, focus)[j]))
  {
    if panel[i].Item? {
      OptionsGrow(panel, i, j);
    }
  }

  /** When `focus` is a valid position, the option at that position of a listbox showing results is marked. */
  lemma HighlightedMarksFocus(panel: seq<PanelOption>, results: seq<SearchRecord>, focus: int)
    requires Shows(panel, results) && 0 <= focus < |results|
    ensures Highlighted(panel, focus)[focus] == Item(results[focus], true)
  {
    ShownOptions(panel[..focus], results[..focus]);
  }

  /**
   * ArrowDown's new focus for `n` > 0 navigable options: one further down, wrapping from the last
   * option (or from a stale focus past it) to the first. From any focus of at least -1 it lands on an option.
   */
  function FocusDown(focus: int, n: nat): (r: int)
    requires n > 0 && focus >= -1
    ensures 0 <= r < n
    ensures r == 0 <==> focus >= n - 1 || focus == -1
  {
    if focus < n - 1 then focus + 1 else 0
  }

  /**
   * ArrowUp's new focus for `n` > 0 navigable options: one further up, wrapping from the first option
   * (or from no focus) to the last. A stale focus past the end only moves up by one.
   */
  function FocusUp(focus: int, n: nat): (r: int)
    requires n > 0
    ensures focus <= n ==> 0 <= r < n
    ensures focus > n ==> r == focus - 1 && r >= n
    ensures focus <= 0 ==> r == n - 1
    ensures 0 < focus ==> r == focus - 1
  {
    if focus > 0 then focus - 1 else n - 1
  }

  /** ArrowUp undoes ArrowDown and ArrowDown undoes ArrowUp on a focused option. */
  lemma FocusUpDownInverse(focus: int, n: nat)
    requires 0 <= focus < n
    ensures FocusUp(FocusDown(focus, n), n) == focus
    ensures FocusDown(FocusUp(focus, n), n) == focus
  {
  }

  /** `k` presses of ArrowDown from a focused option. */
  function FocusDownTimes(focus: int, n: nat, k: nat): (r: int)
    requires 0 <= focus < n
    ensures 0 <= r < n
  {
    if k == 0 then focus else FocusDown(FocusDownTimes(focus, n, k - 1), n)
  }

  /**
   * ArrowDown walks the options cyclically: `k` presses (at most `n`) move the focus `k` places on,
   * wrapping past the last option, so `n` presses come back to where they started.
   */
  lemma {:induction false} FocusDownCycles(focus: int, n: nat, k: nat)
    requires 0 <= focus < n && k <= n
    ensures FocusDownTimes(focus, n, k) == if focus + k < n then focus + k else focus + k - n
  {
    if k > 0 {
      FocusDownCycles(focus, n, k - 1);
    }
  }

  /** Every option is reached from any focused option by fewer than `n` presses of ArrowDown. */
  lemma FocusDownReachesAll(focus: int, target: int, n: nat)
    requires 0 <= focus < n && 0 <= target < n
    ensures var k := if focus <= target then target - focus else target - focus + n;
      k < n && FocusDownTimes(focus, n, k) == target
  {
    var k := if focus <= target then target - focus else target - focus + n;
    FocusDownCycles(focus, n, k);
  }

  /** What Enter does: follow the focused option, else search for the trimmed input, else nothing. */
  function EnterOutcome(focus: int, options: seq<SearchRecord>, input: string): (action: Action)
    ensures action.Go? <==> 0 <= focus < |options|
    ensures action.Go? ==> action.path == options[focus].path
    ensures action.SearchPage? ==> action.query == Trim(input) && action.query != "" && IsTrimmed(action.query)
    ensures action.Stay? <==> !(0 <= focus < |options|) && Trim(input) == ""
  {
    if focus > -1 && focus < |options| then Go(options[focus].path)
    else
      var query := Trim(input);
      if query != "" then SearchPage(query) else Stay
  }

  /** The live-region text once a search for `query` has produced `count` results. */
  function ResultStatus(query: string, count: nat): (status: string)
    ensures count > 0 ==> status == NumberToString(count) + (if count == 1 then " result" else " results") + " found for " + query + "."
    ensures count == 0 ==> status == query + " - did not return any results."
  {
    if count > 0 then NumberToString(count) + " result" + (if count != 1 then "s" else "") + " found for " + query + "."
    else query + " - did not return any results."
  }

  /** The count at the head of a results message reads back as the number of results. */
  lemma ResultStatusCount(query: string, count: nat)
    requires count > 0
    ensures var digits := NumberToString(count);
      ResultStatus(query, count)[..|digits|] == digits && ParseDecimal(digits) == count
  {
    NumberToStringRoundTrip(count);
  }

  /** The status text contains the query: at the end, before the full stop, when something was found, and at the start otherwise. */
  lemma ResultStatusNamesQuery(query: string, count: nat)
    ensures Includes(ResultStatus(query, count), query)
  {
    var status := ResultStatus(query, count);
    var k := if count > 0 then |status| - |query| - 1 else 0;
    assert OccursAt(status, query, k);
    IncludesIff(status, query);
  }

  /** One mounted search block: the state shared by its event handlers. */
  class Widget {
    /** Whether the bar is open (the `--open`/`--focus` classes and the shown input). */
    var isOpen: bool
    /** The text input's value. */
    var inputValue: string
    /** `currentFocus`: the position of the marked option among the navigable ones, -1 for none. */
    var currentFocus: int
    /** `searchResults`: the results of the last completed search. */
    var searchResults: seq<SearchRecord>
    /** The children of the results listbox. */
    var panel: seq<PanelOption>
    /** Whether the listbox carries `hidden` (and the `--hidden` class). */
    var panelHidden: bool
    /** The input's `aria-expanded`. */
    var ariaExpanded: bool
    /** The text of the live status region. */
    var status: string
    /** The query of the armed debounce timer, if one is armed. */
    var pending: Option<string>

    /**
     * What every handler keeps: the focus is never below -1, at most five results are held, the
     * listbox shows exactly the held results, and an armed timer holds a trimmed query of three or
     * more code units. The focus is NOT kept within the results: a search never resets it.
     */
    ghost predicate Valid()
      reads this
    {
      && currentFocus >= -1
      && |searchResults| <= MaxResults
      && Shows(panel, searchResults)
      && (pending.Some? ==> Utf16Length(pending.value) >= MinQueryLength && IsTrimmed(pending.value))
    }

    /** Every part of the closed look that `closeSearch` restores. */
    ghost predicate IsClosed()
      reads this
    {
      && !isOpen && inputValue == "" && currentFocus == -1 && searchResults == []
      && panel == [] && panelHidden && !ariaExpanded && status == ""
    }

    /** `decorate`: the freshly built widget is closed, with an empty hidden listbox and no timer. */
    constructor ()
      ensures Valid() && IsClosed() && pending == None
    {
      isOpen := false;
      inputValue := "";
      currentFocus := -1;
      searchResults := [];
      panel := [];
      panelHidden := true;
      ariaExpanded := false;
      status := "";
      pending := None;
    }

    /** `openSearch`: shows the bar, announces the prompt and collapses the combobox; nothing else changes. */
    method Open()
      requires Valid()
      modifies this`isOpen, this`status, this`ariaExpanded
      ensures Valid()
      ensures isOpen && status == Prompt && !ariaExpanded
    {
      isOpen := true;
      status := Prompt;
      ariaExpanded := false;
    }

    /**
     * `closeSearch` (close button or Escape): from any state, the closed look with an empty input,
     * no focus, no results and an empty hidden listbox. An armed timer stays armed.
     */
    method Close()
      requires Valid()
      modifies this`isOpen, this`inputValue, this`ariaExpanded, this`status
      modifies this`panelHidden, this`panel, this`currentFocus, this`searchResults
      ensures Valid() && IsClosed()
    {
      isOpen := false;
      inputValue := "";
      ariaExpanded := false;
      status := "";
      panelHidden := true;
      panel := [];
      currentFocus := -1;
      searchResults := [];
    }

    /** `updateFocus`: marks the navigable option at position `currentFocus` and unmarks the others. */
    method UpdateFocus()
      requires Valid()
      modifies this`panel
      ensures Valid()
      ensures panel == Highlighted(old(panel), currentFocus)
    {
      ghost var original := panel;
      var i, index := 0, 0;
      while i < |panel|
        invariant 0 <= i <= |panel| == |original|
        invariant index == |Options(original[..i])|
        invariant forall j :: 0 <= j < i ==> panel[j] == Mark(original[j], |Options(original[..j])| == currentFocus)
        invariant forall j :: i <= j < |panel| ==> panel[j] == original[j]
      {
        OptionsStep(original, i);
        assert panel[i] == original[i];
        match panel[i] {
          case Placeholder =>
          case Item(record, _) =>
            panel := panel[i := Item(record, index == currentFocus)];
            index := index + 1;
        }
        assert panel[i] == Mark(original[i], |Options(original[..i])| == currentFocus);
        i := i + 1;
      }
      assert panel == Highlighted(original, currentFocus);
      HighlightedShows(original, searchResults, currentFocus);
    }

    /**
     * ArrowDown: with navigable options, moves the focus down with wrap-around (landing on an option
     * whatever the focus was) and re-marks the options; with none, changes nothing.
     */
    method MoveDown()
      requires Valid()
      modifies this`currentFocus, this`panel
      ensures Valid()
      ensures old(|Options(panel)|) == 0 ==> currentFocus == old(currentFocus) && panel == old(panel)
      ensures old(|Options(panel)|) > 0 ==>
        && currentFocus == FocusDown(old(currentFocus), |searchResults|)
        && 0 <= currentFocus < |searchResults|
        && panel == Highlighted(old(panel), currentFocus)
    {
      ShownOptions(panel, searchResults);
      var n := |Options(panel)|;
      if n > 0 {
        currentFocus := if currentFocus < n - 1 then currentFocus + 1 else 0;
        UpdateFocus();
      }
    }

    /**
     * ArrowUp: with navigable options, moves the focus up with wrap-around (from no focus to the last
     * option) and re-marks the options; with none, changes nothing. A stale focus past the end of the
     * results only moves up by one.
     */
    method MoveUp()
      requires Valid()
      modifies this`currentFocus, this`panel
      ensures Valid()
      ensures old(|Options(panel)|) == 0 ==> currentFocus == old(currentFocus) && panel == old(panel)
      ensures old(|Options(panel)|) > 0 ==>
        && currentFocus == FocusUp(old(currentFocus), |searchResults|)
        && (old(currentFocus) <= |searchResults| ==> 0 <= currentFocus < |searchResults|)
        && panel == Highlighted(old(panel), currentFocus)
    {
      ShownOptions(panel, searchResults);
      var n := |Options(panel)|;
      if n > 0 {
        currentFocus := if currentFocus > 0 then currentFocus - 1 else n - 1;
        UpdateFocus();
      }
    }

    /**
     * Enter: follows the focused result when the focus names a navigable option; otherwise searches
     * for the trimmed input when it is not empty; otherwise does nothing. No state changes.
     */
    method Submit() returns (action: Action)
      requires Valid()
      ensures action == EnterOutcome(currentFocus, searchResults, inputValue)
      ensures 0 <= currentFocus < |searchResults| ==> action == Go(searchResults[currentFocus].path)
    {
      ShownOptions(panel, searchResults);
      var items := Options(panel);
      if currentFocus > -1 && currentFocus < |items| {
        action := Go(items[currentFocus].path);
      } else {
        var query := Trim(inputValue);
        if query != "" {
          action := SearchPage(query);
        } else {
          action := Stay;
        }
      }
    }

    /** The keydown handler: Escape closes, the arrows move the focus, Enter navigates, other keys do nothing. */
    method KeyDown(key: Key) returns (action: Action)
      requires Valid()
      modifies this`isOpen, this`inputValue, this`ariaExpanded, this`status
      modifies this`panelHidden, this`panel, this`currentFocus, this`searchResults
      ensures Valid()
      ensures !key.Enter? ==> action == Stay
      ensures key.Escape? ==> IsClosed()
      ensures key.ArrowDown? || key.ArrowUp? ==>
        && unchanged(this`isOpen, this`inputValue, this`ariaExpanded, this`status)
        && unchanged(this`panelHidden, this`searchResults)
        && (old(searchResults) == [] ==> unchanged(this`currentFocus, this`panel))
      ensures key.ArrowDown? && old(searchResults) != [] ==>
        currentFocus == FocusDown(old(currentFocus), |searchResults|) && panel == Highlighted(old(panel), currentFocus)
      ensures key.ArrowUp? && old(searchResults) != [] ==>
        currentFocus == FocusUp(old(currentFocus), |searchResults|) && panel == Highlighted(old(panel), currentFocus)
      ensures key.Enter? || key.OtherKey? ==> unchanged(this)
      ensures key.Enter? ==> action == EnterOutcome(currentFocus, searchResults, inputValue)
    {
      ShownOptions(panel, searchResults);
      action := Stay;
      match key
      case Escape => Close();
      case ArrowDown => MoveDown();
      case ArrowUp => MoveUp();
      case Enter => action := Submit();
      case OtherKey =>
    }

    /** mouseenter on the option at `index`: focuses it and re-marks the options. */
    method HoverOption(index: nat)
      requires Valid() && index < |Options(panel)|
      modifies this`currentFocus, this`panel
      ensures Valid()
      ensures currentFocus == index && panel == Highlighted(old(panel), index)
      ensures panel[index] == Item(searchResults[index], true)
    {
      ShownOptions(panel, searchResults);
      currentFocus := index;
      UpdateFocus();
      HighlightedMarksFocus(old(panel), searchResults, index);
    }

    /** click on the option at `index`: goes to the path of the result it was rendered for. */
    method ClickOption(index: nat) returns (action: Action)
      requires Valid() && index < |Options(panel)|
      ensures action == Go(searchResults[index].path)
    {
      ShownOptions(panel, searchResults);
      action := Go(Options(panel)[index].path);
    }

    /**
     * The input handler, given the input's new value. The earlier timer is always cancelled. A trimmed
     * query of three or more code units arms a new one for it and announces the search; an empty
     * query clears the listbox, the focus and the results; a one- or two-unit query only hides the
     * listbox, keeping its options, the focus and the results.
     */
    method Input(value: string)
      requires Valid()
      modifies this`inputValue, this`pending, this`status, this`panelHidden
      modifies this`panel, this`ariaExpanded, this`currentFocus, this`searchResults
      ensures Valid()
      ensures inputValue == value
      ensures var query := Trim(value);
        if Utf16Length(query) >= MinQueryLength then
          && pending == Some(query) && status == SearchingNotice
          && unchanged(this`panelHidden, this`panel, this`ariaExpanded, this`currentFocus, this`searchResults)
        else if query == "" then
          && pending == None && status == Prompt && panelHidden && !ariaExpanded
          && panel == [] && currentFocus == -1 && searchResults == []
        else
          && pending == None && status == Prompt && panelHidden && !ariaExpanded
          && unchanged(this`panel, this`currentFocus, this`searchResults)
    {
      inputValue := value;
      var query := Trim(value);
      pending := None;
      if Utf16Length(query) >= MinQueryLength {
        status := SearchingNotice;
        pending := Some(query);
      } else if Utf16Length(query) == 0 {
        panelHidden := true;
        panel := [];
        ariaExpanded := false;
        status := Prompt;
        currentFocus := -1;
        searchResults := [];
      } else {
        panelHidden := true;
        ariaExpanded := false;
        status := Prompt;
      }
    }

    /**
     * The debounce timer fires and the fetch for its query settles with `fetched` (`None` when it
     * failed). The results replace the held ones and are rendered into a shown listbox; the status
     * reports the count or that nothing was found; `aria-expanded` is set only when something was
     * found. The focus is left as it was.
     */
    method FireTimer(fetched: Option<seq<SearchRecord>>)
      requires Valid() && pending.Some?
      modifies this`pending, this`searchResults, this`panel, this`panelHidden, this`ariaExpanded, this`status
      ensures Valid()
      ensures var query := old(pending.value);
        && pending == None
        && searchResults == FetchSearchResults(fetched, query)
        && panel == Render(searchResults)
        && !panelHidden
        && ariaExpanded == (old(ariaExpanded) || searchResults != [])
        && status == ResultStatus(query, |searchResults|)
    {
      var query := pending.value;
      pending := None;
      searchResults := FetchSearchResults(fetched, query);
      panel := Render(searchResults);
      panelHidden := false;
      if |searchResults| > 0 {
        ariaExpanded := true;
      }
      status := ResultStatus(query, |searchResults|);
    }
  }
}
