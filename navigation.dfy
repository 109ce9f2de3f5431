/** The keyboard side of the search modal: the `show` flag of the modal, the
    `selectedIndex` of the `keyHandler` closure, and the active marker on each
    rendered result item. */
module Navigation {
  import opened Wrappers

  /** The fields of a `keydown` event that the handler reads. */
  datatype KeyEvent = KeyEvent(key: string, ctrlKey: bool, metaKey: bool)

  /** Ctrl+K or Cmd+K. */
  predicate IsOpenShortcut(e: KeyEvent)
  {
    (e.metaKey || e.ctrlKey) && e.key == "k"
  }

  /** Whether the modal shows, and which rendered item is selected (-1: none). */
  datatype NavState = NavState(isOpen: bool, selectedIndex: int)

  /** The selection is -1 or the position of one of the `n` rendered items. */
  predicate InRange(s: NavState, n: nat)
  {
    -1 <= s.selectedIndex < n
  }

  /** The index after one key: ArrowUp steps back while above 0, ArrowDown
      steps forward while below the last item, anything else keeps it. */
  function NextIndex(index: int, key: string, n: nat): (j: int)
    ensures -1 <= index < n ==> -1 <= j < n
    ensures 0 <= index ==> 0 <= j
    ensures key != "ArrowUp" && key != "ArrowDown" ==> j == index
    ensures key == "ArrowUp" ==> j == index || j == index - 1
    ensures key == "ArrowDown" ==> j == index || j == index + 1
  {
    if key == "ArrowUp" && index > 0 then index - 1
    else if key == "ArrowDown" && index < n - 1 then index + 1
    else index
  }

  /** `keyHandler` on the pure state: the shortcut opens, Escape closes, and the
      arrows move the index whether or not the modal shows. */
  function Step(s: NavState, e: KeyEvent, n: nat): (t: NavState)
    ensures InRange(s, n) ==> InRange(t, n)
    ensures IsOpenShortcut(e) ==> t.isOpen
    ensures e.key == "Escape" ==> !t.isOpen
    ensures !IsOpenShortcut(e) && e.key != "Escape" ==> t.isOpen == s.isOpen
    ensures e.key != "ArrowUp" && e.key != "ArrowDown" ==> t.selectedIndex == s.selectedIndex
  {
    var shown := if IsOpenShortcut(e) then true else s.isOpen;
    var shown' := if e.key == "Escape" then false else shown;
    NavState(shown', NextIndex(s.selectedIndex, e.key, n))
  }

  /** The state after a sequence of key events, all against `n` rendered items. */
  function Run(s: NavState, events: seq<KeyEvent>, n: nat): NavState
    decreases |events|
  {
    if events == [] then s else Run(Step(s, events[0], n), events[1..], n)
  }

  /** Any sequence of keys keeps the selection within [-1, n-1]. */
  lemma {:induction false} RunStaysInRange(s: NavState, events: seq<KeyEvent>, n: nat)
    requires InRange(s, n)
    ensures InRange(Run(s, events, n), n)
    decreases |events|
  {
    if events != [] {
      RunStaysInRange(Step(s, events[0], n), events[1..], n);
    }
  }

  /** With no rendered items the selection never leaves -1. */
  lemma {:induction false} RunWithoutItems(s: NavState, events: seq<KeyEvent>)
    requires s.selectedIndex == -1
    ensures Run(s, events, 0).selectedIndex == -1
    decreases |events|
  {
    if events != [] {
      RunWithoutItems(Step(s, events[0], 0), events[1..]);
    }
  }

  /** Once an item is selected, no key brings the selection back to -1. */
  lemma {:induction false} RunKeepsSelection(s: NavState, events: seq<KeyEvent>, n: nat)
    requires 0 <= s.selectedIndex
    ensures 0 <= Run(s, events, n).selectedIndex
    decreases |events|
  {
    if events != [] {
      RunKeepsSelection(Step(s, events[0], n), events[1..], n);
    }
  }

  /** Each key moves the selection by at most one place. */
  lemma {:induction false} RunMovesOnePerKey(s: NavState, events: seq<KeyEvent>, n: nat)
    ensures -|events| <= Run(s, events, n).selectedIndex - s.selectedIndex <= |events|
    decreases |events|
  {
    if events != [] {
      RunMovesOnePerKey(Step(s, events[0], n), events[1..], n);
    }
  }

  /** `count` presses of the same key. */
  function Presses(e: KeyEvent, count: nat): (r: seq<KeyEvent>)
    ensures |r| == count
  {
    if count == 0 then [] else [e] + Presses(e, count - 1)
  }

  /** ArrowDown pressed `count` times from a valid index stops at the last item:
      the index clamps there and does not wrap round. */
  lemma {:induction false} ArrowDownClamps(s: NavState, e: KeyEvent, count: nat, n: nat)
    requires e.key == "ArrowDown" && InRange(s, n)
    ensures Run(s, Presses(e, count), n).selectedIndex
            == if s.selectedIndex + count < n - 1 then s.selectedIndex + count else n - 1
    decreases count
  {
    if count > 0 {
      assert Presses(e, count)[0] == e && Presses(e, count)[1..] == Presses(e, count - 1);
      ArrowDownClamps(Step(s, e, n), e, count - 1, n);
    }
  }

  /** ArrowUp pressed `count` times stops at the first item (or stays at -1):
      it never wraps round to the last item. */
  lemma {:induction false} ArrowUpClamps(s: NavState, e: KeyEvent, count: nat, n: nat)
    requires e.key == "ArrowUp" && InRange(s, n)
    ensures Run(s, Presses(e, count), n).selectedIndex
            == if s.selectedIndex == -1 then -1
               else if s.selectedIndex - count > 0 then s.selectedIndex - count else 0
    decreases count
  {
    if count > 0 {
      assert Presses(e, count)[0] == e && Presses(e, count)[1..] == Presses(e, count - 1);
      ArrowUpClamps(Step(s, e, n), e, count - 1, n);
    }
  }

  /** The arrows act while the modal is hidden too; nothing checks `show`. */
  lemma ArrowsMoveWhileClosed(n: nat)
    requires 0 < n
    ensures Step(NavState(false, -1), KeyEvent("ArrowDown", false, false), n) == NavState(false, 0)
  {
  }

  /** `document.querySelector(".search-result-item-active a")`: the first
      rendered item carrying the active marker, if any. */
  function FirstActive(markers: seq<bool>): (r: Option<nat>)
    ensures r.None? <==> forall i :: 0 <= i < |markers| ==> !markers[i]
    ensures r.Some? ==> r.value < |markers| && markers[r.value]
                        && forall i :: 0 <= i < r.value ==> !markers[i]
  {
    if markers == [] then None
    else if markers[0] then Some(0)
    else match FirstActive(markers[1..])
      case None => None
      case Some(k) => Some(k + 1)
  }

  /** Exactly the item at `index` carries the marker (none when `index` is -1). */
  ghost predicate MarksOnly(markers: seq<bool>, index: int)
  {
    forall i :: 0 <= i < |markers| ==> markers[i] == (i == index)
  }

  /** When the markers show the selection, Enter activates the selected item,
      and nothing when there is no selection. */
  lemma EnterActivatesSelection(markers: seq<bool>, index: int)
    requires MarksOnly(markers, index) && -1 <= index < |markers|
    ensures FirstActive(markers) == if index == -1 then None else Some(index)
  {
    if index != -1 {
      assert markers[index];
    }
  }

  /** The `useEffect` closure over the modal: `items` holds the active marker
      of each rendered result item, `selectedIndex` the closure's variable. */
  class SearchNavigation {
    var isOpen: bool
    var selectedIndex: int
    var items: array<bool>

    ghost predicate Valid()
      reads this
    {
      InRange(State(), items.Length)
    }

    function State(): NavState
      reads this
    {
      NavState(isOpen, selectedIndex)
    }

    /** The markers of the rendered items match the selection. */
    ghost predicate Highlighted()
      reads this, items
    {
      MarksOnly(items[..], selectedIndex)
    }

    /** First run of the effect: the modal starts hidden, nothing selected. */
    constructor (rendered: array<bool>)
      ensures Valid() && items == rendered
      ensures State() == NavState(false, -1)
    {
      isOpen := false;
      selectedIndex := -1;
      items := rendered;
    }

    /** The effect re-runs when the query or the corpus changes: a fresh
        closure over the newly rendered items with `selectedIndex` back at -1,
        while the modal's `show` class stays as it was. */
    method Rebind(rendered: array<bool>)
      modifies this
      ensures Valid() && items == rendered
      ensures State() == NavState(old(isOpen), -1)
    {
      selectedIndex := -1;
      items := rendered;
    }

    /** A click on a search trigger opens the modal. */
    method OpenFromTrigger()
      modifies this`isOpen
      ensures isOpen && selectedIndex == old(selectedIndex)
    {
      isOpen := true;
    }

    /** A click on the overlay closes the modal. */
    method CloseFromOverlay()
      modifies this`isOpen
      ensures !isOpen && selectedIndex == old(selectedIndex)
    {
      isOpen := false;
    }

    /** `updateSelection`: mark the item at `selectedIndex` active and clear
        the marker on every other item. */
    method UpdateSelection()
      requires Valid()
      modifies items
      ensures Highlighted()
    {
      var i := 0;
      while i < items.Length
        invariant 0 <= i <= items.Length
        invariant forall j :: 0 <= j < i ==> items[j] == (j == selectedIndex)
      {
        items[i] := i == selectedIndex;
        i := i + 1;
      }
    }

    /** `keyHandler`: returns the position of the item whose link Enter
        clicks, if any. */
    method HandleKey(e: KeyEvent) returns (clicked: Option<nat>)
      requires Valid()
      modifies this`isOpen, this`selectedIndex, items
      ensures Valid() && items == old(items)
      ensures State() == Step(old(State()), e, items.Length)
      ensures Highlighted()
      ensures clicked == if e.key == "Enter" then FirstActive(old(items[..])) else None
      ensures e.key == "Enter" && old(Highlighted()) ==>
                clicked == if selectedIndex == -1 then None else Some(selectedIndex)
    {
      clicked := None;
      if IsOpenShortcut(e) {
        isOpen := true;
        UpdateSelection();
      }
      if e.key == "Escape" {
        isOpen := false;
      }
      if e.key == "ArrowUp" && selectedIndex > 0 {
        selectedIndex := selectedIndex - 1;
      } else if e.key == "ArrowDown" && selectedIndex < items.Length - 1 {
        selectedIndex := selectedIndex + 1;
      } else if e.key == "Enter" {
        clicked := FirstActive(items[..]);
        if old(Highlighted()) {
          EnterActivatesSelection(items[..], selectedIndex);
        }
      }
      UpdateSelection();
    }
  }

  /** Re-running the effect resets the index but not the markers on result
      items that survive the re-render: right after the rebind, Enter clicks
      the item that was highlighted before, although nothing is selected. */
  method EnterAfterRebind() returns (clicked: Option<nat>, index: int)
    ensures index == -1 && clicked == Some(1)
  {
    var rendered := new bool[2];
    var nav := new SearchNavigation(rendered);
    var down := KeyEvent("ArrowDown", false, false);
    var none := nav.HandleKey(down);
    none := nav.HandleKey(down);
    assert rendered[..] == [false, true];
    nav.Rebind(rendered);
    clicked := nav.HandleKey(KeyEvent("Enter", false, false));
    index := nav.selectedIndex;
  }
}
