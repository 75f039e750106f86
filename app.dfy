/**
 * The application shell: the calculation history, the theme, and the
 * navigation between the calculator, its sidebar and the history and
 * settings overlays (the Android back button, the edge swipe and the
 * sidebar's navigation links).
 */
module AppShell {
  import opened Types
  import Engine
  import EngineLaws
  import Numbers

  // ---------------------------------------------------------------------------
  // History
  // ---------------------------------------------------------------------------

  /** The history keeps at most this many entries. */
  const MaxHistory: nat := 50

  function Min(a: int, b: int): int
  {
    if a <= b then a else b
  }

  /** The first n elements of s, or all of s when it is shorter. */
  function Take<T>(s: seq<T>, n: nat): (r: seq<T>)
    ensures |r| == Min(|s|, n) && r == s[..|r|]
  {
    if |s| <= n then s else s[..n]
  }

  function Reversed<T>(s: seq<T>): (r: seq<T>)
    ensures |r| == |s|
    ensures forall i :: 0 <= i < |s| ==> r[i] == s[|s| - 1 - i]
  {
    if s == [] then [] else [s[|s| - 1]] + Reversed(s[..|s| - 1])
  }

  /** handleNewCalculation: `[calc, ...prev].slice(0, 50)`. */
  function PushHistory(h: seq<Calculation>, c: Calculation): (r: seq<Calculation>)
    // the new entry is first, followed by the oldest-dropping prefix of the old list
    ensures |r| == Min(|h| + 1, MaxHistory)
    ensures r[0] == c && r[1..] == h[..|r| - 1]
  {
    Take([c] + h, MaxHistory)
  }

  /** The history after the calculator reports each entry of cs, in order. */
  function PushAll(h: seq<Calculation>, cs: seq<Calculation>): seq<Calculation>
  {
    if cs == [] then h else PushHistory(PushAll(h, cs[..|cs| - 1]), cs[|cs| - 1])
  }

  /** After a run of reports the history is the newest-first list of reports, then the old history, cut to 50. */
  lemma {:induction false} PushAllNewestFirst(h: seq<Calculation>, cs: seq<Calculation>)
    requires cs != [] || |h| <= MaxHistory
    ensures PushAll(h, cs) == Take(Reversed(cs) + h, MaxHistory)
  {
    if cs != [] {
      var init := cs[..|cs| - 1];
      var c := cs[|cs| - 1];
      assert Reversed(cs) == [c] + Reversed(init);
      if init == [] {
        assert Reversed(cs) + h == [c] + h;
      } else {
        PushAllNewestFirst(h, init);
        var long := Reversed(init) + h;
        assert PushAll(h, init) == Take(long, MaxHistory);
        assert Reversed(cs) + h == [c] + long;
        PushTake(long, c);
      }
    }
  }

  /** Capping before or after a push gives the same list. */
  lemma PushTake(long: seq<Calculation>, c: Calculation)
    ensures PushHistory(Take(long, MaxHistory), c) == Take([c] + long, MaxHistory)
  {
  }

  /** A history that starts within the cap stays within it. */
  lemma {:induction false} PushAllBounded(h: seq<Calculation>, cs: seq<Calculation>)
    requires |h| <= MaxHistory
    ensures |PushAll(h, cs)| == Min(|h| + |cs|, MaxHistory)
  {
    if cs != [] {
      PushAllBounded(h, cs[..|cs| - 1]);
    }
  }

  /** Pressing keys adds at most one history entry per `=` or scientific key. */
  lemma HistoryAfterKeys(p: Numbers.Platform, s: Engine.State, keys: seq<Engine.Key>, h: seq<Calculation>)
    requires |h| <= MaxHistory
    ensures |PushAll(h, Engine.Run(p, s, keys).reported)| <= |h| + EngineLaws.Evaluations(keys)
  {
    var reported := Engine.Run(p, s, keys).reported;
    EngineLaws.RunReportsPerEvaluation(p, s, keys);
    PushAllBounded(h, reported);
  }

  // ---------------------------------------------------------------------------
  // Theme
  // ---------------------------------------------------------------------------

  const Dark := "dark"
  const Light := "light"

  /** toggleTheme: 'dark' becomes 'light', anything else becomes 'dark'. */
  function NextTheme(t: string): (r: string)
    ensures r == Dark || r == Light
    ensures r == Dark <==> t != Dark
  {
    if t == Dark then Light else Dark
  }

  /** Toggling twice gives back a 'dark' or 'light' theme. */
  lemma ToggleTwice(t: string)
    requires t == Dark || t == Light
    ensures NextTheme(NextTheme(t)) == t
  {
  }

  // ---------------------------------------------------------------------------
  // Navigation
  // ---------------------------------------------------------------------------

  /** The main screen; any other overlay value covers it. */
  const CalculatorView := "calculator"

  /** What the back button, the sidebar and history selection act on. */
  datatype Nav = Nav(isSidebarOpen: bool, activeOverlay: string, selectedCalc: Option<Calculation>)

  datatype BackOutcome = BackOutcome(nav: Nav, exit: bool)

  /** The back-button listener: close the sidebar, else close the overlay, else exit. */
  function Back(n: Nav): (r: BackOutcome)
    ensures n.isSidebarOpen ==> r == BackOutcome(n.(isSidebarOpen := false), false)
    ensures !n.isSidebarOpen && n.activeOverlay != CalculatorView ==>
      r == BackOutcome(n.(activeOverlay := CalculatorView, selectedCalc := None), false)
    ensures r.exit <==> !n.isSidebarOpen && n.activeOverlay == CalculatorView
    ensures r.exit ==> r.nav == n
  {
    if n.isSidebarOpen then BackOutcome(n.(isSidebarOpen := false), false)
    else if n.activeOverlay != CalculatorView then
      BackOutcome(n.(activeOverlay := CalculatorView, selectedCalc := None), false)
    else BackOutcome(n, true)
  }

  /** The back button pressed k times, stopping at the press that exits. */
  function BackPresses(n: Nav, k: nat): (r: BackOutcome)
    decreases k
  {
    if k == 0 then BackOutcome(n, false)
    else
      var b := Back(n);
      if b.exit then b else BackPresses(b.nav, k - 1)
  }

  /** From any screen, at most three presses of back leave the app. */
  lemma ExitWithinThreePresses(n: Nav)
    ensures BackPresses(n, 3).exit
    ensures !n.isSidebarOpen && n.activeOverlay == CalculatorView ==> Back(n).exit
  {
  }

  /** onNavigate: show the chosen view and close the sidebar. */
  function Navigated(n: Nav, view: string): (r: Nav)
    ensures !r.isSidebarOpen && r.activeOverlay == view
    ensures r.selectedCalc == (if view == CalculatorView then None else n.selectedCalc)
  {
    var m := n.(activeOverlay := view, isSidebarOpen := false);
    if view == CalculatorView then m.(selectedCalc := None) else m
  }

  /** handleSelectHistoryItem: load the entry and show the calculator. */
  function SelectItem(n: Nav, c: Calculation): (r: Nav)
    ensures r == Nav(n.isSidebarOpen, CalculatorView, Some(c))
  {
    n.(selectedCalc := Some(c), activeOverlay := CalculatorView)
  }

  /** Back after navigating to another view returns to the calculator; after navigating to the calculator it exits. */
  lemma BackAfterNavigate(n: Nav, view: string)
    ensures view != CalculatorView ==>
      Back(Navigated(n, view)) == BackOutcome(Nav(false, CalculatorView, None), false)
    ensures view == CalculatorView ==> Back(Navigated(n, view)).exit
  {
  }

  /** With the sidebar closed, back after selecting a history entry leaves the app and keeps the selection. */
  lemma BackAfterSelect(n: Nav, c: Calculation)
    requires !n.isSidebarOpen
    ensures Back(SelectItem(n, c)) == BackOutcome(SelectItem(n, c), true)
  {
  }

  // ---------------------------------------------------------------------------
  // Edge swipe
  // ---------------------------------------------------------------------------

  function Abs(d: real): (r: real)
    ensures r >= 0.0 && (r == d || r == -d)
  {
    if d < 0.0 then -d else d
  }

  /** The swipe test of handleTouchEnd. */
  predicate OpensSidebar(startX: real, startY: real, endX: real, endY: real)
  {
    var xDiff := endX - startX;
    startX < 40.0 && xDiff > 50.0 && xDiff > Abs(endY - startY) * 2.0
  }

  /** Only a swipe from the left edge, rightwards by more than 50 and mostly horizontal, opens the sidebar. */
  lemma SwipeNeeds(startX: real, startY: real, endX: real, endY: real)
    ensures startX >= 40.0 ==> !OpensSidebar(startX, startY, endX, endY)
    ensures endX - startX <= 50.0 ==> !OpensSidebar(startX, startY, endX, endY)
    ensures Abs(endY - startY) * 2.0 >= endX - startX ==> !OpensSidebar(startX, startY, endX, endY)
    ensures startX < 40.0 && endX - startX > 50.0 && endY == startY ==> OpensSidebar(startX, startY, endX, endY)
  {
  }

  /** Swiping further to the right never turns an opening swipe into one that does not open. */
  lemma SwipeMonotone(startX: real, startY: real, endX: real, endY: real, further: real)
    requires OpensSidebar(startX, startY, endX, endY) && further >= endX
    ensures OpensSidebar(startX, startY, further, endY)
  {
  }

  // ---------------------------------------------------------------------------
  // The App component
  // ---------------------------------------------------------------------------

  class App {
    var history: seq<Calculation>
    var theme: string
    var isSidebarOpen: bool
    var activeOverlay: string
    var selectedCalc: Option<Calculation>
    /** The locals of the gesture effect: where the current touch started. */
    var touchStartX: real
    var touchStartY: real

    function Navigation(): Nav
      reads this
    {
      Nav(isSidebarOpen, activeOverlay, selectedCalc)
    }

    /** The state on mount; the saved history and theme are passed in. */
    constructor(savedHistory: seq<Calculation>, savedTheme: string)
      ensures history == savedHistory && theme == savedTheme
      ensures Navigation() == Nav(false, CalculatorView, None)
      ensures touchStartX == 0.0 && touchStartY == 0.0
    {
      history := savedHistory;
      theme := savedTheme;
      isSidebarOpen := false;
      activeOverlay := CalculatorView;
      selectedCalc := None;
      touchStartX := 0.0;
      touchStartY := 0.0;
    }

    method HandleNewCalculation(c: Calculation)
      modifies this
      ensures history == PushHistory(old(history), c)
      ensures theme == old(theme) && Navigation() == old(Navigation())
      ensures touchStartX == old(touchStartX) && touchStartY == old(touchStartY)
    {
      history := PushHistory(history, c);
    }

    method ClearHistory()
      modifies this
      ensures history == []
      ensures theme == old(theme) && Navigation() == old(Navigation())
      ensures touchStartX == old(touchStartX) && touchStartY == old(touchStartY)
    {
      history := [];
    }

    method HandleSelectHistoryItem(c: Calculation)
      modifies this
      ensures Navigation() == SelectItem(old(Navigation()), c)
      ensures history == old(history) && theme == old(theme)
      ensures touchStartX == old(touchStartX) && touchStartY == old(touchStartY)
    {
      selectedCalc := Some(c);
      activeOverlay := CalculatorView;
    }

    method ToggleTheme()
      modifies this
      ensures theme == NextTheme(old(theme))
      ensures history == old(history) && Navigation() == old(Navigation())
      ensures touchStartX == old(touchStartX) && touchStartY == old(touchStartY)
    {
      theme := if theme == Dark then Light else Dark;
    }

    /** The back-button listener; `exit` stands for the call to exitApp. */
    method BackButton() returns (exit: bool)
      modifies this
      ensures BackOutcome(Navigation(), exit) == Back(old(Navigation()))
      ensures history == old(history) && theme == old(theme)
      ensures touchStartX == old(touchStartX) && touchStartY == old(touchStartY)
    {
      exit := false;
      if isSidebarOpen {
        isSidebarOpen := false;
      } else if activeOverlay != CalculatorView {
        activeOverlay := CalculatorView;
        selectedCalc := None;
      } else {
        exit := true;
      }
    }

    method TouchStart(x: real, y: real)
      modifies this
      ensures touchStartX == x && touchStartY == y
      ensures history == old(history) && theme == old(theme) && Navigation() == old(Navigation())
    {
      touchStartX := x;
      touchStartY := y;
    }

    /** handleTouchEnd: open the sidebar on an edge swipe; never close it. */
    method TouchEnd(x: real, y: real)
      modifies this
      ensures isSidebarOpen == (old(isSidebarOpen) || OpensSidebar(touchStartX, touchStartY, x, y))
      ensures activeOverlay == old(activeOverlay) && selectedCalc == old(selectedCalc)
      ensures history == old(history) && theme == old(theme)
      ensures touchStartX == old(touchStartX) && touchStartY == old(touchStartY)
    {
      var xDiff := x - touchStartX;
      var yDiff := Abs(y - touchStartY);
      if touchStartX < 40.0 && xDiff > 50.0 && xDiff > yDiff * 2.0 {
        isSidebarOpen := true;
      }
    }

    /** The sidebar's onNavigate callback. */
    method Navigate(view: string)
      modifies this
      ensures Navigation() == Navigated(old(Navigation()), view)
      ensures history == old(history) && theme == old(theme)
      ensures touchStartX == old(touchStartX) && touchStartY == old(touchStartY)
    {
      activeOverlay := view;
      isSidebarOpen := false;
      if view == CalculatorView {
        selectedCalc := None;
      }
    }
  }
}
