// The tab manager of the editor page: the set of open tabs, the active-tab
// variable, the tab bar, and which content pane, tab-bar entry and sidebar file
// carry the "active" mark. The document is abstracted to identifiers: an
// element is named by the tab id it belongs to.
module Tabs {
  import opened TabFiles

  // ---------------------------------------------------------------------------
  // Insertion-ordered sets of tab ids
  // ---------------------------------------------------------------------------

  predicate Distinct(s: seq<string>)
  {
    forall i, j :: 0 <= i < j < |s| ==> s[i] != s[j]
  }

  /** Set.prototype.add on an insertion-ordered set, and appending a tab-bar
      entry only when none exists: an absent id goes to the end, a present one
      stays where it is. */
  function Insert(s: seq<string>, x: string): (r: seq<string>)
    ensures x in r
    ensures forall y :: y in r <==> y in s || y == x
    ensures |s| <= |r| && r[..|s|] == s
    ensures x in s ==> r == s
    ensures Distinct(s) ==> Distinct(r)
  {
    if x in s then s else s + [x]
  }

  /** Set.prototype.delete, and removing one element from the tab bar: the
      other ids keep their relative order. */
  function Remove(s: seq<string>, x: string): (r: seq<string>)
    ensures forall y :: y in r <==> y in s && y != x
    ensures |r| <= |s|
    ensures x !in s ==> r == s
    ensures Distinct(s) ==> Distinct(r)
  {
    if s == [] then []
    else if s[0] == x then Remove(s[1..], x)
    else
      var rest := Remove(s[1..], x);
      DistinctCons(s, rest);
      [s[0]] + rest
  }

  /** Putting back the head of a duplicate-free sequence in front of any
      duplicate-free selection of its tail keeps it duplicate-free. */
  lemma DistinctCons(s: seq<string>, t: seq<string>)
    requires s != [] && forall y :: y in t ==> y in s[1..]
    ensures Distinct(s) && Distinct(t) ==> Distinct([s[0]] + t)
  {
    if Distinct(s) && Distinct(t) {
      assert s[0] !in s[1..];
      forall i, j | 0 <= i < j < |[s[0]] + t|
        ensures ([s[0]] + t)[i] != ([s[0]] + t)[j]
      {
        if i == 0 {
          assert ([s[0]] + t)[j] == t[j - 1];
        }
      }
    }
  }

  /** When the element at position k occurs nowhere else, removing it closes
      the gap and leaves the others in order. */
  lemma {:induction false} RemoveAt(s: seq<string>, k: nat)
    requires k < |s| && forall i :: 0 <= i < |s| && i != k ==> s[i] != s[k]
    ensures Remove(s, s[k]) == s[..k] + s[k + 1..]
  {
    if k == 0 {
      assert s[0] !in s[1..];
      assert s[1..] == s[..0] + s[1..];
    } else {
      var t := s[1..];
      assert t[k - 1] == s[k] && s[0] != s[k];
      forall i | 0 <= i < |t| && i != k - 1
        ensures t[i] != t[k - 1]
      {
        assert t[i] == s[i + 1];
      }
      RemoveAt(t, k - 1);
      assert Remove(s, s[k]) == [s[0]] + Remove(t, s[k]);
      assert t[..k - 1] == s[1..k] && t[k..] == s[k + 1..];
      assert s[..k] == [s[0]] + s[1..k];
    }
  }

  /** What "the last remaining entry" is after one entry of a duplicate-free
      sequence of two or more is removed: the old last entry, unless that was
      the removed one, in which case the one before it. */
  lemma LastRemaining(s: seq<string>, x: string)
    requires Distinct(s) && x in s && |s| >= 2
    ensures |Remove(s, x)| == |s| - 1
    ensures Remove(s, x)[|s| - 2] == if s[|s| - 1] == x then s[|s| - 2] else s[|s| - 1]
  {
    var k :| 0 <= k < |s| && s[k] == x;
    RemoveAt(s, k);
  }

  // ---------------------------------------------------------------------------
  // The page, as plain values
  // ---------------------------------------------------------------------------

  /** The parts of the markup the manager looks up by id: the tabs that have a
      content pane ("tab-" + id) and the tabs that have a sidebar file entry. */
  datatype Markup = Markup(panes: set<string>, sidebarFiles: set<string>)

  /** A markup in which every tab of the table has its pane and sidebar entry. */
  const EveryTab: Markup := Markup(TabFileMap.Keys, TabFileMap.Keys)

  /** One snapshot of the tab manager's state and of the document it drives. */
  datatype Page = Page(
    openTabs: seq<string>,      // the openTabs Set, in insertion order
    activeTab: string,          // the activeTab variable
    tabBar: seq<string>,        // the ids of the tab-bar entries, in document order
    barActive: set<string>,     // tab-bar entries that carry "active"
    paneActive: set<string>,    // content panes that carry "active"
    sidebarActive: set<string>, // sidebar file entries that carry "active"
    breadcrumb: string,         // text of the breadcrumb file name
    statusFileType: string)     // text of the status-bar language label

  /** What holds of every state the two operations can produce: no id twice,
      every id known to the table, and marks only on elements that exist. */
  predicate WellFormed(m: Markup, p: Page)
  {
    && Distinct(p.openTabs) && Distinct(p.tabBar)
    && (forall x :: x in p.openTabs ==> x in TabFileMap)
    && (forall x :: x in p.tabBar ==> x in TabFileMap)
    && p.activeTab in TabFileMap
    && (forall x :: x in p.barActive ==> x in p.tabBar)
    && p.paneActive <= m.panes
    && p.sidebarActive <= m.sidebarFiles
  }

  /** The elements of `elements` that should be marked in p: the active tab's
      own, while it is open, and nothing otherwise. */
  function Highlighted(p: Page, elements: set<string>): set<string>
  {
    if p.activeTab in p.openTabs && p.activeTab in elements then {p.activeTab} else {}
  }

  /** The invariant of every state the user interface can reach: the tab bar
      lists exactly the open tabs in insertion order, activeTab names an open
      tab while any is open, only the active tab's elements are marked, and
      the breadcrumb and status bar describe the active tab. */
  predicate Consistent(m: Markup, p: Page)
  {
    && WellFormed(m, p)
    && p.tabBar == p.openTabs
    && (p.openTabs != [] ==> p.activeTab in p.openTabs)
    && p.barActive == (if p.activeTab in p.openTabs then {p.activeTab} else {})
    && p.paneActive == Highlighted(p, m.panes)
    && p.sidebarActive == Highlighted(p, m.sidebarFiles)
    && p.breadcrumb == TabFileMap[p.activeTab].file
    && p.statusFileType == TabFileMap[p.activeTab].fileType
  }

  /** The page as it is loaded: "about" is the one open tab, shown and marked. */
  function Initial(m: Markup): (p: Page)
    ensures Consistent(m, p)
    ensures p.openTabs == ["about"] && p.activeTab == "about"
  {
    Page(["about"], "about", ["about"], {"about"},
         if "about" in m.panes then {"about"} else {},
         if "about" in m.sidebarFiles then {"about"} else {},
         TabFileMap["about"].file, TabFileMap["about"].fileType)
  }

  /** The state openTab(id) leaves behind. */
  function Opened(m: Markup, p: Page, id: string): (r: Page)
    requires WellFormed(m, p) && id in TabFileMap
    ensures WellFormed(m, r)
    ensures id in r.openTabs && id in r.tabBar && r.activeTab == id
    ensures forall y :: y in r.openTabs <==> y in p.openTabs || y == id
    ensures r.breadcrumb == TabFileMap[id].file && r.statusFileType == TabFileMap[id].fileType
    // exactly one tab-bar entry is marked, and at most one pane and one
    // sidebar entry: in each case the one of id
    ensures r.barActive == {id}
    ensures r.paneActive <= {id} && (id in m.panes <==> id in r.paneActive)
    ensures r.sidebarActive <= {id} && (id in m.sidebarFiles <==> id in r.sidebarActive)
    // a new id goes to the end of the insertion order; re-opening appends nothing
    ensures id !in p.openTabs ==> r.openTabs == p.openTabs + [id]
    ensures id in p.openTabs ==> r.openTabs == p.openTabs
    ensures id in p.tabBar ==> r.tabBar == p.tabBar
    ensures id !in p.tabBar ==> r.tabBar == p.tabBar + [id]
  {
    Page(Insert(p.openTabs, id), id, Insert(p.tabBar, id), {id},
         if id in m.panes then {id} else {},
         if id in m.sidebarFiles then {id} else {},
         TabFileMap[id].file, TabFileMap[id].fileType)
  }

  /** The state closeTab(id, element) leaves behind; removeEntry says that a
      tab-bar element was passed in and is removed. */
  function Closed(m: Markup, p: Page, id: string, removeEntry: bool): (r: Page)
    requires WellFormed(m, p)
    ensures WellFormed(m, r)
    ensures r.openTabs == Remove(p.openTabs, id)
    ensures forall y :: y in r.openTabs <==> y in p.openTabs && y != id
    ensures removeEntry ==> id !in r.tabBar
    ensures id !in r.paneActive && id !in r.sidebarActive
    ensures removeEntry ==> id !in r.barActive
  {
    var open := Remove(p.openTabs, id);
    var q := p.(openTabs := open,
                tabBar := if removeEntry then Remove(p.tabBar, id) else p.tabBar,
                barActive := if removeEntry then p.barActive - {id} else p.barActive,
                paneActive := p.paneActive - {id});
    var s := if p.activeTab == id && |open| > 0 then Opened(m, q, open[|open| - 1]) else q;
    s.(sidebarActive := s.sidebarActive - {id})
  }

  // ---------------------------------------------------------------------------
  // Properties of the two operations
  // ---------------------------------------------------------------------------

  /** Closing a tab other than the active one leaves activeTab, the breadcrumb
      and the status bar as they were, and changes the tab bar and its marks
      only by the closed tab's element. */
  lemma CloseInactive(m: Markup, p: Page, id: string, removeEntry: bool)
    requires WellFormed(m, p) && p.activeTab != id
    ensures var r := Closed(m, p, id, removeEntry);
            && r.activeTab == p.activeTab
            && r.breadcrumb == p.breadcrumb && r.statusFileType == p.statusFileType
            && r.tabBar == (if removeEntry then Remove(p.tabBar, id) else p.tabBar)
            && r.barActive == (if removeEntry then p.barActive - {id} else p.barActive)
            && r.paneActive == p.paneActive - {id}
            && r.sidebarActive == p.sidebarActive - {id}
  {
  }

  /** Closing the active tab with others left activates the last one left in
      insertion order, and its elements alone are marked. */
  lemma CloseActiveWithOthersLeft(m: Markup, p: Page, id: string, removeEntry: bool)
    requires WellFormed(m, p) && p.activeTab == id && Remove(p.openTabs, id) != []
    ensures var r := Closed(m, p, id, removeEntry);
            && r.openTabs != []
            && r.activeTab == r.openTabs[|r.openTabs| - 1]
            && r.barActive == {r.activeTab}
            && r.paneActive == (if r.activeTab in m.panes then {r.activeTab} else {})
            && r.sidebarActive == (if r.activeTab in m.sidebarFiles then {r.activeTab} else {})
            && r.breadcrumb == TabFileMap[r.activeTab].file
            && r.statusFileType == TabFileMap[r.activeTab].fileType
  {
    var open := Remove(p.openTabs, id);
    assert open[|open| - 1] in open;
  }

  /** Closing the active tab with none left keeps the stale activeTab and
      activates nothing. */
  lemma CloseActiveWithNoneLeft(m: Markup, p: Page, id: string, removeEntry: bool)
    requires WellFormed(m, p) && p.activeTab == id && Remove(p.openTabs, id) == []
    ensures var r := Closed(m, p, id, removeEntry);
            && r.activeTab == id
            && r.tabBar == (if removeEntry then Remove(p.tabBar, id) else p.tabBar)
            && r.barActive == (if removeEntry then p.barActive - {id} else p.barActive)
            && r.paneActive == p.paneActive - {id}
            && r.sidebarActive == p.sidebarActive - {id}
  {
  }

  /** closeTab keeps every other tab-bar entry, in order, and without an
      element it keeps the closed tab's entry as well; the only entry it may
      append is that of the tab it activates. */
  lemma ClosedKeepsOtherEntries(m: Markup, p: Page, id: string, removeEntry: bool)
    requires WellFormed(m, p)
    ensures var r := Closed(m, p, id, removeEntry);
            var kept := if removeEntry then Remove(p.tabBar, id) else p.tabBar;
            && |kept| <= |r.tabBar| && r.tabBar[..|kept|] == kept
            && (forall y :: y in r.tabBar <==> y in kept || (y == r.activeTab && y != p.activeTab))
    ensures !removeEntry ==> forall y :: y in p.tabBar ==> y in Closed(m, p, id, removeEntry).tabBar
  {
    var r := Closed(m, p, id, removeEntry);
    var kept := if removeEntry then Remove(p.tabBar, id) else p.tabBar;
    var open := Remove(p.openTabs, id);
    if p.activeTab == id && |open| > 0 {
      assert r.tabBar == Insert(kept, open[|open| - 1]);
    } else {
      assert r.tabBar == kept;
    }
  }

  /** Opening a tab twice in a row is the same as opening it once. */
  lemma OpenIdempotent(m: Markup, p: Page, id: string)
    requires WellFormed(m, p) && id in TabFileMap
    ensures Opened(m, Opened(m, p, id), id) == Opened(m, p, id)
  {
  }

  lemma OpenedKeepsConsistent(m: Markup, p: Page, id: string)
    requires Consistent(m, p) && id in TabFileMap
    ensures Consistent(m, Opened(m, p, id))
  {
  }

  lemma ClosedKeepsConsistent(m: Markup, p: Page, id: string)
    requires Consistent(m, p)
    ensures Consistent(m, Closed(m, p, id, true))
  {
    var r := Closed(m, p, id, true);
    var open := Remove(p.openTabs, id);
    if p.activeTab == id && |open| > 0 {
      assert open[|open| - 1] in open;
    } else if p.activeTab != id && open != [] {
      assert p.activeTab in p.openTabs;
    }
  }

  /** Closing the active tab when at least two tabs are open activates the last
      tab left in insertion order: the newest-inserted one, or, when the tab
      closed was that one, the one inserted just before it. */
  lemma CloseActiveActivatesLastLeft(m: Markup, p: Page, id: string)
    requires Consistent(m, p) && p.activeTab == id && |p.openTabs| >= 2
    ensures var r := Closed(m, p, id, true);
            var n := |p.openTabs|;
            && r.activeTab == (if p.openTabs[n - 1] == id then p.openTabs[n - 2] else p.openTabs[n - 1])
            && r.activeTab in r.openTabs && r.tabBar == r.openTabs
            && r.barActive == {r.activeTab}
            && r.paneActive == (if r.activeTab in m.panes then {r.activeTab} else {})
            && r.sidebarActive == (if r.activeTab in m.sidebarFiles then {r.activeTab} else {})
            && r.statusFileType == TabFileMap[r.activeTab].fileType
  {
    assert id in p.openTabs;
    LastRemaining(p.openTabs, id);
    ClosedKeepsConsistent(m, p, id);
    var r := Closed(m, p, id, true);
    assert r.activeTab == Remove(p.openTabs, id)[|p.openTabs| - 2];
  }

  /** Closing the only open tab empties the tab bar and leaves no pane, tab or
      sidebar entry marked, while activeTab keeps naming the closed tab. */
  lemma CloseLastTab(m: Markup, p: Page, id: string)
    requires Consistent(m, p) && p.openTabs == [id]
    ensures var r := Closed(m, p, id, true);
            && r.openTabs == [] && r.tabBar == []
            && r.activeTab == id
            && r.barActive == {} && r.paneActive == {} && r.sidebarActive == {}
  {
    assert p.activeTab == id;
  }

  // ---------------------------------------------------------------------------
  // Sequences of clicks
  // ---------------------------------------------------------------------------

  /** What the user can do: click a sidebar file or a tab (both call openTab),
      or click a tab's close button (closeTab with that tab's element). */
  datatype Click = Open(id: string) | Close(id: string)

  predicate KnownIds(cs: seq<Click>)
  {
    forall i :: 0 <= i < |cs| ==> cs[i].id in TabFileMap
  }

  function Apply(m: Markup, p: Page, c: Click): (r: Page)
    requires WellFormed(m, p) && c.id in TabFileMap
    ensures WellFormed(m, r)
  {
    match c
    case Open(id) => Opened(m, p, id)
    case Close(id) => Closed(m, p, id, true)
  }

  function Run(m: Markup, p: Page, cs: seq<Click>): (r: Page)
    requires WellFormed(m, p) && KnownIds(cs)
    ensures WellFormed(m, r)
    decreases |cs|
  {
    if cs == [] then p else Run(m, Apply(m, p, cs[0]), cs[1..])
  }

  lemma {:induction false} RunKeepsConsistent(m: Markup, p: Page, cs: seq<Click>)
    requires Consistent(m, p) && KnownIds(cs)
    ensures Consistent(m, Run(m, p, cs))
    decreases |cs|
  {
    if cs != [] {
      match cs[0] {
        case Open(id) => OpenedKeepsConsistent(m, p, id);
        case Close(id) => ClosedKeepsConsistent(m, p, id);
      }
      RunKeepsConsistent(m, Apply(m, p, cs[0]), cs[1..]);
    }
  }

  /** From the page as loaded, every sequence of clicks keeps activeTab on an
      open tab while any is open and the tab bar equal to the open tabs. */
  lemma Reachable(m: Markup, cs: seq<Click>)
    requires KnownIds(cs)
    ensures var r := Run(m, Initial(m), cs);
            && (r.openTabs != [] ==> r.activeTab in r.openTabs)
            && r.tabBar == r.openTabs
            && Consistent(m, r)
  {
    RunKeepsConsistent(m, Initial(m), cs);
  }

  /** Activating a tab again does not move it in the insertion order: after
      opening skills and projects, re-activating skills and then opening and
      closing about, the tab that becomes active is projects, the last one
      inserted, not skills, the one active most recently. */
  lemma ReactivationKeepsInsertionOrder()
    ensures var r := Run(EveryTab, Initial(EveryTab),
                         [Open("skills"), Open("projects"), Open("skills"), Open("about"), Close("about")]);
            && r.openTabs == ["skills", "projects"]
            && r.activeTab == "projects"
  {
    var m := EveryTab;
    var p1 := Opened(m, Initial(m), "skills");
    assert p1.openTabs == ["about", "skills"];
    var p2 := Opened(m, p1, "projects");
    assert p2.openTabs == ["about", "skills", "projects"];
    var p3 := Opened(m, p2, "skills");
    var p4 := Opened(m, p3, "about");
    assert p4.openTabs == ["about", "skills", "projects"];
    assert Remove(p4.openTabs, "about") == ["skills", "projects"];
  }

  // ---------------------------------------------------------------------------
  // The manager, with the state the script keeps in module-level variables
  // ---------------------------------------------------------------------------

  class TabManager {
    const markup: Markup
    var openTabs: seq<string>
    var activeTab: string
    var tabBar: seq<string>
    var barActive: set<string>
    var paneActive: set<string>
    var sidebarActive: set<string>
    var breadcrumb: string
    var statusFileType: string

    function View(): Page
      reads this
    {
      Page(openTabs, activeTab, tabBar, barActive, paneActive, sidebarActive, breadcrumb, statusFileType)
    }

    predicate Valid()
      reads this
    {
      WellFormed(markup, View())
    }

    /** The page as loaded on markup m. */
    constructor (m: Markup)
      ensures markup == m && Valid() && View() == Initial(m)
    {
      markup := m;
      openTabs, activeTab, tabBar := ["about"], "about", ["about"];
      barActive := {"about"};
      paneActive := if "about" in m.panes then {"about"} else {};
      sidebarActive := if "about" in m.sidebarFiles then {"about"} else {};
      breadcrumb, statusFileType := TabFileMap["about"].file, TabFileMap["about"].fileType;
    }

    /** The three forEach loops of openTab: every tab-bar entry, content pane
        and sidebar file loses its "active" mark. */
    method DeactivateAll()
      requires Valid()
      modifies this
      ensures Valid()
      ensures View() == old(View()).(barActive := {}, paneActive := {}, sidebarActive := {})
    {
      var i := 0;
      while i < |tabBar|
        invariant 0 <= i <= |tabBar|
        invariant barActive <= old(barActive)
        invariant forall k :: 0 <= k < i ==> tabBar[k] !in barActive
        invariant View() == old(View()).(barActive := barActive)
      {
        barActive := barActive - {tabBar[i]};
        i := i + 1;
      }
      var panes := markup.panes;
      while panes != {}
        invariant paneActive <= panes
        invariant View() == old(View()).(barActive := {}, paneActive := paneActive)
        decreases panes
      {
        var x :| x in panes;
        paneActive := paneActive - {x};
        panes := panes - {x};
      }
      var files := markup.sidebarFiles;
      while files != {}
        invariant sidebarActive <= files
        invariant View() == old(View()).(barActive := {}, paneActive := {}, sidebarActive := sidebarActive)
        decreases files
      {
        var x :| x in files;
        sidebarActive := sidebarActive - {x};
        files := files - {x};
      }
    }

    /** openTab(id, fileElement); fromSidebar says that the clicked sidebar
        entry of id was passed in. */
    method OpenTab(id: string, fromSidebar: bool)
      requires Valid() && id in TabFileMap
      requires fromSidebar ==> id in markup.sidebarFiles
      modifies this
      ensures Valid()
      ensures View() == Opened(markup, old(View()), id)
      ensures Consistent(markup, old(View())) ==> Consistent(markup, View())
    {
      ghost var before := View();
      AddOpen(id);
      DeactivateAll();
      MarkContent(id, fromSidebar);
      ShowTab(id);
      ShowStatus(id);
      assert View() == Opened(markup, before, id);
      assert WellFormed(markup, View());
      if Consistent(markup, before) {
        OpenedKeepsConsistent(markup, before, id);
      }
    }

    /** The first step of openTab: id joins the open set. */
    method AddOpen(id: string)
      requires Valid() && id in TabFileMap
      modifies this
      ensures Valid()
      ensures View() == old(View()).(openTabs := Insert(old(openTabs), id))
    {
      openTabs := Insert(openTabs, id);
    }

    /** The content pane of id, when there is one, and its sidebar entry get
        the mark; the entry is the clicked one when fromSidebar holds and is
        looked up by id otherwise. */
    method MarkContent(id: string, fromSidebar: bool)
      requires fromSidebar ==> id in markup.sidebarFiles
      modifies this
      ensures View() == old(View()).(
                paneActive := old(paneActive) + (if id in markup.panes then {id} else {}),
                sidebarActive := old(sidebarActive) + (if id in markup.sidebarFiles then {id} else {}))
    {
      if id in markup.panes {
        paneActive := paneActive + {id};
      }
      if fromSidebar {
        sidebarActive := sidebarActive + {id};
      } else if id in markup.sidebarFiles {
        sidebarActive := sidebarActive + {id};
      }
    }

    /** The tab-bar entry of id is created when the bar has none, then marked,
        and id becomes the active tab. */
    method ShowTab(id: string)
      modifies this
      ensures View() == old(View()).(tabBar := Insert(old(tabBar), id),
                                     barActive := old(barActive) + {id},
                                     activeTab := id)
    {
      if id !in tabBar {
        tabBar := tabBar + [id];
      }
      barActive := barActive + {id};
      activeTab := id;
    }

    /** The breadcrumb and the status bar describe id. */
    method ShowStatus(id: string)
      requires id in TabFileMap
      modifies this
      ensures View() == old(View()).(breadcrumb := TabFileMap[id].file,
                                     statusFileType := TabFileMap[id].fileType)
    {
      breadcrumb := TabFileMap[id].file;
      statusFileType := TabFileMap[id].fileType;
    }

    /** closeTab(id, tabElement); removeEntry says that the tab-bar element
        was passed in (it is null when closeTab is called without one). */
    method CloseTab(id: string, removeEntry: bool)
      requires Valid()
      modifies this
      ensures Valid()
      ensures View() == Closed(markup, old(View()), id, removeEntry)
      ensures removeEntry && Consistent(markup, old(View())) ==> Consistent(markup, View())
    {
      ghost var before := View();
      Forget(id, removeEntry);
      ghost var mid := View();
      if activeTab == id {
        var remaining := openTabs;
        if |remaining| > 0 {
          OpenTab(remaining[|remaining| - 1], false);
        }
      }
      Unmark(id);
      assert View() == Closed(markup, before, id, removeEntry);
      if removeEntry && Consistent(markup, before) {
        ClosedKeepsConsistent(markup, before, id);
      }
    }

    /** The last step of closeTab: the sidebar entry of id loses the mark. */
    method Unmark(id: string)
      requires Valid()
      modifies this
      ensures Valid()
      ensures View() == old(View()).(sidebarActive := old(sidebarActive) - {id})
    {
      sidebarActive := sidebarActive - {id};
    }

    /** The first half of closeTab: id leaves the open set, its tab-bar
        element (when passed in) leaves the bar, and its pane loses the mark. */
    method Forget(id: string, removeEntry: bool)
      requires Valid()
      modifies this
      ensures Valid()
      ensures View() == old(View()).(
                openTabs := Remove(old(openTabs), id),
                tabBar := if removeEntry then Remove(old(tabBar), id) else old(tabBar),
                barActive := if removeEntry then old(barActive) - {id} else old(barActive),
                paneActive := old(paneActive) - {id})
    {
      openTabs := Remove(openTabs, id);
      if removeEntry {
        tabBar := Remove(tabBar, id);
        barActive := barActive - {id};
      }
      paneActive := paneActive - {id};
    }
  }

  /** The worked example of the page: opening skills from the sidebar of the
      freshly loaded page, then closing it with its close button. */
  method OpenThenCloseSkills() returns (openedTabs: seq<string>, active: string, crumb: string, fileType: string,
                                        closed: seq<string>, fallback: string, bar: seq<string>)
    ensures openedTabs == ["about", "skills"] && active == "skills"
    ensures crumb == "skills.json" && fileType == "JSON"
    ensures closed == ["about"] && fallback == "about" && bar == ["about"]
  {
    var tm := new TabManager(EveryTab);
    tm.OpenTab("skills", true);
    openedTabs, active, crumb, fileType := tm.openTabs, tm.activeTab, tm.breadcrumb, tm.statusFileType;
    assert Remove(["about", "skills"], "skills") == ["about"] by {
      assert Remove(["about", "skills"][1..], "skills") == [];
    }
    tm.CloseTab("skills", true);
    closed, fallback, bar := tm.openTabs, tm.activeTab, tm.tabBar;
  }
}
