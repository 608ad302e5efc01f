# Editor-style portfolio page: tab manager and typewriters

The page script `index.js` drives a static portfolio page made to look like a
code editor. This project models its three small state machines with the
document reduced to plain state:

- the **tab manager** (`openTab` / `closeTab`): the insertion-ordered set of
  open tabs, the activeTab variable, the tab bar, the "active" marks on content
  panes, tab-bar entries and sidebar files, and the breadcrumb and status-bar
  texts, over the constant tab table `tabFileMap`;
- the **hero typewriter** (`typeHero`), which types, pauses on, deletes and
  cycles through five phrases;
- the **terminal typewriter** (`typeTerminal`), which reveals, pauses on,
  clears and cycles through five commands;
- the **layout toggles**: sidebar sections, the terminal panel and the
  activity-bar rule for showing the sidebar.

Files and modules:

- `js_text.dfy`, module `JsText`: JavaScript's `String.prototype.substring`
  (its clamping and swapping of the bounds) and JavaScript's `%` operator.
- `tab_files.dfy`, module `TabFiles`: `tabFileMap` as a `map<string, Info>`.
- `tabs.dfy`, module `Tabs`: the state as a `Page` value, with `Opened` and
  `Closed` giving the state each operation leaves behind, and the lemmas about
  them. The class `TabManager` holds the script's variables as fields. Its
  methods `OpenTab` and `CloseTab` change them step by step and are proved to
  end in the state that `Opened` and `Closed` give.
- `hero.dfy`, module `HeroTyping` and `terminal.dfy`, module `TerminalTyping`:
  each timer callback is one step. A step returns the new variables, including
  the element's text, and the `Timer(delay, callback)` it sets. `Run` chains
  the callbacks in order. The classes `HeroTyper` and `TerminalTyper` hold the
  variables as fields. Their methods are proved equal to the steps.
- `panels.dfy`, module `Panels`: the chevron classes, the sidebar display rule,
  and the class `Workbench` with the three toggle handlers.

Abstraction of the document. An element is named by the tab id it belongs to.
The tab bar is the sequence of the ids of its entries, in document order. A
class list is reduced to the set of ids whose element carries "active". Which
tabs have a content pane and which have a sidebar entry is given by a `Markup`
value, because the markup is not part of this model. The element arguments of
the two operations become flags: `fromSidebar` (openTab's `fileElement`, the
sidebar entry of the same id) and `removeEntry` (closeTab's `tabElement`, which
may be null). A tab-bar entry's label and icon are not stored. They are
`TabFileMap[id].file` and `.icon` of its id.

The initial page is assumed to have one tab-bar entry, `about`, marked active,
with its pane and sidebar entry marked and the breadcrumb and status bar
showing `about.html` and `HTML` (`Tabs.Initial`). The script itself only sets
the variables (index.js:17-18).

Two points where a natural description of the page and its code differ; the
model follows the code:

- When the active tab is closed, the code (index.js:90-92) re-opens the
  *last element of the open set in insertion order*, which is not always the
  "most recently opened remaining" tab. `Set.add` on a member does not move it
  (index.js:23), so re-activating an older tab does not make it last.
  `Tabs.ReactivationKeepsInsertionOrder` shows a sequence of clicks where the
  two readings pick different tabs.
- Unknown ids are not silently ignored. The lookups
  `tabFileMap[tabId]` (index.js:47, 66) are unguarded, so `openTab` of an id
  outside the table throws. The model requires the id to be in the table.

## Model

| member | source | states |
|---|---|---|
| `TabFiles.TableContents` | index.js:6-14 | the table has seven entries; `about` is `about.html`/`HTML` and `skills` is `skills.json`/`JSON` |
| `JsText.Clamp` | index.js:151 | substring's bound clamping: result in `[0, len]`, equal to the argument when it is in range, 0 below and len above |
| `JsText.Substring` | index.js:151 | at most the string's length; the slice `s[start..end]` for in-range bounds; for start 0, a prefix of length `min(end, len)` |
| `JsText.Remainder` | index.js:165 | JavaScript `%`: the sign follows the dividend and it agrees with Dafny's `%` on non-negative dividends |
| `JsText.RemainderOfNegation` | index.js:165 | negating the dividend negates the remainder, which with the non-negative case fixes the value for every dividend |
| `Tabs.Insert` | index.js:23 | `Set.add`: the id is a member afterwards, the old order is a prefix of the new, a present id changes nothing, no duplicates are introduced |
| `Tabs.Remove` | index.js:78 | `Set.delete`: exactly the other members remain, nothing is added, a missing id changes nothing, no duplicates are introduced |
| `Tabs.RemoveAt` | index.js:78 | when the element at position k occurs nowhere else in the list, removing it gives `s[..k] + s[k+1..]`, so the others keep their order |
| `Tabs.LastRemaining` | index.js:90-92 | after removing one member of a duplicate-free list of two or more, the last element left is the old last one, or the one before it if that was removed |
| `Tabs.Initial` | index.js:17-18 | the page as loaded: `openTabs = ["about"]`, `activeTab = "about"`, and it satisfies the reachable-state invariant |
| `Tabs.Opened` | index.js:21-74 | after openTab(id): id is open and in the tab bar and is the active tab; breadcrumb and status bar show its file name and type; exactly its tab-bar entry is marked, and its pane and sidebar entry exactly when they exist; a new id goes to the end of the open list (insertion order); re-opening an open id leaves the open list and the tab bar unchanged; a new id appends one tab-bar entry |
| `Tabs.Closed` | index.js:77-99 | after closeTab(id): id is no longer open and the others stay in order, its pane and sidebar entry are unmarked, and with an element its bar entry and its mark are gone |
| `Tabs.CloseInactive` | index.js:77-99 | closing a tab that is not active leaves activeTab, breadcrumb and status bar as they were; the tab bar and its marks lose the closed tab's entry with an element and are unchanged without one; the pane and sidebar entry of id are unmarked |
| `Tabs.CloseActiveWithOthersLeft` | index.js:88-94 | closing the active tab with others left activates the last one left; exactly its tab-bar entry is marked, its pane and sidebar entry exactly when they exist, and breadcrumb and status bar describe it |
| `Tabs.CloseActiveWithNoneLeft` | index.js:88-94 | closing the active tab with none left keeps the stale activeTab; the tab bar and its marks change only by the closed tab's element, and its pane and sidebar entry are unmarked |
| `Tabs.ClosedKeepsOtherEntries` | index.js:77-99 | closeTab keeps every other tab-bar entry in order, and without an element keeps the closed tab's entry too; the only entry it may add is that of the tab it activates |
| `Tabs.OpenIdempotent` | index.js:21-74 | opening the same tab twice in a row gives the same state as opening it once |
| `Tabs.OpenedKeepsConsistent` | index.js:21-74 | openTab preserves the invariant: bar equals the open list in insertion order, activeTab is open while any tab is open, only the active tab's elements are marked, status texts describe the active tab |
| `Tabs.ClosedKeepsConsistent` | index.js:77-99 | closeTab with the tab's element preserves the same invariant |
| `Tabs.CloseActiveActivatesLastLeft` | index.js:88-94 | closing the active tab with two or more open activates `openTabs[n-1]`, or `openTabs[n-2]` if the closed tab was last; the new tab is open, its tab-bar entry, pane and sidebar entry are the only ones marked, and the status bar describes it |
| `Tabs.CloseLastTab` | index.js:89-93 | closing the only open tab empties the open list and the tab bar and leaves nothing marked; activeTab still names the closed tab |
| `Tabs.Apply` | index.js:51-55 | one click (tab, sidebar file or close button) keeps the state well formed |
| `Tabs.Run` | index.js:51-55 | any sequence of clicks keeps the state well formed |
| `Tabs.RunKeepsConsistent` | index.js:21-99 | every sequence of clicks on known ids keeps the invariant of reachable states |
| `Tabs.Reachable` | index.js:17-99 | from the page as loaded, after any sequence of clicks, activeTab is open whenever any tab is open and the tab bar equals the open list |
| `Tabs.ReactivationKeepsInsertionOrder` | index.js:17-99 | open skills, open projects, re-activate skills, open about, close about: the open list is `[skills, projects]` and projects becomes active, not skills |
| `Tabs.TabManager.constructor` | index.js:17-18 | the object starts in the state the page is loaded in |
| `Tabs.TabManager.AddOpen` | index.js:23 | the id joins the open set and nothing else changes |
| `Tabs.TabManager.DeactivateAll` | index.js:25-28 | the three loops unmark every tab-bar entry, content pane and sidebar file and change nothing else |
| `Tabs.TabManager.MarkContent` | index.js:30-40 | the pane of id, if it exists, and its sidebar entry are marked, whether the entry is passed in or looked up |
| `Tabs.TabManager.ShowTab` | index.js:42-63 | the tab-bar entry is created only when missing, then marked, and activeTab is set |
| `Tabs.TabManager.ShowStatus` | index.js:65-70 | breadcrumb and status bar take the table's file name and type |
| `Tabs.TabManager.OpenTab` | index.js:21-74 | the new state is `Opened` of the old, and the reachable-state invariant is kept |
| `Tabs.TabManager.Forget` | index.js:78-86 | the id leaves the open set, its element leaves the bar when passed in, its pane is unmarked |
| `Tabs.TabManager.Unmark` | index.js:96-98 | the sidebar entry of id is unmarked and nothing else changes |
| `Tabs.TabManager.CloseTab` | index.js:77-99 | the new state is `Closed` of the old, and with the tab's element the reachable-state invariant is kept |
| `Tabs.OpenThenCloseSkills` | index.js:21-99 | on the loaded page, opening skills gives open tabs `[about, skills]`, active skills, breadcrumb `skills.json`, status `JSON`; closing it by its button gives `[about]`, active about, tab bar `[about]` |
| `HeroTyping.TypeHeroStep` | index.js:147-172 | the phrase index stays in `[0,5)`; the text is `"> "` plus a prefix of the current phrase; the delay is 80, 2000, 40 or 400; the 2000 ms pause is set exactly when typing reaches the phrase's end; typing advances the index by one (80 ms); deleting lowers it by one (40 ms) and, past the first letter, moves to the next phrase mod 5 with index 0 (400 ms) |
| `HeroTyping.StartDeletingStep` | index.js:155 | the 2000 ms continuation switches to deleting and types at once; the phrase index stays in range and the next callback is typeHero |
| `HeroTyping.Fire` | index.js:147-172 | either callback keeps the phrase index in range |
| `HeroTyping.Run` | index.js:147-172 | any number of callbacks keeps the phrase index in range |
| `HeroTyping.FireKeepsReady` | index.js:147-172 | the invariant between callbacks is kept: characters stay inside the phrase, the whole phrase is shown at the pause, and while deleting the text is one letter longer than the index |
| `HeroTyping.ForwardEndsWithWholePhrase` | index.js:150-157 | the step that sets the pause before deleting shows `"> "` and the complete phrase |
| `HeroTyping.TypeOneLetter` | index.js:150-158 | a typing step inside the phrase shows one more letter and sets 80 ms, or 2000 ms at the end |
| `HeroTyping.DeleteOneLetter` | index.js:159-170 | a deleting step shows the first charIndex letters and either lowers the index (40 ms) or, at 0, moves to the next phrase (400 ms) |
| `HeroTyping.TypingPhase` | index.js:150-158 | from the start of phrase i, the k-th callback shows its first k letters; the n-th sets the 2000 ms pause |
| `HeroTyping.PauseThenDelete` | index.js:155-170 | the callback after the pause shows the whole phrase again and starts deleting |
| `HeroTyping.DeletingPhase` | index.js:159-170 | each later deleting callback shows one letter fewer |
| `HeroTyping.LastDelete` | index.js:163-168 | callback 2n+1 shows `"> "` alone, moves to phrase (i+1) mod 5 with index 0, and sets 400 ms |
| `HeroTyping.Cycle` | index.js:147-172 | a whole cycle of phrase i shows the whole phrase at callbacks n and n+1, then reaches the start of the next phrase at callback 2n+1 |
| `HeroTyping.DeveloperShownBeforeDeleting` | index.js:134-158 | with the first phrase, the tenth callback shows `"> Developer."` and sets the 2000 ms pause before deleting |
| `HeroTyping.HeroTyper.constructor` | index.js:142-144 | the variables start at 0, 0, false, which satisfies the invariant |
| `HeroTyping.HeroTyper.TypeHero` | index.js:147-172 | the new variables, text and timer are those of `TypeHeroStep`; the invariant is kept |
| `HeroTyping.HeroTyper.StartDeleting` | index.js:155 | the new variables, text and timer are those of `StartDeletingStep`; the invariant is kept |
| `TerminalTyping.TypeTerminalStep` | index.js:187-202 | the command index is unchanged; while `charIndex <= len` the line shows the first charIndex letters, a prefix of the command, the index grows by one and 60 ms is set; past the end nothing changes and 3000 ms is set |
| `TerminalTyping.ClearAndAdvanceStep` | index.js:195-200 | the reset clears the line, sets the index to 0, advances the command mod 5 (staying in range) and sets 500 ms |
| `TerminalTyping.Fire` | index.js:187-202 | either callback keeps the command index in range |
| `TerminalTyping.Run` | index.js:187-202 | any number of callbacks keeps the command index in range |
| `TerminalTyping.FireKeepsReady` | index.js:187-202 | the invariant between callbacks is kept, and after every callback the line shows a prefix of the current command |
| `TerminalTyping.RevealPhase` | index.js:190-193 | from the start of command i, the k-th callback shows its first k-1 letters, one more than before, up to the whole command at callback n+1 |
| `TerminalTyping.Cycle` | index.js:187-202 | callback n+2 sets the 3000 ms pause with the whole command shown; callback n+3 clears the line and moves to command (i+1) mod 5 |
| `TerminalTyping.FirstCommandShown` | index.js:175-193 | with the first command, callback 16 shows `cat welcome.txt` |
| `TerminalTyping.TerminalTyper.constructor` | index.js:183-184 | the variables start at 0, 0, which satisfies the invariant |
| `TerminalTyping.TerminalTyper.TypeTerminal` | index.js:187-202 | the new variables, text and timer are those of `TypeTerminalStep`; the invariant is kept |
| `TerminalTyping.TerminalTyper.ClearAndAdvance` | index.js:195-200 | the new variables, text and timer are those of `ClearAndAdvanceStep`; the invariant is kept |
| `Panels.SectionChevron` | index.js:106-112 | the section chevron points down exactly while the section is unfolded, right otherwise |
| `Panels.TerminalChevron` | index.js:120-126 | the terminal chevron points up exactly while the panel is collapsed, down otherwise |
| `Panels.SidebarAfterClick` | index.js:216-224 | the explorer shows the sidebar; any other section hides it when it was shown (including an unset style) and shows it when it was hidden |
| `Panels.NonExplorerTwice` | index.js:219-224 | two clicks on a non-explorer icon leave the sidebar shown or hidden as before |
| `Panels.Workbench.ToggleSidebarSection` | index.js:102-113 | the section's file list flips, its chevron follows the new state, nothing else changes, and every chevron still matches its section and the panel |
| `Panels.Workbench.ToggleTerminal` | index.js:116-127 | the panel's collapsed state flips, its chevron follows, nothing else changes, and every chevron still matches |
| `Panels.Workbench.ClickActivity` | index.js:208-227 | the clicked icon is the one marked, and the sidebar display follows `SidebarAfterClick`; nothing else changes |

## Left out

- Real document APIs (`querySelectorAll`, `getElementById`, `classList`,
  `createElement`, `innerHTML`, inline `onclick` handlers) are abstracted to
  id sequences, sets of marked ids, booleans and strings, as described above.
- `scrollTop = 0` (index.js:73) is a presentation side effect with no state
  and is not modelled.
- Timing: `setTimeout` is not modelled. Each callback returns the timer it
  sets as a delay and a callback name. Real time, and the interleaving of
  timers with clicks, are left out. The two machines and the tab manager share
  no state.
- The event-listener registration and the load handler (index.js:208-209,
  233-237), including the start delays of 600 ms and 1200 ms. Only the
  activity-bar click rule is modelled.
- Console output (index.js:240-242).
- `Tabs.TabManager.OpenTab`: an id outside `tabFileMap` makes the script throw
  a TypeError at index.js:53 (or 67), where the `undefined` looked up at
  index.js:47 (or 66) is used, after it has already changed some state.
  The model requires the id to be in the table and does not model the state
  left by that crash.
- Closing a tab without its element (`tabElement` null) is modelled
  (`removeEntry` false). The tab bar then keeps an entry for a closed tab
  (`Tabs.ClosedKeepsOtherEntries`), so
  the reachable-state invariant is stated only for closes with the element,
  which is how the page's close buttons call it.
- The initial text of the two typing elements and the initial markup state
  (which pane, sidebar entry, sections and terminal panel start active,
  expanded or collapsed) are not part of the script. They are parameters of
  the constructors, with the `about` tab assumed as described above.
- The scroll-triggered fade-ins, the navigation bar that hides on scroll and
  the cursor trail are not part of `index.js` and are not part of this model.
