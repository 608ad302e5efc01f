// The show/hide controls of the editor layout: the collapsible sections of
// the sidebar, the terminal panel, and the activity bar that shows or hides
// the whole sidebar.
module Panels {

  /** The class of a sidebar section's chevron: pointing down while the
      section's file list is shown, right while it is folded. */
  function SectionChevron(expanded: bool): (c: string)
    ensures c == "fas fa-chevron-down" <==> expanded
    ensures c == "fas fa-chevron-right" <==> !expanded
  {
    if expanded then "fas fa-chevron-down" else "fas fa-chevron-right"
  }

  /** The class of the terminal toggle's chevron: pointing up while the panel
      is collapsed, down while it is open. */
  function TerminalChevron(collapsed: bool): (c: string)
    ensures c == "fas fa-chevron-up" <==> collapsed
    ensures c == "fas fa-chevron-down" <==> !collapsed
  {
    if collapsed then "fas fa-chevron-up" else "fas fa-chevron-down"
  }

  /** The sidebar's inline display style after a click on the activity icon
      of a section: the explorer always shows the sidebar, every other
      section hides a shown sidebar and shows a hidden one. An unset style
      ("") counts as shown. */
  function SidebarAfterClick(section: string, display: string): (r: string)
    ensures r == "block" || r == "none"
    ensures section == "explorer" ==> r == "block"
    ensures section != "explorer" ==> (r == "none" <==> display != "none")
  {
    if section == "explorer" then "block"
    else if display == "none" then "block"
    else "none"
  }

  /** After two clicks on the same non-explorer icon the sidebar is shown or
      hidden exactly as before them. */
  lemma NonExplorerTwice(section: string, display: string)
    requires section != "explorer"
    ensures (SidebarAfterClick(section, SidebarAfterClick(section, display)) == "none") <==> (display == "none")
  {
  }

  class Workbench {
    var sectionExpanded: map<string, bool>    // the file list of each sidebar section carries "active"
    var sectionChevron: map<string, string>   // the class of each section title's chevron
    var terminalCollapsed: bool               // the terminal panel carries "collapsed"
    var terminalChevron: string               // the class of the terminal toggle's chevron
    var activeIcon: string                    // the activity icon that carries "active"
    var sidebarDisplay: string                // the sidebar's inline display style

    /** Every chevron matches what it belongs to: each section's its file
        list, the terminal toggle's the panel. */
    predicate Valid()
      reads this
    {
      && sectionExpanded.Keys == sectionChevron.Keys
      && (forall s :: s in sectionExpanded ==> sectionChevron[s] == SectionChevron(sectionExpanded[s]))
      && terminalChevron == TerminalChevron(terminalCollapsed)
    }

    /** The layout as the markup has it, with chevrons that match the
        sections and the panel. */
    constructor (sections: map<string, bool>, collapsed: bool, icon: string, display: string)
      ensures Valid()
      ensures sectionExpanded == sections && terminalCollapsed == collapsed
      ensures forall s :: s in sections ==> sectionChevron[s] == SectionChevron(sections[s])
      ensures terminalChevron == TerminalChevron(collapsed)
      ensures activeIcon == icon && sidebarDisplay == display
    {
      sectionExpanded := sections;
      sectionChevron := map s | s in sections :: SectionChevron(sections[s]);
      terminalCollapsed := collapsed;
      terminalChevron := TerminalChevron(collapsed);
      activeIcon, sidebarDisplay := icon, display;
    }

    /** toggleSidebarSection: the section's file list is folded or unfolded
        and its chevron follows; nothing else changes. */
    method ToggleSidebarSection(section: string)
      requires Valid() && section in sectionExpanded
      modifies this
      ensures Valid()
      ensures sectionExpanded == old(sectionExpanded)[section := !old(sectionExpanded[section])]
      ensures sectionChevron == old(sectionChevron)[section := SectionChevron(sectionExpanded[section])]
      ensures terminalCollapsed == old(terminalCollapsed) && terminalChevron == old(terminalChevron)
      ensures activeIcon == old(activeIcon) && sidebarDisplay == old(sidebarDisplay)
    {
      if sectionExpanded[section] {
        sectionExpanded := sectionExpanded[section := false];
        sectionChevron := sectionChevron[section := "fas fa-chevron-right"];
      } else {
        sectionExpanded := sectionExpanded[section := true];
        sectionChevron := sectionChevron[section := "fas fa-chevron-down"];
      }
    }

    /** toggleTerminal: the panel is collapsed or opened and its chevron
        follows; nothing else changes. */
    method ToggleTerminal()
      requires Valid()
      modifies this
      ensures Valid()
      ensures terminalCollapsed == !old(terminalCollapsed)
      ensures terminalChevron == TerminalChevron(terminalCollapsed)
      ensures sectionExpanded == old(sectionExpanded) && sectionChevron == old(sectionChevron)
      ensures activeIcon == old(activeIcon) && sidebarDisplay == old(sidebarDisplay)
    {
      if terminalCollapsed {
        terminalCollapsed := false;
        terminalChevron := "fas fa-chevron-down";
      } else {
        terminalCollapsed := true;
        terminalChevron := "fas fa-chevron-up";
      }
    }

    /** A click on the activity icon of a section: that icon alone is marked,
        and the sidebar is shown or toggled; nothing else changes. */
    method ClickActivity(section: string)
      requires Valid()
      modifies this
      ensures Valid()
      ensures activeIcon == section
      ensures sidebarDisplay == SidebarAfterClick(section, old(sidebarDisplay))
      ensures sectionExpanded == old(sectionExpanded) && sectionChevron == old(sectionChevron)
      ensures terminalCollapsed == old(terminalCollapsed) && terminalChevron == old(terminalChevron)
    {
      activeIcon := section;
      if section == "explorer" {
        sidebarDisplay := "block";
      } else {
        if sidebarDisplay == "none" {
          sidebarDisplay := "block";
        } else {
          sidebarDisplay := "none";
        }
      }
    }
  }
}
