/** The case bookkeeping of the main window (`TraceApp` in Trace_v1.py): the
    file-name prefix and the output directory derived from the
    "CustomerID_Name" entry, and the set of tabs selected for "Run Case". */
module TraceCase {
  import opened Text

  /** `get_file_prefix`: the stripped entry followed by `_`, or nothing for a blank entry. */
  function FilePrefix(entry: string): (p: string)
    ensures p == [] <==> AllSpace(entry)
    ensures p != [] ==> p == Strip(entry) + "_"
  {
    var id := Strip(entry);
    if id == [] then [] else id + "_"
  }

  /** The folder under the desktop used when no case name has been entered. */
  const DefaultCaseFolder := "Investigation_File"

  /** `get_investigation_dir`, with the home directory that `os.path.expanduser`
      substitutes for `~` given as `home`. */
  function InvestigationDir(home: string, entry: string): (d: string)
    ensures AllSpace(entry) ==> d == home + "/Desktop/" + DefaultCaseFolder
    ensures !AllSpace(entry) ==> d == home + "/Desktop/" + Strip(entry)
  {
    var id := Strip(entry);
    if id == [] then home + "/Desktop/" + DefaultCaseFolder else home + "/Desktop/" + id
  }

  /** The directory and the prefix name the same case: with a case name, the
      directory is the prefix without its trailing `_`; without one, files get no
      prefix and go to the default folder. */
  lemma PrefixMatchesDirectory(home: string, entry: string)
    ensures FilePrefix(entry) == [] ==> InvestigationDir(home, entry) == home + "/Desktop/" + DefaultCaseFolder
    ensures FilePrefix(entry) != [] ==>
              InvestigationDir(home, entry) == home + "/Desktop/" + FilePrefix(entry)[..|FilePrefix(entry)| - 1]
  {
    var p := FilePrefix(entry);
    if p != [] {
      assert p[..|p| - 1] == Strip(entry);
    }
  }

  /** Whitespace typed around the case name changes neither derived value. */
  lemma {:induction false} SurroundingSpaceIgnored(home: string, entry: string)
    ensures FilePrefix(Strip(entry)) == FilePrefix(entry)
    ensures InvestigationDir(home, Strip(entry)) == InvestigationDir(home, entry)
  {
    StripIdempotent(entry);
  }

  /** A double-click on tab `index`: select it if unselected, unselect it if
      selected; `-1` (a click off the tabs) changes nothing. */
  function Toggled(tabs: set<int>, index: int): (r: set<int>)
    ensures index == -1 ==> r == tabs
    ensures index != -1 ==> (index in r <==> index !in tabs)
    ensures forall j :: j != index ==> (j in r <==> j in tabs)
  {
    if index == -1 then tabs
    else if index in tabs then tabs - {index}
    else tabs + {index}
  }

  /** Two double-clicks on the same tab restore the selection. */
  lemma ToggleTwice(tabs: set<int>, index: int)
    ensures Toggled(Toggled(tabs, index), index) == tabs
  {
  }

  /** Double-clicks on two different tabs commute. */
  lemma ToggleCommutes(tabs: set<int>, i: int, j: int)
    ensures Toggled(Toggled(tabs, i), j) == Toggled(Toggled(tabs, j), i)
  {
  }

  /** The part of `TraceApp` that the "Run Case" button reads. */
  class TraceApp {
    /** `selected_tabs`: the indices of the tabs marked for "Run Case". */
    var selectedTabs: set<int>

    constructor ()
      ensures selectedTabs == {}
    {
      selectedTabs := {};
    }

    /** `on_tab_double_click`, with the tab index under the mouse given as `tabIndex`. */
    method OnTabDoubleClick(tabIndex: int)
      modifies this
      ensures selectedTabs == Toggled(old(selectedTabs), tabIndex)
    {
      if tabIndex == -1 {
        return;
      }
      if tabIndex in selectedTabs {
        selectedTabs := selectedTabs - {tabIndex};
      } else {
        selectedTabs := selectedTabs + {tabIndex};
      }
    }
  }
}
