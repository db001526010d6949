# Trace: a verified model of its rules

Trace is a desktop tool for case investigators. It has tabs that print web pages to PDF,
keep a store of alert templates, fill a template into a narrative, and summarise a
transaction CSV. It also has an updater that compares release tags with the running version.
Nearly all of Trace is window layout, browser automation and library calls. This project models
the small rules underneath in Dafny and proves what they promise:

- `Versions` covers the updater (`UpdateManager._compare_versions` and the decision in
  `check_for_updates`). A tag loses its leading `v`s, is split on `.`, and is read component by
  component as a list of numbers. Two lists compare lexicographically, giving -1, 0 or 1. An
  update is offered only when the latest tag is strictly newer.
- `TraceCase` covers the main window. It derives the file-name prefix and the output directory
  from the "CustomerID_Name" entry. Its class `TraceApp` holds the set of tabs selected for "Run
  Case", which a double-click toggles.
- `ScreenshotPdf` covers the Screenshots-to-PDF tab. It turns the text box into a URL list and
  names each PDF after the host part of its URL.
- `Templates` covers the template store. The `alert_templates` directory is a map from file name
  to content. The module gives the display name and the sort key of a template, and the stable
  sort that orders the list. It allocates the smallest free template number and states what
  "Save" and "Delete" do to the directory. Its class `TemplateManager` holds the directory, the
  listbox and the display-to-file name map, with methods for loading, saving, reselecting and
  deleting.
- `Alerts` covers `generate_alert`. It checks the selected template and the five form fields,
  replaces each `{key}` placeholder in order, and names the narrative after the case.
- `Transactions` covers the row-wise rules of the transaction CSV tab. Text columns are
  lower-cased and failed or denied rows are dropped. Each remaining row gets exactly one
  category, and its amount falls back from the USD value to the original-currency amount.
- `Text` gives the Python string operations those rules are built from, each with its
  contract. These are `strip`, `lstrip`, `startswith`/`endswith`, `find`, `split` with and
  without a limit, `splitlines`, `replace`, `int` on decimal digits, `02d` padding and
  lower-casing. `Wrappers` gives `Option`, `Result` and the dictionary `get` with a default.

Inputs the program reads from its environment are parameters of the model:

- the directory listing and its order (`os.listdir`);
- the template directory's contents;
- the home directory that `~` expands to;
- the tab index under the mouse;
- the decoded JSON of the latest release;
- the answer to the delete confirmation dialog.

## Model

| member | source | states |
|---|---|---|
| TraceCase.FilePrefix | Trace_v1.py:202-207 | The prefix is empty exactly when the entry is blank; otherwise it is the stripped entry followed by `_`. |
| TraceCase.InvestigationDir | Trace_v1.py:209-214 | A blank entry gives `<home>/Desktop/Investigation_File`; otherwise `<home>/Desktop/<stripped entry>`. |
| TraceCase.PrefixMatchesDirectory | Trace_v1.py:202-214 | The directory is the default folder exactly when the prefix is empty; otherwise it is the prefix without its trailing `_`. |
| TraceCase.SurroundingSpaceIgnored | Trace_v1.py:202-214 | Stripping the entry first changes neither the prefix nor the directory. |
| TraceCase.Toggled | Trace_v1.py:248-262 | Index -1 leaves the set alone; any other index flips its own membership and no other. |
| TraceCase.ToggleTwice | Trace_v1.py:255-262 | Double-clicking the same tab twice restores the selection. |
| TraceCase.ToggleCommutes | Trace_v1.py:255-262 | Double-clicks on two tabs give the same selection in either order. |
| TraceCase.TraceApp.OnTabDoubleClick | Trace_v1.py:248-262 | The new `selectedTabs` is the old set toggled at the clicked index. |
| ScreenshotPdf.KeepNonBlank | Trace_v1.py:559 | The kept lines are no more than the input lines, and each is non-empty and stripped. |
| ScreenshotPdf.KeepNonBlankConcat | Trace_v1.py:559 | The filter works line by line: filtering a concatenation concatenates the filtered parts, so order is kept. |
| ScreenshotPdf.KeepNonBlankSingle | Trace_v1.py:559 | A single line is dropped iff it strips to nothing; otherwise its stripped form is kept. |
| ScreenshotPdf.ParseUrlsLines | Trace_v1.py:558-559 | Stripping the whole text box first changes nothing: the URLs are the lines of the text, each stripped, the blank ones dropped, in order. |
| ScreenshotPdf.PaddingIgnored | Trace_v1.py:558-559 | Whitespace before and after a text changes none of the URLs read from it. |
| ScreenshotPdf.ParseUrls | Trace_v1.py:558-559 | Every URL read from the text box is non-empty, stripped and free of line breaks. |
| ScreenshotPdf.ParseUrlsOfLines | Trace_v1.py:558-559 | URLs entered one per line (non-empty, stripped, without line breaks) are read back exactly, in order. |
| ScreenshotPdf.KeepNonBlankOfClean | Trace_v1.py:559 | Lines that are already non-empty and stripped are all kept, in order. |
| ScreenshotPdf.BlankTextNoUrls | Trace_v1.py:558-563 | A text box holding only whitespace yields no URL. |
| ScreenshotPdf.AfterLastDoubleSlash | Trace_v1.py:610 | `url.split('//')[-1]` is a suffix of the URL that contains no `//`. It is the whole URL when `find` sees no `//`. Otherwise `//` comes right before it and an even number of `/` precede it, because the split consumes a run of `/` in pairs from its start (`a///b` gives `/b`). |
| ScreenshotPdf.AfterLastDoubleSlashUnique | Trace_v1.py:610 | The clauses of `AfterLastDoubleSlash` determine the tail: any suffix that comes right after a `//`, holds no `//` and has an even run of `/` before it is the split's last part. |
| ScreenshotPdf.FileUrlHost | Trace_v1.py:610 | `file:///C:/x` has the last part `/C:/x`, so its host part is empty. |
| ScreenshotPdf.AfterLastDoubleSlashCases | Trace_v1.py:610 | A URL without `//` is its own tail. A URL with one has a tail right after a `//`. |
| ScreenshotPdf.HostPart | Trace_v1.py:610 | The host part contains no `/` and starts the text after the last `//`. It is all of that text, or the part before its first `/`. |
| ScreenshotPdf.HostOfUrl | Trace_v1.py:610 | For `scheme://host/path` with no `/` in scheme or host and no further `//`, the host part is `host`. |
| ScreenshotPdf.PdfFileName | Trace_v1.py:610 | The PDF name is the case prefix, then the host part, then `.pdf`. |
| ScreenshotPdf.PlanRun | Trace_v1.py:556-610 | "Run" is refused exactly when the URL list is empty; otherwise there is one PDF name per URL, in order. |
| Versions.ParseVersion | update_manager.py:92-93 | A parsed tag has at least one component. A tag made of `v`s only fails on the empty component left after `lstrip('v')`. |
| Versions.ListLess | update_manager.py:94 | A proper prefix is older than the list it starts. |
| Versions.ParseComponents | update_manager.py:92-93 | Parsing succeeds iff every component is a decimal number, giving each one's value. Otherwise it fails on the first component that is not one. |
| Versions.ListLessIsLexicographic | update_manager.py:94 | Python's list `<` holds exactly when the textbook lexicographic order does: equal up to some position, where the left list ends first or is smaller. |
| Versions.ListLessIrreflexive | update_manager.py:94 | No version list is older than itself. |
| Versions.ListLessAsymmetric | update_manager.py:94 | Two lists are never each older than the other. |
| Versions.ListLessTransitive | update_manager.py:94 | Older-than is transitive. |
| Versions.ListLessTotal | update_manager.py:94 | Of two different lists, one is older. |
| Versions.CompareLists | update_manager.py:94 | The result is -1, 0 or 1: 0 iff the lists are equal, -1 iff the first is smaller, 1 iff the second is. |
| Versions.CompareVersions | update_manager.py:90-94 | Comparison succeeds iff both tags parse. It then returns -1, 0 or 1, and returns 0 iff the tags parse to the same list. It returns 1 iff the second list is smaller. A failure of the first tag is reported first. |
| Versions.CompareReflexive | update_manager.py:94 | A tag that parses compares equal to itself. |
| Versions.CompareAntisymmetric | update_manager.py:94 | Swapping the arguments negates the result. |
| Versions.CompareTransitive | update_manager.py:94 | When `a` against `b` and `b` against `c` give the same result, `a` against `c` gives it too. |
| Versions.LeadingVIgnored | update_manager.py:92-93 | A leading `v` does not change how a tag parses. |
| Versions.LeadingVIgnoredInComparison | update_manager.py:92-94 | A leading `v` on either argument does not change the comparison. |
| Versions.ParseVersionOfJoin | update_manager.py:92-93 | A dot-join of decimal components parses to their values. |
| Versions.NumericNotTextual | update_manager.py:92-94 | With equal leading components, the larger last number is newer, so `1.10` is newer than `1.9`. |
| Versions.PrefixIsOlder | update_manager.py:94 | A tag is older than the same tag with more components added, so `1.0` is older than `1.0.0`. |
| Versions.LeadingZerosIgnored | update_manager.py:92-94 | A leading zero in a component gives the same version. |
| Versions.EmptyComponentRejected | update_manager.py:92-93 | A tag with an empty component, such as `1..2`, cannot be compared: the error names the empty component. |
| Versions.CompareFailsFirst | update_manager.py:92-94 | When the first tag does not parse, the comparison reports that tag's error, whatever the second is. |
| Versions.CheckForUpdates | update_manager.py:66-88 | An update is available iff the release has a tag and notes and the tag compares strictly newer. It is not available iff the tag compares equal or older. A failed request, a missing `tag_name` or an unparsable tag each give an error. |
| Versions.ShippedVersionParses | Trace_v1.py:79 | The shipped version `1.0.0` reads as `[1, 0, 0]`. |
| Versions.UpdateAgainstShipped | update_manager.py:77-85 | Against the shipped `1.0.0`, a release is offered exactly when its tag's numbers come after `[1, 0, 0]`. |
| Templates.DisplayNameOfPrefixed | Trace_v1.py:948-953 | A name `template_<num>_<rest>`, with no `_` in `num`, is listed as `rest`, which may itself contain `_`. |
| Templates.DisplayName | Trace_v1.py:948-953 | A name without `template_` is shown as it is. Otherwise the display name is the name itself, or the name is `template_<num>_<display>` with no `_` in `num`. |
| Templates.TemplateNumber | Trace_v1.py:957-961 | A sort key exists only for a name `<head>_<num>` or `<head>_<num>_<rest>` with no `_` in `head` or `num` and `num` decimal; it is the value of `num`. |
| Templates.TemplateNumberOfShape | Trace_v1.py:957-961 | Conversely, every name of that shape has the value of its `num` as its key. |
| Templates.NumberOfNumberedName | Trace_v1.py:957-961 | A name written as `template_{n:02d}_<rest>` sorts by `n`, whatever `rest` is. |
| Templates.SmallestFree | Trace_v1.py:1051-1053 | The number chosen is at least the start, is unused, and every number between the start and it is used. |
| Templates.SmallestFreeUnique | Trace_v1.py:1076-1078 | Those properties with start 1 pin the number down. |
| Templates.Insert | Trace_v1.py:963 | Insertion adds exactly the new entry. |
| Templates.InsertSorted | Trace_v1.py:963 | Insertion into a sorted list keeps it sorted. |
| Templates.SortByNumber | Trace_v1.py:963 | The sort is a permutation of its input. |
| Templates.SortSorted | Trace_v1.py:957-963 | The result is ascending by number, with every unnumbered name after the numbered ones. |
| Templates.SortStable | Trace_v1.py:963 | The sort is stable: entries with equal keys keep their order. |
| Templates.Loaded | Trace_v1.py:944-963 | The loaded entries are sorted by number and are a permutation of those collected from the listing's `.txt` files. |
| Templates.LoadedOrder | Trace_v1.py:944-963 | Entries with the same key appear in listing order. |
| Templates.CollectSource | Trace_v1.py:945-954 | Every collected entry comes from a `.txt` file of the listing. |
| Templates.DisplayNames | Trace_v1.py:965-966 | The listbox shows each entry's display name, in order. |
| Templates.NameMap | Trace_v1.py:969 | The name map's keys are exactly the entries' display names. |
| Templates.NameMapLastWins | Trace_v1.py:969 | Where several entries share a display name, the last one's file wins. |
| Templates.NameMapValue | Trace_v1.py:969 | Every mapped file-name stem belongs to an entry shown under that name. |
| Templates.NameMapPointsToFiles | Trace_v1.py:939-969 | Every name in a freshly loaded list maps to a file present in the directory. |
| Templates.SaveSpec | Trace_v1.py:1015-1096 | Saving is refused iff the stripped name or the stripped content is empty, with the name checked first. A refused save leaves the directory unchanged. After a successful save the file holds the stripped content. A new or renamed template is reselected by the display name of its stem. |
| Templates.SaveNewSpec | Trace_v1.py:1063-1086 | With no row selected, a name lacking `template_` is saved as `template_<NN>_<name>` for the smallest free `NN` from 1: the outcome and the new directory exactly. |
| Templates.SaveNewPrefixed | Trace_v1.py:1063-1086 | With no row selected, a name that already starts with `template_` is saved under that name with no number added. The outcome shows its display name, and the new directory is the old one plus that file with the stripped content. |
| Templates.SaveNewNumbered | Trace_v1.py:1063-1086 | A new template whose name lacks `template_` is stored as `template_<NN>_<name>.txt` and listed as the typed name. NN is unused and every number below it from 1 is used. NN is its sort key, and no other file changes. |
| Templates.SaveRenames | Trace_v1.py:1038-1086 | Renaming gives the directory with the old file removed and the content stored under the new stem. So the old file is gone unless it is the new one, and every other file is left alone. |
| Templates.SaveInPlace | Trace_v1.py:1036-1086 | Saving under the unchanged name overwrites the selected template's own file and nothing else. |
| Templates.StoredFileListed | Trace_v1.py:939-969 | After a reload, every stored template file appears under its display name. |
| Templates.DeleteAsWrittenMissesNumbered | Trace_v1.py:1003-1013 | For a directory holding only `template_<NN>_<name>.txt`, the list shows `<name>`. Deleting as written removes nothing, while deleting through the name map empties the directory. |
| Templates.DeleteByFullNameRemovesSelected | Trace_v1.py:1003-1013 | Deleting through the name map removes the selected template's file, which exists, and only it. |
| Templates.TemplateManager.constructor | Trace_v1.py:939-969 | Opening the tab holds the directory and loads the list and the name map from the listing. |
| Templates.TemplateManager.LoadTemplates | Trace_v1.py:939-969 | The listbox and name map become those of the sorted entries of the listing; the directory is untouched. |
| Templates.TemplateManager.SaveTemplate | Trace_v1.py:1015-1086 | The outcome and the new directory are those that the save specification gives for the old directory. |
| Templates.TemplateManager.FindListed | Trace_v1.py:1098-1104 | It finds the first row showing the name, or reports that no row shows it. |
| Templates.TemplateManager.DeleteTemplate | Trace_v1.py:1003-1013 | A file is removed iff a row is selected, the deletion is confirmed, and `<display>.txt` exists. The directory then loses exactly that file; otherwise it is unchanged. |
| Templates.TemplateManager.DeleteSelected | Trace_v1.py:1003-1013 | The corrected deletion removes a file iff a row is selected, the deletion is confirmed, and the file the name map gives exists. The directory then loses exactly that file. |
| Templates.CollectEntries | Trace_v1.py:945-954 | The listing loop collects exactly the entries of the `.txt` files, in listing order. |
| Templates.CollectUsedNumbers | Trace_v1.py:1042-1049 | The scan collects exactly the numbers of the `template_*.txt` files. |
| Templates.NextFreeNumber | Trace_v1.py:1051-1053 | The loop stops at a number from 1 that is unused, with every smaller one from 1 used. |
| Templates.AllocateName | Trace_v1.py:1042-1055 | The new stem is `template_{n:02d}_<name>` for the smallest free `n`. |
| Alerts.Placeholder | Trace_v1.py:1265 | The placeholder is the key between `{` and `}`. |
| Alerts.Filled | Trace_v1.py:1264-1265 | A template without `{` holds no placeholder and is returned as it is. |
| Alerts.ReplaceRound | Trace_v1.py:1264-1265 | One round of the loop turns exactly that key's placeholders into its value, given distinct brace-free keys and values without `{`. |
| Alerts.TemplateFilled | Trace_v1.py:1264-1265 | A template built from literal text without `{` and placeholders of the context's keys becomes that text with each placeholder replaced by its key's value. |
| Alerts.FormTemplateFilled | Trace_v1.py:1238-1265 | The same for the five form keys: every form placeholder becomes its field's stripped value, provided no value contains `{`. |
| Alerts.OtherPlaceholderAbsent | Trace_v1.py:1265 | One key's placeholder never occurs inside another's, so rounds do not disturb each other. |
| Alerts.Fill | Trace_v1.py:1264-1265 | The loop replaces each key's placeholder in context order, as the fold `Filled` does. |
| Alerts.FillWithoutPlaceholders | Trace_v1.py:1264-1265 | A template that contains none of the placeholders is returned unchanged. |
| Alerts.PlaceholderFilled | Trace_v1.py:1264-1265 | With distinct brace-free keys and no `{` in any value, a template that is one placeholder becomes that key's value. |
| Alerts.FormKeysWellFormed | Trace_v1.py:1238-1244 | The five form keys are distinct and contain no brace. |
| Alerts.FormPlaceholderFilled | Trace_v1.py:1238-1265 | A template that is one form placeholder yields that field's stripped value, provided no value contains `{`. |
| Alerts.AlertResult | Trace_v1.py:1224-1281 | Generation is refused with "Missing Template" iff no template is selected. It is refused with "not found" iff the mapped file is absent. It is refused with "Missing Info" iff, beyond those checks, some stripped field is empty. Otherwise the narrative goes to the case directory as `<prefix>Narrative.docx`, holding the filled template. |
| Alerts.GenerateAlert | Trace_v1.py:1224-1281 | The steps in order give the result `AlertResult` specifies. |
| Alerts.ListedTemplateFound | Trace_v1.py:1187-1236 | A name offered by a dropdown freshly loaded from the directory is never "not found". |
| Transactions.Normalize | Trace_v1.py:1355-1357 | Each text column becomes its lower-cased form, and both amounts are kept. |
| Transactions.FilterIgnoresCase | Trace_v1.py:1355-1369 | Because the filter runs after lower-casing, a row is kept iff its lower-cased state is neither `failed` nor `denied`. |
| Transactions.MixedCaseRejected | Trace_v1.py:1355-1369 | So `FAILED` and `Denied` rows are dropped too. |
| Transactions.LowerIdempotent | Trace_v1.py:1357 | Lower-casing twice is lower-casing once. |
| Transactions.NormalizeIdempotent | Trace_v1.py:1355-1357 | Lower-casing twice gives the same row as once. |
| Transactions.ValidRows | Trace_v1.py:1366-1369 | The kept rows are input rows that are neither failed nor denied. |
| Transactions.ValidRowsConcat | Trace_v1.py:1366-1369 | The filter works row by row: filtering a concatenation concatenates the filtered parts, so order is kept. |
| Transactions.ValidRowsCount | Trace_v1.py:1366-1369 | A row that is not rejected is kept as many times as it occurs; a rejected row is never kept. |
| Transactions.MatchesExclusive | Trace_v1.py:1372-1377 | No row satisfies two category lambdas. |
| Transactions.CategoryAfterMatches | Trace_v1.py:1379-1382 | After the first `k` masks, a row carries a category only if its lambda holds. It carries one whenever one of those lambdas holds. |
| Transactions.CategoryOf | Trace_v1.py:1372-1382 | Every row has exactly one category. It is `c` iff `c`'s lambda holds, and `other` iff no lambda holds. |
| Transactions.CategoryAfterIsTheMatch | Trace_v1.py:1379-1382 | After all four masks, the category the loop leaves is the one `CategoryOf` gives. |
| Transactions.Categorize | Trace_v1.py:1379-1382 | The mask loop gives every row the category `CategoryOf` specifies. |
| Transactions.Amount | Trace_v1.py:1388-1395 | The amount is the USD value unless that is 0, in which case it is the original amount. It is 0 only when both are. |
| Transactions.AssignAmounts | Trace_v1.py:1388-1395 | The two column passes give every row its USD value, or the original amount where the USD value is 0. |
| Transactions.NormalizeAll | Trace_v1.py:1355-1357 | Every row is lower-cased, in order. |
| Transactions.ClassifyRows | Trace_v1.py:1355-1395 | Normalising, filtering, categorising and assigning amounts give each kept row its category and amount. |
| Text.Strip | Trace_v1.py:1017-1018 | The result is stripped, and empty iff the text is all whitespace. It is the piece of the text that starts after the leading whitespace, and only whitespace follows it. |
| Text.StripParts | Trace_v1.py:1017-1018 | The text is the stripped piece with whitespace before and after it. |
| Text.StripOfStripped | Trace_v1.py:204 | A stripped text is its own strip. |
| Text.StripLeading | update_manager.py:92 | `lstrip('v')` drops a run of `v`s from the front and stops at the first other character. |
| Text.FindSub | Trace_v1.py:610 | `find` gives the first position where the pattern occurs, or the length of the text when it does not occur. |
| Text.StripIdempotent | Trace_v1.py:204 | Stripping twice is stripping once. |
| Text.Split | update_manager.py:92 | `split` gives at least one piece, no piece holds the separator, and joining the pieces gives the text back. |
| Text.SplitFirst | Trace_v1.py:610 | The first piece of a split is the text up to the first separator. |
| Text.SplitMax | Trace_v1.py:950 | `split(sep, n)` gives at most `n + 1` pieces that join back to the text. Only the last may hold the separator, and only when all `n` splits were made. |
| Text.SplitLines | Trace_v1.py:559 | No line holds a line break. |
| Text.SplitOfJoin | update_manager.py:92 | `split` undoes `join` when no piece contains the separator. |
| Text.SplitLinesOfJoin | Trace_v1.py:559 | Lines without line breaks, joined with newlines, split back into the same lines. |
| Text.ReplaceAll | Trace_v1.py:1265 | A text without the pattern's first character is returned unchanged. |
| Text.ReplaceAtFront | Trace_v1.py:1265 | An occurrence at the front is replaced and the scan goes on after it. |
| Text.ReplacePlainPrefix | Trace_v1.py:1265 | Text before which the pattern cannot start is copied, and the scan goes on after it. |
| Text.ReplaceAfterPlain | Trace_v1.py:1265 | After text the pattern cannot start in, the first occurrence becomes the replacement and the rest is scanned in turn. |
| Text.Lower | Trace_v1.py:1357 | Lower-casing maps every character on its own and keeps the length. |
| Text.ReplaceAbsent | Trace_v1.py:1265 | `replace` of a pattern that does not occur returns the text unchanged. |
| Text.ParseNatToDecimal | Trace_v1.py:1046 | `int(str(n)) == n` on natural numbers. |
| Text.Pad2Parses | Trace_v1.py:1055 | `f"{n:02d}"` is a digit string that reads back as `n`. |

## Left out

- Window layout, theming, dark mode, entry placeholders, progress bars and message boxes are
  user interface. The model returns the outcome the message box would show.
- Selenium and Chrome printing (`Page.printToPDF`) are calls into a browser. The model stops at
  the list of PDF names.
- The chat API, the GitHub request, SSL and session setup are network I/O. The decoded release
  (or the request's failure) is a parameter of `Versions.CheckForUpdates`.
- Writing `.docx`/`.xlsx` files and `convert_docx_templates` are library wrappers. The model
  yields the folder, file name and text of the narrative.
- The CSV summaries (groupby totals, currency formatting, dates and months) need float sums
  and pandas semantics. Only the row-wise rules are modelled, and amounts are integers.
- `download_update`, `install_update`, `restart_application` and `_verify_file_hash` touch the
  filesystem and processes. The packaging and install scripts are OS glue.
- `run_selected_tabs` dispatches to other tabs and is not modelled.
- `on_template_select`, `load_template` and `new_template` only fill the editor widgets.
- `AlertGenerationFrame.load_templates` repeats `TemplateManagementFrame.load_templates`. It
  is modelled by the same `Templates.Loaded` and `Templates.NameMap`.
- Versions.ParseComponents: Python's `int()` also accepts surrounding whitespace, a sign,
  `_` between digits and non-ASCII digits. The model accepts plain ASCII decimal digits only,
  so such tags are errors here.
- Templates.TemplateNumber: for the same reason, a negative or signed number such as
  `template_-1_x` sorts last here, where Python would read it as `-1`.
- Transactions.Normalize: lower-casing is ASCII only; Unicode case mapping is not modelled.
- Missing CSV columns are not modelled separately. An absent text column reads as `""` and an
  absent amount column as `0`, which every modelled rule treats the same as the source does.
- `astype(str)` of non-text cells and `pd.to_numeric` coercion are not modelled. A cell that
  cannot be read as a number is already `0` in a `Transactions.Row`.
- The directory listing order, the home directory, the clicked tab index and the dialog answer
  are parameters, since they come from the operating system or the user.
- Templates.TemplateManager.SaveTemplate and DeleteTemplate do not reload the list. The reload
  that follows them in the source is a separate `LoadTemplates` call, because it needs the new
  directory listing. `os.path.exists` before `os.remove` is a map lookup.
- TraceCase.InvestigationDir: the path is built by concatenation, so a home directory that ends
  in `/` gives a doubled `/`. `os.path.expanduser` would collapse it, and that is not modelled.
- Versions.CheckForUpdates: a release whose JSON `body` is `null` is modelled like one without a
  `body` key, which gives the `MissingKey("body")` error. The source would offer the update with
  release notes `None`, a value the model's notes, a `string`, cannot hold. Likewise an `assets`
  value of `null` yields the empty asset list in the model. The source's `.get('assets', [])`
  falls back only for a missing key, so it would return `None` there.
- Text.IsSpace lists the characters for which `str.isspace()` holds. No other Unicode
  properties are modelled.

## Findings

| source | as written | input that shows it | evidently intended | confidence | as-written member | corrected member |
|---|---|---|---|---|---|---|
| Trace_v1.py:1007-1009 | `delete_template` builds the path from the name shown in the list | a directory holding only `template_01_Alert.txt`: the list shows `Alert`, deleting it looks for `Alert.txt`, and nothing is removed | build the path from the file-name stem that `template_name_map` gives the shown name, as `save_template` and `generate_alert` do | not executed | Templates.DeleteAsWrittenMissesNumbered | Templates.TemplateManager.DeleteSelected |
