/** The alert-template store (`TemplateManagementFrame` and the template list of
    `AlertGenerationFrame` in Trace_v1.py). The `alert_templates` directory is a
    map from file name to file content; templates are `.txt` files named
    `template_<NN>_<name>.txt` and are listed under `<name>`. */
module Templates {
  import opened Wrappers
  import opened Text

  const TemplatePrefix := "template_"
  const TextSuffix := ".txt"

  // ---------------------------------------------------------------------------
  // Names
  // ---------------------------------------------------------------------------

  /** The name a template is listed under: for a name starting with `template_`
      that `split('_', 2)` cuts into three pieces, the third piece; otherwise the
      name itself. */
  function DisplayName(name: string): (d: string)
    ensures !StartsWith(name, TemplatePrefix) ==> d == name
    ensures d == name || exists num :: '_' !in num && name == TemplatePrefix + num + "_" + d
  {
    if StartsWith(name, TemplatePrefix) then
      var parts := SplitMax(name, '_', 2);
      if |parts| > 2 then
        PrefixedPieces(name);
        parts[2]
      else name
    else name
  }

  /** When `split('_', 2)` of a `template_` name gives three pieces, the name is
      `template_` followed by the second piece, `_` and the third. */
  lemma PrefixedPieces(name: string)
    requires StartsWith(name, TemplatePrefix)
    ensures var parts := SplitMax(name, '_', 2);
      |parts| > 2 ==> '_' !in parts[1] && name == TemplatePrefix + parts[1] + "_" + parts[2]
  {
    var rest := name[|TemplatePrefix|..];
    assert name == "template" + ['_'] + rest;
    SplitMaxAfter("template", rest, 2);
    var tail := SplitMax(rest, '_', 1);
    if |tail| == 2 {
      assert rest == tail[0] + ['_'] + tail[1];
    }
  }

  /** `f"template_{n:02d}_{name}"`. */
  function NumberedName(n: nat, name: string): string {
    TemplatePrefix + Pad2(n) + "_" + name
  }

  lemma PrefixHasSeparator(rest: string)
    ensures TemplatePrefix + rest == "template" + ['_'] + rest
    ensures '_' !in "template"
  {
  }

  lemma {:induction false} SplitMaxAfter(a: string, b: string, n: nat)
    requires '_' !in a && n >= 1
    ensures SplitMax(a + ['_'] + b, '_', n) == [a] + SplitMax(b, '_', n - 1)
  {
    var s := a + ['_'] + b;
    FindCharAfter(a, '_', b);
    assert s[..|a|] == a;
    assert s[|a| + 1..] == b;
  }

  lemma {:induction false} SplitAfter(a: string, b: string)
    requires '_' !in a
    ensures Split(a + ['_'] + b, '_') == [a] + Split(b, '_')
  {
    var s := a + ['_'] + b;
    FindCharAfter(a, '_', b);
    assert s[..|a|] == a;
    assert s[|a| + 1..] == b;
  }

  /** A name built as `template_<num>_<rest>`, with no `_` in `num`, is listed as `rest`. */
  lemma DisplayNameOfPrefixed(num: string, rest: string)
    requires '_' !in num
    ensures DisplayName(TemplatePrefix + num + "_" + rest) == rest
  {
    var name := TemplatePrefix + num + "_" + rest;
    assert name == "template" + ['_'] + (num + ['_'] + rest);
    assert StartsWith(name, TemplatePrefix) by { assert name[..|TemplatePrefix|] == TemplatePrefix; }
    SplitMaxAfter("template", num + ['_'] + rest, 2);
    SplitMaxAfter(num, rest, 1);
  }

  /** `int(name.split('_')[1])`: the number a template sorts by; `None` is the
      `float('inf')` given to a name whose second field is missing or not a number. */
  function TemplateNumber(name: string): (n: Option<nat>)
    ensures n.Some? ==> exists head, num, rest :: NumberedShape(name, head, num, rest) && n.value == DecimalValue(num)
  {
    var parts := Split(name, '_');
    if |parts| < 2 then None
    else
      var r := ParseNat(parts[1]);
      if r.Some? then
        var rest := name[|parts[0]| + 1 + |parts[1]|..];
        assert name == parts[0] + ['_'] + Join(parts[1..], '_');
        assert Join(parts[1..], '_') == parts[1] + rest;
        assert rest == [] || rest[0] == '_';
        assert NumberedShape(name, parts[0], parts[1], rest);
        r
      else r
  }

  /** `name` is `<head>_<num><rest>`: a first field without `_`, a second field
      of decimal digits, then nothing or further `_` fields. */
  predicate NumberedShape(name: string, head: string, num: string, rest: string) {
    && '_' !in head && num != [] && AllDigits(num)
    && (rest == [] || rest[0] == '_')
    && name == head + "_" + num + rest
  }

  /** Conversely, a name of that shape sorts by its second field. */
  lemma TemplateNumberOfShape(name: string, head: string, num: string, rest: string)
    requires NumberedShape(name, head, num, rest)
    ensures TemplateNumber(name) == Some(DecimalValue(num))
  {
    assert '_' !in num by {
      forall i | 0 <= i < |num| ensures num[i] != '_' { assert IsDigit(num[i]); }
    }
    assert name == head + ['_'] + (num + rest);
    SplitAfter(head, num + rest);
    SplitFirst(num, rest, '_');
  }

  lemma Pad2NoSeparator(n: nat)
    ensures '_' !in Pad2(n)
  {
    Pad2Parses(n);
    forall i | 0 <= i < |Pad2(n)| ensures Pad2(n)[i] != '_' { assert IsDigit(Pad2(n)[i]); }
  }

  /** A numbered name sorts by its number, whatever follows it. */
  lemma NumberOfNumberedName(n: nat, rest: string)
    ensures TemplateNumber(NumberedName(n, rest)) == Some(n)
  {
    var num := Pad2(n);
    Pad2Parses(n);
    assert '_' !in num by {
      forall i | 0 <= i < |num| ensures num[i] != '_' { assert IsDigit(num[i]); }
    }
    var name := NumberedName(n, rest);
    assert name == "template" + ['_'] + (num + ['_'] + rest);
    SplitAfter("template", num + ['_'] + rest);
    SplitAfter(num, rest);
  }

  /** The number of a directory entry, as the numbering scan reads it: only
      `template_*.txt` files, and only when the second `_` field is a number. */
  function FileNumber(fileName: string): Option<nat> {
    if StartsWith(fileName, TemplatePrefix) && EndsWith(fileName, TextSuffix) then TemplateNumber(fileName)
    else None
  }

  /** `existing_numbers` of `save_template`, as a set. */
  function UsedNumbers(files: map<string, string>): set<nat> {
    set f | f in files && FileNumber(f).Some? :: FileNumber(f).value
  }

  /** The smallest number at least `n` that is not in `used`. */
  function SmallestFree(used: set<nat>, n: nat): (m: nat)
    ensures n <= m && m !in used
    ensures forall k :: n <= k < m ==> k in used
    decreases used
  {
    if n in used then SmallestFree(used - {n}, n + 1) else n
  }

  /** The three properties of the allocated number determine it. */
  lemma SmallestFreeUnique(used: set<nat>, n: nat)
    requires 1 <= n && n !in used
    requires forall k :: 1 <= k < n ==> k in used
    ensures n == SmallestFree(used, 1)
  {
  }

  /** The file-name stem a saved template gets: a name already starting with
      `template_` is kept; any other name is numbered with the smallest free number from 1. */
  function TargetName(files: map<string, string>, name: string): string {
    if StartsWith(name, TemplatePrefix) then name
    else NumberedName(SmallestFree(UsedNumbers(files), 1), name)
  }

  // ---------------------------------------------------------------------------
  // load_templates: the listed names and their order
  // ---------------------------------------------------------------------------

  /** One listed template: the name shown, the file-name stem and its sort key. */
  datatype Entry = Entry(display: string, full: string, number: Option<nat>)

  /** The entry for the file-name stem `full`, its sort key computed once. */
  function MakeEntry(full: string): Entry {
    Entry(DisplayName(full), full, TemplateNumber(full))
  }

  function Key(e: Entry): Option<nat> {
    e.number
  }

  /** The order of the sort keys: numbers ascending, then the unnumbered names. */
  predicate KeyLe(a: Option<nat>, b: Option<nat>) {
    b.None? || (a.Some? && a.value <= b.value)
  }

  predicate SortedByNumber(s: seq<Entry>) {
    forall i, j :: 0 <= i < j < |s| ==> KeyLe(Key(s[i]), Key(s[j]))
  }

  /** The entries with key `k`, in their order. */
  function WithKey(s: seq<Entry>, k: Option<nat>): seq<Entry>
    decreases |s|
  {
    if s == [] then [] else (if Key(s[0]) == k then [s[0]] else []) + WithKey(s[1..], k)
  }

  /** Insert `e` before the first entry whose key is not below its own. */
  function Insert(e: Entry, s: seq<Entry>): (r: seq<Entry>)
    ensures multiset(r) == multiset(s) + multiset{e}
    decreases |s|
  {
    if s == [] || KeyLe(Key(e), Key(s[0])) then [e] + s
    else
      assert s == [s[0]] + s[1..];
      [s[0]] + Insert(e, s[1..])
  }

  lemma {:induction false} InsertSorted(e: Entry, s: seq<Entry>)
    requires SortedByNumber(s)
    ensures SortedByNumber(Insert(e, s))
    decreases |s|
  {
    if s == [] {
    } else if KeyLe(Key(e), Key(s[0])) {
      forall j | 0 <= j < |s| ensures KeyLe(Key(e), Key(s[j])) {
        assert KeyLe(Key(s[0]), Key(s[j])) || j == 0;
      }
      SortedCons(e, s);
    } else {
      SortedTail(s);
      InsertSorted(e, s[1..]);
      var it := Insert(e, s[1..]);
      forall j | 0 <= j < |it| ensures KeyLe(Key(s[0]), Key(it[j])) {
        InsertMember(e, s[1..], it[j]);
        if it[j] in s[1..] {
          var k :| 0 <= k < |s[1..]| && s[1..][k] == it[j];
          assert s[k + 1] == it[j];
        }
      }
      SortedCons(s[0], it);
    }
  }

  lemma SortedTail(s: seq<Entry>)
    requires s != [] && SortedByNumber(s)
    ensures SortedByNumber(s[1..])
  {
    var t := s[1..];
    forall i, j | 0 <= i < j < |t| ensures KeyLe(Key(t[i]), Key(t[j])) {
      assert t[i] == s[i + 1] && t[j] == s[j + 1];
    }
  }

  /** A sorted sequence stays sorted under an entry whose key is not above any of its keys. */
  lemma SortedCons(x: Entry, t: seq<Entry>)
    requires SortedByNumber(t)
    requires forall j :: 0 <= j < |t| ==> KeyLe(Key(x), Key(t[j]))
    ensures SortedByNumber([x] + t)
  {
    var r := [x] + t;
    forall i, j | 0 <= i < j < |r| ensures KeyLe(Key(r[i]), Key(r[j])) {
      assert r[j] == t[j - 1];
      if i > 0 {
        assert r[i] == t[i - 1];
      }
    }
  }

  /** What an insertion holds is the new entry or an old one. */
  lemma InsertMember(e: Entry, s: seq<Entry>, x: Entry)
    requires x in Insert(e, s)
    ensures x == e || x in s
  {
    assert x in multiset(Insert(e, s));
  }

  /** Insertion places `e` before every entry with its key. */
  lemma {:induction false} InsertWithKey(e: Entry, s: seq<Entry>, k: Option<nat>)
    ensures WithKey(Insert(e, s), k) == if Key(e) == k then [e] + WithKey(s, k) else WithKey(s, k)
    decreases |s|
  {
    if s == [] || KeyLe(Key(e), Key(s[0])) {
      WithKeyCons(e, s, k);
    } else {
      InsertWithKey(e, s[1..], k);
      WithKeyCons(s[0], Insert(e, s[1..]), k);
    }
  }

  lemma WithKeyCons(x: Entry, t: seq<Entry>, k: Option<nat>)
    ensures WithKey([x] + t, k) == (if Key(x) == k then [x] else []) + WithKey(t, k)
  {
    assert ([x] + t)[1..] == t;
  }

  /** `templates.sort(key=get_template_number)`. */
  function SortByNumber(s: seq<Entry>): (r: seq<Entry>)
    ensures multiset(r) == multiset(s)
    decreases |s|
  {
    if s == [] then []
    else
      assert s == [s[0]] + s[1..];
      Insert(s[0], SortByNumber(s[1..]))
  }

  lemma {:induction false} SortSorted(s: seq<Entry>)
    ensures SortedByNumber(SortByNumber(s))
    decreases |s|
  {
    if s != [] {
      SortSorted(s[1..]);
      InsertSorted(s[0], SortByNumber(s[1..]));
    }
  }

  /** Python's sort is stable: entries with equal keys keep their order. */
  lemma {:induction false} SortStable(s: seq<Entry>, k: Option<nat>)
    ensures WithKey(SortByNumber(s), k) == WithKey(s, k)
    decreases |s|
  {
    if s != [] {
      SortStable(s[1..], k);
      InsertWithKey(s[0], SortByNumber(s[1..]), k);
    }
  }

  /** The listing entry of a directory file, if it is a `.txt` file. */
  function EntryOf(fileName: string): Option<Entry> {
    if EndsWith(fileName, TextSuffix) then
      var full := fileName[..|fileName| - 4];
      Some(MakeEntry(full))
    else None
  }

  /** The `.txt` files of a directory listing, in listing order. */
  function Collect(listing: seq<string>): seq<Entry>
    decreases |listing|
  {
    if listing == [] then []
    else
      var init := Collect(listing[..|listing| - 1]);
      match EntryOf(listing[|listing| - 1])
      case None => init
      case Some(e) => init + [e]
  }

  /** One more file in the listing adds its entry, if it has one, at the end. */
  lemma CollectSnoc(listing: seq<string>, i: nat)
    requires i < |listing|
    ensures Collect(listing[..i + 1]) ==
              Collect(listing[..i]) + (if EntryOf(listing[i]).Some? then [EntryOf(listing[i]).value] else [])
  {
    assert listing[..i + 1][..i] == listing[..i];
  }

  /** Every collected entry comes from a file of the listing. */
  lemma {:induction false} CollectSource(listing: seq<string>, e: Entry)
    requires e in Collect(listing)
    ensures exists j :: 0 <= j < |listing| && EntryOf(listing[j]) == Some(e)
    decreases |listing|
  {
    var init := listing[..|listing| - 1];
    var last := listing[|listing| - 1];
    if e in Collect(init) {
      CollectSource(init, e);
      var j :| 0 <= j < |init| && EntryOf(init[j]) == Some(e);
      assert listing[j] == init[j];
    } else {
      assert EntryOf(last) == Some(e);
    }
  }

  /** The entry of a `.txt` file names that file. */
  lemma EntryOfFile(f: string, e: Entry)
    requires EntryOf(f) == Some(e)
    ensures e.full + TextSuffix == f
  {
    assert f[..|f| - 4] + f[|f| - 4..] == f;
  }

  /** The listed entries of a directory listing, in the order `load_templates` shows them. */
  function Loaded(listing: seq<string>): (entries: seq<Entry>)
    ensures SortedByNumber(entries)
    ensures multiset(entries) == multiset(Collect(listing))
  {
    SortSorted(Collect(listing));
    SortByNumber(Collect(listing))
  }

  function DisplayNames(entries: seq<Entry>): (names: seq<string>)
    ensures |names| == |entries|
    ensures forall i :: 0 <= i < |entries| ==> names[i] == entries[i].display
  {
    seq(|entries|, i requires 0 <= i < |entries| => entries[i].display)
  }

  /** `{display: full for display, full in templates}`. */
  function NameMap(entries: seq<Entry>): (m: map<string, string>)
    ensures forall i :: 0 <= i < |entries| ==> entries[i].display in m
    ensures forall d :: d in m ==> d in DisplayNames(entries)
    decreases |entries|
  {
    if entries == [] then map[]
    else
      var init := entries[..|entries| - 1];
      var last := entries[|entries| - 1];
      assert forall i :: 0 <= i < |init| ==> init[i] == entries[i];
      assert forall d :: d in DisplayNames(init) ==> d in DisplayNames(entries) by {
        forall d | d in DisplayNames(init) ensures d in DisplayNames(entries) {
          var i :| 0 <= i < |init| && DisplayNames(init)[i] == d;
          assert DisplayNames(entries)[i] == d;
        }
      }
      assert DisplayNames(entries)[|entries| - 1] == last.display;
      NameMap(init)[last.display := last.full]
  }

  /** Where several entries share a display name, the last of them wins. */
  lemma {:induction false} NameMapLastWins(entries: seq<Entry>, i: nat)
    requires i < |entries|
    requires forall j :: i < j < |entries| ==> entries[j].display != entries[i].display
    ensures entries[i].display in NameMap(entries)
    ensures NameMap(entries)[entries[i].display] == entries[i].full
    decreases |entries|
  {
    if i < |entries| - 1 {
      var init := entries[..|entries| - 1];
      assert init[i] == entries[i];
      assert forall j :: i < j < |init| ==> init[j].display != init[i].display by {
        forall j | i < j < |init| ensures init[j].display != init[i].display {
          assert init[j] == entries[j];
        }
      }
      NameMapLastWins(init, i);
    }
  }

  /** Every mapped stem is the stem of an entry listed under that name. */
  lemma {:induction false} NameMapValue(entries: seq<Entry>, d: string)
    requires d in NameMap(entries)
    ensures exists i :: 0 <= i < |entries| && entries[i].display == d && entries[i].full == NameMap(entries)[d]
    decreases |entries|
  {
    var init := entries[..|entries| - 1];
    var last := entries[|entries| - 1];
    if d != last.display {
      NameMapValue(init, d);
      var i :| 0 <= i < |init| && init[i].display == d && init[i].full == NameMap(init)[d];
      assert entries[i] == init[i];
    } else {
      assert entries[|entries| - 1] == last;
    }
  }

  /** `listing` is what `os.listdir` returns for the directory: each file once, in some order. */
  ghost predicate IsListing(listing: seq<string>, files: map<string, string>) {
    && (forall f :: f in files <==> f in listing)
    && (forall i, j :: 0 <= i < j < |listing| ==> listing[i] != listing[j])
  }

  /** Listing order decides only ties: templates with the same number appear
      in the order of the directory listing. */
  lemma LoadedOrder(listing: seq<string>)
    ensures forall k :: WithKey(Loaded(listing), k) == WithKey(Collect(listing), k)
  {
    forall k ensures WithKey(Loaded(listing), k) == WithKey(Collect(listing), k) {
      SortStable(Collect(listing), k);
    }
  }

  /** Every listed name maps to a template file that exists in the directory. */
  lemma {:induction false} NameMapPointsToFiles(listing: seq<string>, files: map<string, string>)
    requires IsListing(listing, files)
    ensures forall d :: d in NameMap(Loaded(listing)) ==> NameMap(Loaded(listing))[d] + TextSuffix in files
  {
    var entries := Loaded(listing);
    var m := NameMap(entries);
    forall d | d in m ensures m[d] + TextSuffix in files {
      NameMapValue(entries, d);
      var i :| 0 <= i < |entries| && entries[i].display == d && entries[i].full == m[d];
      LoadedFromListing(listing, entries[i]);
      var j :| 0 <= j < |listing| && EntryOf(listing[j]) == Some(entries[i]);
      EntryOfFile(listing[j], entries[i]);
    }
  }

  /** Every listed entry comes from a file of the listing. */
  lemma LoadedFromListing(listing: seq<string>, e: Entry)
    requires e in Loaded(listing)
    ensures exists j :: 0 <= j < |listing| && EntryOf(listing[j]) == Some(e)
  {
    assert e in multiset(Loaded(listing));
    CollectSource(listing, e);
  }

  // ---------------------------------------------------------------------------
  // save_template and delete_template, as functions of the directory
  // ---------------------------------------------------------------------------

  /** What "Save" reports: a refusal, or the stem the template was saved under
      and the name it is selected by afterwards. */
  datatype SaveOutcome = MissingName | MissingContent | Saved(fullName: string, display: string)

  datatype Saving = Saving(outcome: SaveOutcome, files: map<string, string>)

  /** `save_template`: `rawName` and `rawContent` are the editor's fields,
      `selection` the selected row of the list, if any. */
  function SaveSpec(files: map<string, string>, listed: seq<string>, nameMap: map<string, string>,
                    rawName: string, rawContent: string, selection: Option<nat>): (r: Saving)
    requires selection.Some? ==> selection.value < |listed|
    ensures r.outcome == MissingName <==> AllSpace(rawName)
    ensures r.outcome == MissingContent <==> !AllSpace(rawName) && AllSpace(rawContent)
    ensures !r.outcome.Saved? ==> r.files == files
    ensures r.outcome.Saved? ==>
              && r.outcome.fullName + TextSuffix in r.files
              && r.files[r.outcome.fullName + TextSuffix] == Strip(rawContent)
              && (selection.None? || Strip(rawName) != listed[selection.value] ==>
                    r.outcome.display == DisplayName(r.outcome.fullName))
  {
    var name := Strip(rawName);
    var content := Strip(rawContent);
    if name == [] then Saving(MissingName, files)
    else if content == [] then Saving(MissingContent, files)
    else
      match selection
      case None =>
        var stem := TargetName(files, name);
        Saving(Saved(stem, DisplayName(stem)), files[stem + TextSuffix := content])
      case Some(i) =>
        var display := listed[i];
        var full := Lookup(nameMap, display, display);
        if name == display then
          Saving(Saved(full, DisplayName(name)), files[full + TextSuffix := content])
        else
          var stem := TargetName(files, name);
          Saving(Saved(stem, DisplayName(stem)), (files - {full + TextSuffix})[stem + TextSuffix := content])
  }

  /** A new template whose name does not start with `template_` is stored as
      `template_<NN>_<name>.txt`, NN being the smallest number from 1 that no
      `template_*.txt` file uses; it is listed under the name typed and sorts by
      NN; no other file changes. */
  lemma {:induction false} SaveNewNumbered(files: map<string, string>, listed: seq<string>, nameMap: map<string, string>,
                                           rawName: string, rawContent: string)
    requires !AllSpace(rawName) && !AllSpace(rawContent)
    requires !StartsWith(Strip(rawName), TemplatePrefix)
    ensures var r := SaveSpec(files, listed, nameMap, rawName, rawContent, None);
            exists n: nat ::
              && 1 <= n && n !in UsedNumbers(files) && (forall k :: 1 <= k < n ==> k in UsedNumbers(files))
              && r.outcome == Saved(NumberedName(n, Strip(rawName)), Strip(rawName))
              && TemplateNumber(NumberedName(n, Strip(rawName))) == Some(n)
              && r.files == files[NumberedName(n, Strip(rawName)) + TextSuffix := Strip(rawContent)]
  {
    var name := Strip(rawName);
    var n := SmallestFree(UsedNumbers(files), 1);
    var stem := NumberedName(n, name);
    Pad2NoSeparator(n);
    DisplayNameOfPrefixed(Pad2(n), name);
    NumberOfNumberedName(n, name);
    SaveNewSpec(files, listed, nameMap, rawName, rawContent);
    assert SaveSpec(files, listed, nameMap, rawName, rawContent, None).outcome == Saved(stem, name);
  }

  lemma SaveNewSpec(files: map<string, string>, listed: seq<string>, nameMap: map<string, string>,
                    rawName: string, rawContent: string)
    requires !AllSpace(rawName) && !AllSpace(rawContent)
    requires !StartsWith(Strip(rawName), TemplatePrefix)
    ensures var stem := NumberedName(SmallestFree(UsedNumbers(files), 1), Strip(rawName));
            SaveSpec(files, listed, nameMap, rawName, rawContent, None) ==
              Saving(Saved(stem, DisplayName(stem)), files[stem + TextSuffix := Strip(rawContent)])
  {
  }

  /** A new template whose name already starts with `template_` is stored
      under that name as typed, with no number added, and shown under its
      display name; no other file changes. */
  lemma SaveNewPrefixed(files: map<string, string>, listed: seq<string>, nameMap: map<string, string>,
                        rawName: string, rawContent: string)
    requires !AllSpace(rawName) && !AllSpace(rawContent)
    requires StartsWith(Strip(rawName), TemplatePrefix)
    ensures SaveSpec(files, listed, nameMap, rawName, rawContent, None) ==
              Saving(Saved(Strip(rawName), DisplayName(Strip(rawName))),
                     files[Strip(rawName) + TextSuffix := Strip(rawContent)])
  {
  }

  /** Renaming the selected template removes its old file, unless the new name
      lands on the same file, and stores the content under the new name. */
  lemma SaveRenames(files: map<string, string>, listed: seq<string>, nameMap: map<string, string>,
                    rawName: string, rawContent: string, i: nat)
    requires i < |listed|
    requires !AllSpace(rawName) && !AllSpace(rawContent)
    requires Strip(rawName) != listed[i]
    ensures var r := SaveSpec(files, listed, nameMap, rawName, rawContent, Some(i));
            var oldFile := Lookup(nameMap, listed[i], listed[i]) + TextSuffix;
            var stem := TargetName(files, Strip(rawName));
            && r.outcome == Saved(stem, DisplayName(stem))
            && r.files == (files - {oldFile})[stem + TextSuffix := Strip(rawContent)]
            && r.files[stem + TextSuffix] == Strip(rawContent)
            && (oldFile != stem + TextSuffix ==> oldFile !in r.files)
            && forall f :: f != oldFile && f != stem + TextSuffix ==> (f in r.files <==> f in files)
  {
  }

  /** Saving under the unchanged name overwrites the selected template's own file. */
  lemma SaveInPlace(files: map<string, string>, listed: seq<string>, nameMap: map<string, string>,
                    rawName: string, rawContent: string, i: nat)
    requires i < |listed|
    requires !AllSpace(rawName) && !AllSpace(rawContent)
    requires Strip(rawName) == listed[i]
    ensures var r := SaveSpec(files, listed, nameMap, rawName, rawContent, Some(i));
            var full := Lookup(nameMap, listed[i], listed[i]);
            && r.outcome.Saved? && r.outcome.fullName == full
            && r.files == files[full + TextSuffix := Strip(rawContent)]
  {
  }

  /** Once the directory is listed again, every stored template file is shown
      under its display name. */
  lemma {:induction false} StoredFileListed(listing: seq<string>, files: map<string, string>, stem: string)
    requires IsListing(listing, files)
    requires stem + TextSuffix in files
    ensures DisplayName(stem) in DisplayNames(Loaded(listing))
  {
    var f := stem + TextSuffix;
    var j :| 0 <= j < |listing| && listing[j] == f;
    assert EndsWith(f, TextSuffix) by { assert f[|f| - 4..] == TextSuffix; }
    assert f[..|f| - 4] == stem;
    CollectContains(listing, j);
    var c := Collect(listing);
    var e := MakeEntry(stem);
    LoadedOrder(listing);
    assert e in multiset(Loaded(listing));
    var entries := Loaded(listing);
    var k :| 0 <= k < |entries| && entries[k] == e;
    assert DisplayNames(entries)[k] == DisplayName(stem);
  }

  lemma {:induction false} CollectContains(listing: seq<string>, j: nat)
    requires j < |listing| && EntryOf(listing[j]).Some?
    ensures EntryOf(listing[j]).value in Collect(listing)
    decreases |listing|
  {
    var rest := listing[..|listing| - 1];
    if j < |listing| - 1 {
      assert rest[j] == listing[j];
      CollectContains(rest, j);
    }
  }

  /** `delete_template` as written: the path is built from the listed (display) name. */
  function DeleteAsWritten(files: map<string, string>, display: string): map<string, string> {
    files - {display + TextSuffix}
  }

  /** The deletion evidently intended: the path is built from the file-name stem
      that the list maps the display name to. */
  function DeleteByFullName(files: map<string, string>, nameMap: map<string, string>, display: string): map<string, string> {
    files - {Lookup(nameMap, display, display) + TextSuffix}
  }

  lemma LoadedSingle(f: string)
    requires EndsWith(f, TextSuffix)
    ensures Loaded([f]) == [MakeEntry(f[..|f| - 4])]
    ensures NameMap(Loaded([f])) == map[MakeEntry(f[..|f| - 4]).display := f[..|f| - 4]]
  {
    var e := MakeEntry(f[..|f| - 4]);
    assert [f][..0] == [];
    assert Collect([f]) == [e];
    assert [e][..0] == [];
  }

  /** A numbered template cannot be deleted as written: a directory holding only
      `template_<NN>_<name>.txt` (`template_01_Alert.txt`, say) lists it as
      `<name>`, and deleting `<name>` looks for `<name>.txt` and removes nothing;
      deleting by the mapped stem empties the directory. */
  lemma DeleteAsWrittenMissesNumbered(n: nat, name: string, content: string)
    ensures var f := NumberedName(n, name) + TextSuffix;
            var files := map[f := content];
            var entries := Loaded([f]);
            && DisplayNames(entries) == [name]
            && DeleteAsWritten(files, name) == files
            && DeleteByFullName(files, NameMap(entries), name) == map[]
  {
    NumberedFile(n, name);
    var f := NumberedName(n, name) + TextSuffix;
    assert |name + TextSuffix| < |f|;
    DeleteOfSingle(f, content);
  }

  /** A directory holding one `.txt` file lists it under its display name;
      deleting by that name misses the file unless the name is the stem,
      while deleting by the mapped stem removes it. */
  lemma DeleteOfSingle(f: string, content: string)
    requires EndsWith(f, TextSuffix)
    ensures var files := map[f := content];
            var d := DisplayName(f[..|f| - 4]);
            var entries := Loaded([f]);
            && DisplayNames(entries) == [d]
            && (d + TextSuffix != f ==> DeleteAsWritten(files, d) == files)
            && DeleteByFullName(files, NameMap(entries), d) == map[]
  {
    var files := map[f := content];
    var stem := f[..|f| - 4];
    assert stem + TextSuffix == f by { assert f == f[..|f| - 4] + f[|f| - 4..]; }
    LoadedSingle(f);
    var entries := Loaded([f]);
    var d := DisplayName(stem);
    assert DisplayNames(entries) == [d];
    assert Lookup(NameMap(entries), d, d) + TextSuffix == f;
    RemoveOnly(f, content);
    RemoveOther(files, d + TextSuffix);
  }

  lemma RemoveOnly(f: string, content: string)
    ensures map[f := content] - {f} == map[]
  {
    assert (map[f := content] - {f}).Keys == {};
  }

  lemma RemoveOther(files: map<string, string>, k: string)
    ensures k !in files ==> files - {k} == files
  {
  }

  /** The file of a numbered template is a `.txt` file listed under the name. */
  lemma NumberedFile(n: nat, name: string)
    ensures var f := NumberedName(n, name) + TextSuffix;
            EndsWith(f, TextSuffix) && f[..|f| - 4] == NumberedName(n, name)
            && MakeEntry(NumberedName(n, name)).display == name
  {
    var f := NumberedName(n, name) + TextSuffix;
    assert f[|f| - 4..] == TextSuffix;
    Pad2NoSeparator(n);
    DisplayNameOfPrefixed(Pad2(n), name);
  }

  /** Deleting by the stem removes the selected template's file whenever the list
      was loaded from the directory. */
  lemma DeleteByFullNameRemovesSelected(listing: seq<string>, files: map<string, string>, display: string)
    requires IsListing(listing, files)
    requires display in NameMap(Loaded(listing))
    ensures NameMap(Loaded(listing))[display] + TextSuffix in files
    ensures NameMap(Loaded(listing))[display] + TextSuffix !in DeleteByFullName(files, NameMap(Loaded(listing)), display)
    ensures |DeleteByFullName(files, NameMap(Loaded(listing)), display)| == |files| - 1
  {
    NameMapPointsToFiles(listing, files);
  }

  // ---------------------------------------------------------------------------
  // The template-management tab
  // ---------------------------------------------------------------------------

  /** `TemplateManagementFrame`: the template directory and the list shown. */
  class TemplateManager {
    /** The `alert_templates` directory: file name to content. */
    var files: map<string, string>
    /** The listbox: display names in the order shown. */
    var listed: seq<string>
    /** `template_name_map`: display name to file-name stem. */
    var nameMap: map<string, string>

    /** Opening the tab loads the list from the directory as `listing` orders it. */
    constructor (dir: map<string, string>, listing: seq<string>)
      requires IsListing(listing, dir)
      ensures files == dir
      ensures listed == DisplayNames(Loaded(listing)) && nameMap == NameMap(Loaded(listing))
    {
      files := dir;
      var entries := CollectEntries(listing);
      var sorted := SortByNumber(entries);
      listed := DisplayNames(sorted);
      nameMap := NameMap(sorted);
    }

    /** `load_templates`, with `os.listdir` of the directory given as `listing`. */
    method LoadTemplates(listing: seq<string>)
      requires IsListing(listing, files)
      modifies this`listed, this`nameMap
      ensures listed == DisplayNames(Loaded(listing)) && nameMap == NameMap(Loaded(listing))
    {
      var entries := CollectEntries(listing);
      var sorted := SortByNumber(entries);
      listed := DisplayNames(sorted);
      nameMap := NameMap(sorted);
    }

    /** `save_template`; the list is refreshed afterwards by `LoadTemplates`. */
    method SaveTemplate(rawName: string, rawContent: string, selection: Option<nat>) returns (outcome: SaveOutcome)
      requires selection.Some? ==> selection.value < |listed|
      modifies this`files
      ensures outcome == SaveSpec(old(files), listed, nameMap, rawName, rawContent, selection).outcome
      ensures files == SaveSpec(old(files), listed, nameMap, rawName, rawContent, selection).files
    {
      var name := Strip(rawName);
      var content := Strip(rawContent);
      if name == [] {
        return MissingName;
      }
      if content == [] {
        return MissingContent;
      }
      var stem: string;
      if selection.Some? {
        var display := listed[selection.value];
        var full := Lookup(nameMap, display, display);
        if name == display {
          stem := full;
        } else {
          if !StartsWith(name, TemplatePrefix) {
            name := AllocateName(files, name);
          }
          stem := name;
          files := files - {full + TextSuffix};
        }
      } else {
        if !StartsWith(name, TemplatePrefix) {
          name := AllocateName(files, name);
        }
        stem := name;
      }
      files := files[stem + TextSuffix := content];
      outcome := Saved(stem, DisplayName(name));
    }

    /** The reselection loop of `save_template`: the first row showing `display`. */
    method FindListed(display: string) returns (row: Option<nat>)
      ensures row.Some? ==> row.value < |listed| && listed[row.value] == display
      ensures row.Some? ==> forall j :: 0 <= j < row.value ==> listed[j] != display
      ensures row.None? ==> display !in listed
    {
      var i := 0;
      while i < |listed|
        invariant 0 <= i <= |listed|
        invariant forall j :: 0 <= j < i ==> listed[j] != display
      {
        if listed[i] == display {
          return Some(i);
        }
        i := i + 1;
      }
      return None;
    }

    /** `delete_template` as written; `confirmed` is the answer to the confirmation dialog. */
    method DeleteTemplate(selection: Option<nat>, confirmed: bool) returns (removed: bool)
      requires selection.Some? ==> selection.value < |listed|
      modifies this`files
      ensures removed <==> selection.Some? && confirmed && listed[selection.value] + TextSuffix in old(files)
      ensures files == if removed then DeleteAsWritten(old(files), listed[selection.value]) else old(files)
    {
      removed := false;
      if selection.Some? && confirmed {
        var path := listed[selection.value] + TextSuffix;
        if path in files {
          files := files - {path};
          removed := true;
        }
      }
    }

    /** The deletion `delete_template` evidently intends: the path is built
        from the stem that the name map gives the selected name. */
    method DeleteSelected(selection: Option<nat>, confirmed: bool) returns (removed: bool)
      requires selection.Some? ==> selection.value < |listed|
      modifies this`files
      ensures removed <==> selection.Some? && confirmed &&
                           Lookup(nameMap, listed[selection.value], listed[selection.value]) + TextSuffix in old(files)
      ensures files == if removed then DeleteByFullName(old(files), nameMap, listed[selection.value]) else old(files)
    {
      removed := false;
      if selection.Some? && confirmed {
        var display := listed[selection.value];
        var path := Lookup(nameMap, display, display) + TextSuffix;
        if path in files {
          files := files - {path};
          removed := true;
        }
      }
    }
  }

  /** The loop of `load_templates` over the directory listing. */
  method CollectEntries(listing: seq<string>) returns (entries: seq<Entry>)
    ensures entries == Collect(listing)
  {
    entries := [];
    var i := 0;
    while i < |listing|
      invariant 0 <= i <= |listing|
      invariant entries == Collect(listing[..i])
    {
      CollectSnoc(listing, i);
      var file := listing[i];
      if EndsWith(file, TextSuffix) {
        var full := file[..|file| - 4];
        entries := entries + [MakeEntry(full)];
      }
      i := i + 1;
    }
    assert listing[..i] == listing;
  }

  /** The scan of `save_template` collecting the numbers of `template_*.txt` files. */
  method CollectUsedNumbers(files: map<string, string>) returns (used: set<nat>)
    ensures used == UsedNumbers(files)
  {
    used := {};
    var rest := files.Keys;
    while rest != {}
      invariant rest <= files.Keys
      invariant forall n :: n in used <==> exists f :: f in files && f !in rest && FileNumber(f) == Some(n)
      decreases rest
    {
      var f :| f in rest;
      var n := FileNumber(f);
      if n.Some? {
        used := used + {n.value};
      }
      rest := rest - {f};
    }
    assert forall n :: n in used <==> n in UsedNumbers(files);
  }

  /** `next_num = 1; while next_num in existing_numbers: next_num += 1`. */
  method NextFreeNumber(used: set<nat>) returns (n: nat)
    ensures 1 <= n && n !in used
    ensures forall k :: 1 <= k < n ==> k in used
  {
    n := 1;
    ghost var rest := used;
    while n in used
      invariant 1 <= n
      invariant forall k :: 1 <= k < n ==> k in used
      invariant rest <= used
      invariant forall k :: k in used && k >= n ==> k in rest
      decreases |rest|
    {
      rest := rest - {n};
      n := n + 1;
    }
  }

  /** The numbering step of `save_template` for a name not starting with `template_`. */
  method AllocateName(files: map<string, string>, name: string) returns (stem: string)
    requires !StartsWith(name, TemplatePrefix)
    ensures stem == TargetName(files, name)
  {
    var used := CollectUsedNumbers(files);
    var n := NextFreeNumber(used);
    SmallestFreeUnique(used, n);
    stem := NumberedName(n, name);
  }
}
