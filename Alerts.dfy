/** Alert generation (`AlertGenerationFrame.generate_alert` in Trace_v1.py): the
    selected template is read from the template directory, its placeholders are
    filled from the form, and the narrative is named after the case. Writing
    the `.docx` file is not modelled; the model yields the folder, the file
    name and the text of the paragraph. */
module Alerts {
  import opened Wrappers
  import opened Text
  import Templates
  import TraceCase

  /** The placeholder written for a form field: the key between braces. */
  function Placeholder(key: string): (p: string)
    ensures |p| == |key| + 2 && p[0] == '{' && p[|p| - 1] == '}' && p[1..|p| - 1] == key
  {
    "{" + key + "}"
  }

  /** The context of `generate_alert`: the keys in the order the dictionary
      literal lists them, each with its value. */
  type Context = seq<(string, string)>

  /** The fields of the alert form, as typed. */
  datatype AlertForm = AlertForm(customerId: string, customerName: string, startDate: string,
                                 endDate: string, accountPurpose: string)

  const FormKeys: seq<string> := ["customer_id", "customer_name", "start_date", "end_date", "account_purpose"]

  /** The stripped field values, in the order of `FormKeys`. */
  function FormValues(form: AlertForm): seq<string> {
    [Strip(form.customerId), Strip(form.customerName), Strip(form.startDate),
     Strip(form.endDate), Strip(form.accountPurpose)]
  }

  function FormContext(form: AlertForm): Context {
    seq(5, i requires 0 <= i < 5 => (FormKeys[i], FormValues(form)[i]))
  }

  /** The text after replacing every placeholder of `ctx`, key by key in
      order; a text without `{` holds no placeholder and is copied as it is. */
  function Filled(text: string, ctx: Context): (r: string)
    ensures '{' !in text ==> r == text
    decreases |ctx|
  {
    if ctx == [] then text
    else
      var last := ctx[|ctx| - 1];
      ReplaceAll(Filled(text, ctx[..|ctx| - 1]), Placeholder(last.0), last.1)
  }

  /** `for key, value in context.items(): template_content = template_content.replace(...)`. */
  method Fill(text: string, ctx: Context) returns (filled: string)
    ensures filled == Filled(text, ctx)
  {
    filled := text;
    var i := 0;
    while i < |ctx|
      invariant 0 <= i <= |ctx|
      invariant filled == Filled(text, ctx[..i])
    {
      assert ctx[..i + 1][..i] == ctx[..i];
      filled := ReplaceAll(filled, Placeholder(ctx[i].0), ctx[i].1);
      i := i + 1;
    }
    assert ctx[..i] == ctx;
  }

  predicate NoBrace(s: string) {
    '{' !in s && '}' !in s
  }

  /** The keys are distinct and hold no brace. */
  predicate WellFormedKeys(ctx: Context) {
    && (forall i :: 0 <= i < |ctx| ==> NoBrace(ctx[i].0))
    && (forall i, j :: 0 <= i < j < |ctx| ==> ctx[i].0 != ctx[j].0)
  }

  lemma ReplaceWhole(p: string, r: string)
    requires p != []
    ensures ReplaceAll(p, p, r) == r
  {
    assert p[..|p|] == p;
    assert p[|p|..] == [];
  }

  /** A brace-free key's placeholder occurs in another brace-free key's placeholder only if the keys agree. */
  lemma OtherPlaceholderAbsent(k1: string, k2: string)
    requires NoBrace(k1) && NoBrace(k2) && k1 != k2
    ensures !Occurs(Placeholder(k2), Placeholder(k1))
  {
  }

  /** A template mentioning none of the placeholders is copied as it is. */
  lemma {:induction false} FillWithoutPlaceholders(text: string, ctx: Context)
    requires forall i :: 0 <= i < |ctx| ==> !Occurs(text, Placeholder(ctx[i].0))
    ensures Filled(text, ctx) == text
    decreases |ctx|
  {
    if ctx != [] {
      var init := ctx[..|ctx| - 1];
      assert forall i :: 0 <= i < |init| ==> init[i] == ctx[i];
      FillWithoutPlaceholders(text, init);
      ReplaceAbsent(text, Placeholder(ctx[|ctx| - 1].0), ctx[|ctx| - 1].1);
    }
  }

  /** With distinct brace-free keys and values without `{`, a template consisting
      of one placeholder becomes that field's value. */
  lemma {:induction false} PlaceholderFilled(ctx: Context, i: nat)
    requires i < |ctx| && WellFormedKeys(ctx)
    requires forall j :: 0 <= j < |ctx| ==> '{' !in ctx[j].1
    ensures Filled(Placeholder(ctx[i].0), ctx) == ctx[i].1
    decreases |ctx|
  {
    var text := Placeholder(ctx[i].0);
    var n := |ctx| - 1;
    var init := ctx[..n];
    assert forall j :: 0 <= j < |init| ==> init[j] == ctx[j];
    if i == n {
      forall j | 0 <= j < |init| ensures !Occurs(text, Placeholder(init[j].0)) {
        OtherPlaceholderAbsent(init[j].0, ctx[i].0);
      }
      FillWithoutPlaceholders(text, init);
      ReplaceWhole(text, ctx[i].1);
    } else {
      PlaceholderFilled(init, i);
    }
  }

  /** A template as its author writes it: literal text and form fields, a
      field given by its position in the context. */
  datatype Piece = Literal(text: string) | Slot(field: nat)

  predicate SlotsIn(pieces: seq<Piece>, n: nat) {
    forall k :: 0 <= k < |pieces| && pieces[k].Slot? ==> pieces[k].field < n
  }

  /** Literal text without `{`, so that it contains no placeholder. */
  predicate PlainLiterals(pieces: seq<Piece>) {
    forall k :: 0 <= k < |pieces| && pieces[k].Literal? ==> '{' !in pieces[k].text
  }

  /** Field values without `{`. */
  predicate PlainValues(ctx: Context) {
    forall j :: 0 <= j < |ctx| ==> '{' !in ctx[j].1
  }

  /** The text of `pieces` once the first `done` keys of `ctx` are replaced:
      literals as written, fields below `done` as their value, the other
      fields as their placeholder. `Render(pieces, ctx, 0)` is the template. */
  function Render(pieces: seq<Piece>, ctx: Context, done: nat): string
    requires SlotsIn(pieces, |ctx|)
    decreases |pieces|
  {
    if pieces == [] then []
    else
      var head := match pieces[0]
        case Literal(t) => t
        case Slot(i) => if i < done then ctx[i].1 else Placeholder(ctx[i].0);
      head + Render(pieces[1..], ctx, done)
  }

  /** A placeholder for another key is not matched where it starts, so the scan
      copies it and goes on after it. */
  lemma OtherPlaceholderFront(key: string, other: string, rest: string, r: string)
    requires NoBrace(key) && NoBrace(other) && key != other
    ensures ReplaceAll(Placeholder(other) + rest, Placeholder(key), r) == Placeholder(other) + ReplaceAll(rest, Placeholder(key), r)
  {
    var p := Placeholder(key);
    var b := other + "}";
    PlaceholderShape(other, rest);
    var R := ReplaceAll(rest, p, r);
    calc {
      ReplaceAll(Placeholder(other) + rest, p, r);
      == { PlaceholderMismatch(key, other, rest); ReplaceMissCons('{', b + rest, p, r); }
      ['{'] + ReplaceAll(b + rest, p, r);
      == { ReplacePlainPrefix(b, rest, p, r); }
      ['{'] + (b + R);
      ==
      Placeholder(other) + R;
    }
  }

  /** Another key's placeholder does not start with this key's. */
  lemma PlaceholderMismatch(key: string, other: string, rest: string)
    requires NoBrace(key) && NoBrace(other) && key != other
    ensures |Placeholder(other) + rest| >= |Placeholder(key)| ==>
              (Placeholder(other) + rest)[..|Placeholder(key)|] != Placeholder(key)
  {
    if |Placeholder(other) + rest| < |Placeholder(key)| { return; }
    var p := Placeholder(key);
    var x := Placeholder(other) + rest;
    if |key| < |other| {
      assert x[|key| + 1] == other[|key|] && p[|key| + 1] == '}';
    } else if |key| == |other| {
      assert x[..|p|] == Placeholder(other);
      assert Placeholder(other)[1..|p| - 1] == other;
    } else {
      assert x[|other| + 1] == '}' && p[|other| + 1] == key[|other|];
    }
  }

  /** A placeholder is `"{"` followed by the key and `"}"`. */
  lemma PlaceholderShape(other: string, rest: string)
    ensures Placeholder(other) + rest == ['{'] + ((other + "}") + rest)
    ensures Placeholder(other) == ['{'] + (other + "}")
  {
  }

  /** One round of the loop, the one for key `k`, turns that key's placeholders
      into its value and leaves everything else as it was. */
  lemma {:induction false} ReplaceRound(pieces: seq<Piece>, ctx: Context, k: nat)
    requires k < |ctx| && WellFormedKeys(ctx) && PlainValues(ctx)
    requires SlotsIn(pieces, |ctx|) && PlainLiterals(pieces)
    ensures ReplaceAll(Render(pieces, ctx, k), Placeholder(ctx[k].0), ctx[k].1) == Render(pieces, ctx, k + 1)
    decreases |pieces|
  {
    var p := Placeholder(ctx[k].0);
    var v := ctx[k].1;
    if pieces == [] {
      ReplaceShort([], p, v);
    } else {
      var tail := pieces[1..];
      assert forall j :: 0 <= j < |tail| ==> tail[j] == pieces[j + 1];
      ReplaceRound(tail, ctx, k);
      var rest := Render(tail, ctx, k);
      match pieces[0]
      case Literal(t) =>
        ReplacePlainPrefix(t, rest, p, v);
      case Slot(i) =>
        if i < k {
          ReplacePlainPrefix(ctx[i].1, rest, p, v);
        } else if i == k {
          ReplaceAtFront(p, rest, v);
        } else {
          OtherPlaceholderFront(ctx[k].0, ctx[i].0, rest, v);
        }
    }
  }

  lemma {:induction false} FilledRounds(pieces: seq<Piece>, ctx: Context, k: nat)
    requires k <= |ctx| && WellFormedKeys(ctx) && PlainValues(ctx)
    requires SlotsIn(pieces, |ctx|) && PlainLiterals(pieces)
    ensures Filled(Render(pieces, ctx, 0), ctx[..k]) == Render(pieces, ctx, k)
    decreases k
  {
    if k > 0 {
      var pre := ctx[..k];
      assert pre[..k - 1] == ctx[..k - 1];
      FilledRounds(pieces, ctx, k - 1);
      ReplaceRound(pieces, ctx, k - 1);
    }
  }

  /** With distinct brace-free keys, literal text and values without `{`, the
      filled template is the template with every placeholder replaced by its
      field's value and every literal kept. */
  lemma TemplateFilled(pieces: seq<Piece>, ctx: Context)
    requires WellFormedKeys(ctx) && PlainValues(ctx)
    requires SlotsIn(pieces, |ctx|) && PlainLiterals(pieces)
    ensures Filled(Render(pieces, ctx, 0), ctx) == Render(pieces, ctx, |ctx|)
  {
    FilledRounds(pieces, ctx, |ctx|);
    assert ctx[..|ctx|] == ctx;
  }

  /** The five keys of the alert form are distinct and hold no brace. */
  lemma FormKeysWellFormed(form: AlertForm)
    ensures WellFormedKeys(FormContext(form))
  {
    var ctx := FormContext(form);
    FormKeysNoBrace();
    FormKeysDistinct();
    assert forall i :: 0 <= i < 5 ==> ctx[i].0 == FormKeys[i];
  }

  lemma FormKeysNoBrace()
    ensures forall i :: 0 <= i < |FormKeys| ==> NoBrace(FormKeys[i])
  {
    assert NoBrace("customer_id") && NoBrace("customer_name") && NoBrace("start_date");
    assert NoBrace("end_date") && NoBrace("account_purpose");
  }

  /** The keys have five different lengths. */
  lemma FormKeysDistinct()
    ensures forall i, j :: 0 <= i < j < |FormKeys| ==> FormKeys[i] != FormKeys[j]
  {
    assert |FormKeys[0]| == 11 && |FormKeys[1]| == 13 && |FormKeys[2]| == 10;
    assert |FormKeys[3]| == 8 && |FormKeys[4]| == 15;
  }

  /** A template that is just one form placeholder (`{customer_name}`, say)
      yields that field's stripped value, provided no value contains `{`. */
  lemma FormPlaceholderFilled(form: AlertForm, i: nat)
    requires i < 5
    requires forall j :: 0 <= j < 5 ==> '{' !in FormValues(form)[j]
    ensures Filled(Placeholder(FormKeys[i]), FormContext(form)) == FormValues(form)[i]
  {
    var ctx := FormContext(form);
    FormKeysWellFormed(form);
    assert forall j :: 0 <= j < |ctx| ==> ctx[j].1 == FormValues(form)[j];
    PlaceholderFilled(ctx, i);
  }

  /** The same for the alert form: every `{customer_id}`, `{customer_name}`,
      `{start_date}`, `{end_date}` and `{account_purpose}` of a template becomes
      the stripped field value. */
  lemma FormTemplateFilled(form: AlertForm, pieces: seq<Piece>)
    requires SlotsIn(pieces, 5) && PlainLiterals(pieces)
    requires forall j :: 0 <= j < 5 ==> '{' !in FormValues(form)[j]
    ensures Filled(Render(pieces, FormContext(form), 0), FormContext(form)) == Render(pieces, FormContext(form), 5)
  {
    var ctx := FormContext(form);
    FormKeysWellFormed(form);
    assert forall j :: 0 <= j < |ctx| ==> ctx[j].1 == FormValues(form)[j];
    TemplateFilled(pieces, ctx);
  }

  /** Why "Generate Alert" stops with a warning. */
  datatype AlertError = MissingTemplate | TemplateNotFound | MissingInfo

  /** The narrative: the folder it is saved in, its file name and its text. */
  datatype Alert = Alert(folder: string, fileName: string, text: string)

  /** A form field left blank (after stripping). */
  predicate HasBlankField(form: AlertForm) {
    exists i :: 0 <= i < 5 && FormValues(form)[i] == []
  }

  /** The file `generate_alert` reads: the stem the name map gives the selected
      name, or the name itself when unmapped. */
  function TemplatePath(nameMap: map<string, string>, selected: string): string {
    Lookup(nameMap, selected, selected) + Templates.TextSuffix
  }

  /** `generate_alert`, with the template directory `files`, the dropdown's name
      map, the selected name, the home directory and the case entry as inputs. */
  function AlertResult(files: map<string, string>, nameMap: map<string, string>, selected: string,
                       form: AlertForm, home: string, caseEntry: string): (r: Result<Alert, AlertError>)
    ensures r == Failure(MissingTemplate) <==> selected == []
    ensures r == Failure(TemplateNotFound) <==> selected != [] && TemplatePath(nameMap, selected) !in files
    ensures r == Failure(MissingInfo) <==>
              selected != [] && TemplatePath(nameMap, selected) in files && HasBlankField(form)
    ensures r.Success? ==>
              && r.value.folder == TraceCase.InvestigationDir(home, caseEntry)
              && r.value.fileName == TraceCase.FilePrefix(caseEntry) + "Narrative.docx"
              && r.value.text == Filled(files[TemplatePath(nameMap, selected)], FormContext(form))
  {
    if selected == [] then Failure(MissingTemplate)
    else
      var path := TemplatePath(nameMap, selected);
      if path !in files then Failure(TemplateNotFound)
      else if HasBlankField(form) then Failure(MissingInfo)
      else
        Success(Alert(TraceCase.InvestigationDir(home, caseEntry),
                      TraceCase.FilePrefix(caseEntry) + "Narrative.docx",
                      Filled(files[path], FormContext(form))))
  }

  /** `generate_alert`: the checks in order, then the filling loop. */
  method GenerateAlert(files: map<string, string>, nameMap: map<string, string>, selected: string,
                       form: AlertForm, home: string, caseEntry: string) returns (r: Result<Alert, AlertError>)
    ensures r == AlertResult(files, nameMap, selected, form, home, caseEntry)
  {
    if selected == [] {
      return Failure(MissingTemplate);
    }
    var path := TemplatePath(nameMap, selected);
    if path !in files {
      return Failure(TemplateNotFound);
    }
    if HasBlankField(form) {
      return Failure(MissingInfo);
    }
    var ctx := FormContext(form);
    var text := Fill(files[path], ctx);
    r := Success(Alert(TraceCase.InvestigationDir(home, caseEntry), TraceCase.FilePrefix(caseEntry) + "Narrative.docx", text));
  }

  /** Any name the dropdown offers, loaded from the directory, names a template
      that exists: selecting it never reports "Selected template not found". */
  lemma ListedTemplateFound(listing: seq<string>, files: map<string, string>, selected: string,
                            form: AlertForm, home: string, caseEntry: string)
    requires Templates.IsListing(listing, files)
    requires selected in Templates.NameMap(Templates.Loaded(listing))
    ensures AlertResult(files, Templates.NameMap(Templates.Loaded(listing)), selected, form, home, caseEntry)
              != Failure(TemplateNotFound)
  {
    Templates.NameMapPointsToFiles(listing, files);
  }
}
