/** The row-wise rules of the transaction CSV tab (`TransactionCSVFrame.run` in
    Trace_v1.py): text columns are lower-cased, failed and denied rows are
    dropped, every remaining row gets one category, and its amount falls back
    from the USD value to the original-currency amount. A missing column reads
    as `""` (text) or `0` (amount), which is what every rule below does with it;
    the summaries built from the rows are not modelled. */
module Transactions {
  import opened Text

  /** One CSV row, reduced to the columns the rules read; amounts are integers
      (a value `pd.to_numeric` cannot read is already `0`). */
  datatype Row = Row(activityState: string, activity: string, fundingType: string,
                     usdValue: int, originalAmount: int)

  /** `df[col].astype(str).str.lower()` applied to the text columns. */
  function Normalize(r: Row): (n: Row)
    ensures n.usdValue == r.usdValue && n.originalAmount == r.originalAmount
    ensures n.activityState == Lower(r.activityState)
    ensures n.activity == Lower(r.activity) && n.fundingType == Lower(r.fundingType)
  {
    r.(activityState := Lower(r.activityState), activity := Lower(r.activity),
       fundingType := Lower(r.fundingType))
  }

  /** Lower-casing twice is lower-casing once. */
  lemma NormalizeIdempotent(r: Row)
    ensures Normalize(Normalize(r)) == Normalize(r)
  {
    LowerIdempotent(r.activityState);
    LowerIdempotent(r.activity);
    LowerIdempotent(r.fundingType);
  }

  lemma LowerIdempotent(s: string)
    ensures Lower(Lower(s)) == Lower(s)
  {
    forall i | 0 <= i < |s| ensures Lower(Lower(s))[i] == Lower(s)[i] {
      var c := s[i];
      assert Lower(s)[i] == LowerChar(c);
    }
  }

  // ---------------------------------------------------------------------------
  // The failed/denied filter
  // ---------------------------------------------------------------------------

  /** `activity_state.isin(['failed', 'denied'])`, on a normalised row. */
  predicate Rejected(r: Row) {
    r.activityState == "failed" || r.activityState == "denied"
  }

  /** Because the filter runs after lower-casing, it ignores case: a row is
      kept exactly when its activity state, lower-cased, is neither `failed`
      nor `denied`. */
  lemma FilterIgnoresCase(rows: seq<Row>, r: Row)
    requires r in rows
    ensures Normalize(r) in ValidRows(NormalizeAll(rows)) <==>
              Lower(r.activityState) != "failed" && Lower(r.activityState) != "denied"
  {
    var n := NormalizeAll(rows);
    var i :| 0 <= i < |rows| && rows[i] == r;
    assert n[i] == Normalize(r);
    ValidRowsCount(n, Normalize(r));
    assert Normalize(r) in multiset(n);
    if !Rejected(Normalize(r)) {
      assert Normalize(r) in multiset(ValidRows(n));
    }
  }

  /** `FAILED` and `Denied` rows are dropped like `failed` and `denied` ones. */
  lemma MixedCaseRejected(r: Row)
    requires r.activityState == "FAILED" || r.activityState == "Denied"
    ensures Rejected(Normalize(r))
  {
    var l := Lower(r.activityState);
    if r.activityState == "FAILED" {
      assert l[0] == 'f' && l[1] == 'a' && l[2] == 'i' && l[3] == 'l' && l[4] == 'e' && l[5] == 'd';
      assert l == "failed";
    } else {
      assert l[0] == 'd' && l[1] == 'e' && l[2] == 'n' && l[3] == 'i' && l[4] == 'e' && l[5] == 'd';
      assert l == "denied";
    }
  }

  /** `df[~df['activity_state'].isin(['failed', 'denied'])]`. */
  function ValidRows(rows: seq<Row>): (valid: seq<Row>)
    ensures |valid| <= |rows|
    ensures forall r :: r in valid ==> r in rows && !Rejected(r)
    decreases |rows|
  {
    if rows == [] then []
    else (if Rejected(rows[0]) then [] else [rows[0]]) + ValidRows(rows[1..])
  }

  /** Filtering a concatenation filters each part: the kept rows stay in order. */
  lemma {:induction false} ValidRowsConcat(a: seq<Row>, b: seq<Row>)
    ensures ValidRows(a + b) == ValidRows(a) + ValidRows(b)
    decreases |a|
  {
    if a != [] {
      var head := if Rejected(a[0]) then [] else [a[0]];
      var v, w := ValidRows(a[1..]), ValidRows(b);
      ValidRowsCons(a, b);
      ValidRowsConcat(a[1..], b);
      assert head + (v + w) == (head + v) + w;
    } else {
      assert a + b == b;
    }
  }

  /** The first row of `a + b` is the first row of `a`. */
  lemma ValidRowsCons(a: seq<Row>, b: seq<Row>)
    requires a != []
    ensures ValidRows(a + b) == (if Rejected(a[0]) then [] else [a[0]]) + ValidRows(a[1..] + b)
    ensures ValidRows(a) == (if Rejected(a[0]) then [] else [a[0]]) + ValidRows(a[1..])
  {
    assert (a + b)[0] == a[0];
    assert (a + b)[1..] == a[1..] + b;
  }

  /** Every row not rejected is kept as often as it occurs; rejected rows vanish. */
  lemma {:induction false} ValidRowsCount(rows: seq<Row>, r: Row)
    ensures multiset(ValidRows(rows))[r] == if Rejected(r) then 0 else multiset(rows)[r]
    decreases |rows|
  {
    if rows != [] {
      var tail := rows[1..];
      var head := if Rejected(rows[0]) then [] else [rows[0]];
      ValidRowsCount(tail, r);
      assert ValidRows(rows) == head + ValidRows(tail);
      CountConcat(head, ValidRows(tail), r);
      CountCons(rows, r);
      HeadCount(rows[0], r);
    }
  }

  /** The part of `ValidRows` a single row contributes. */
  lemma HeadCount(x: Row, r: Row)
    ensures multiset(if Rejected(x) then [] else [x])[r] == if Rejected(r) then 0 else multiset([x])[r]
  {
  }

  /** A row list counts its first row and then the rest. */
  lemma CountCons(rows: seq<Row>, r: Row)
    requires rows != []
    ensures multiset(rows)[r] == multiset([rows[0]])[r] + multiset(rows[1..])[r]
  {
    assert rows == [rows[0]] + rows[1..];
    CountConcat([rows[0]], rows[1..], r);
  }

  /** Occurrences in a concatenation add up. */
  lemma CountConcat(a: seq<Row>, b: seq<Row>, r: Row)
    ensures multiset(a + b)[r] == multiset(a)[r] + multiset(b)[r]
  {
  }

  // ---------------------------------------------------------------------------
  // Categories
  // ---------------------------------------------------------------------------

  datatype Category = OnchainReceive | OnchainSpend | IncomingWire | OutgoingWire | Other

  /** The categories in the order of the `categories` dictionary. */
  const Ordered: seq<Category> := [OnchainReceive, OnchainSpend, IncomingWire, OutgoingWire]

  /** The lambda of each category, on a normalised row; `Other` has none. */
  predicate Matches(c: Category, r: Row) {
    match c
    case OnchainReceive => r.activity == "receive" && r.fundingType == "blockchain"
    case OnchainSpend => r.activity == "spend"
    case IncomingWire => r.activity == "receive" && r.fundingType == "fiat_account"
    case OutgoingWire => r.activity == "eft_transfer"
    case Other => false
  }

  /** The category of a row after the masks of the first `k` categories have
      been applied over the default `other`: the last one that matched wins. */
  function CategoryAfter(r: Row, k: nat): Category
    requires k <= |Ordered|
  {
    if k == 0 then Other
    else if Matches(Ordered[k - 1], r) then Ordered[k - 1]
    else CategoryAfter(r, k - 1)
  }

  /** The category a row ends up with. Exactly one per row: a row is in
      category `c` exactly when `c`'s lambda holds of it, and in `other`
      exactly when none does. */
  function CategoryOf(r: Row): (cat: Category)
    ensures forall c :: c != Other ==> (cat == c <==> Matches(c, r))
    ensures cat == Other <==> forall d :: !Matches(d, r)
  {
    forall c | c != Other ensures CategoryAfter(r, |Ordered|) == c <==> Matches(c, r) {
      CategoryAfterIsTheMatch(r, c);
    }
    CategoryAfterIsTheMatch(r, Other);
    CategoryAfter(r, |Ordered|)
  }

  /** The four lambdas never hold together: no row matches two categories. */
  lemma MatchesExclusive(r: Row, c: Category, d: Category)
    requires Matches(c, r) && Matches(d, r)
    ensures c == d
  {
    assert |"receive"| == 7 && |"spend"| == 5 && |"eft_transfer"| == 12;
    assert |"blockchain"| == 10 && |"fiat_account"| == 12;
  }

  /** After `k` masks a row carries a category only if its lambda holds, and it
      carries one whenever one of the first `k` lambdas holds. */
  lemma {:induction false} CategoryAfterMatches(r: Row, k: nat)
    requires k <= |Ordered|
    ensures CategoryAfter(r, k) != Other ==> Matches(CategoryAfter(r, k), r)
    ensures (exists j :: 0 <= j < k && Matches(Ordered[j], r)) ==> CategoryAfter(r, k) != Other
  {
    if k > 0 {
      CategoryAfterMatches(r, k - 1);
      assert Ordered[k - 1] != Other;
    }
  }

  lemma {:induction false} CategoryAfterIsTheMatch(r: Row, c: Category)
    ensures c != Other ==> (CategoryAfter(r, |Ordered|) == c <==> Matches(c, r))
    ensures CategoryAfter(r, |Ordered|) == Other <==> forall d :: !Matches(d, r)
  {
    assert Ordered[0] == OnchainReceive && Ordered[1] == OnchainSpend;
    assert Ordered[2] == IncomingWire && Ordered[3] == OutgoingWire;
    if c != Other && Matches(c, r) {
      forall d | Matches(d, r) ensures d == c { MatchesExclusive(r, c, d); }
    }
    CategoryAfterMatches(r, |Ordered|);
    if c != Other && Matches(c, r) {
      var j :| 0 <= j < |Ordered| && Ordered[j] == c;
    }
  }

  /** `valid_rows['category'] = 'other'`, then for each category in order
      `valid_rows.loc[mask, 'category'] = cat`. */
  method Categorize(rows: seq<Row>) returns (cats: seq<Category>)
    ensures |cats| == |rows|
    ensures forall i :: 0 <= i < |rows| ==> cats[i] == CategoryOf(rows[i])
  {
    var column := new Category[|rows|](_ => Other);
    var k := 0;
    while k < |Ordered|
      invariant 0 <= k <= |Ordered|
      invariant forall i :: 0 <= i < |rows| ==> column[i] == CategoryAfter(rows[i], k)
    {
      var cat := Ordered[k];
      var i := 0;
      while i < |rows|
        invariant 0 <= i <= |rows|
        invariant forall j :: 0 <= j < i ==> column[j] == CategoryAfter(rows[j], k + 1)
        invariant forall j :: i <= j < |rows| ==> column[j] == CategoryAfter(rows[j], k)
      {
        if Matches(cat, rows[i]) {
          column[i] := cat;
        }
        i := i + 1;
      }
      k := k + 1;
    }
    cats := column[..];
  }

  // ---------------------------------------------------------------------------
  // Amounts
  // ---------------------------------------------------------------------------

  /** The `amount` column: the USD value, or the original-currency amount where
      the USD value is 0. */
  function Amount(r: Row): (a: int)
    ensures a == r.usdValue || a == r.originalAmount
    ensures a == 0 <==> r.usdValue == 0 && r.originalAmount == 0
    ensures r.usdValue != 0 ==> a == r.usdValue
  {
    if r.usdValue == 0 then r.originalAmount else r.usdValue
  }

  /** `valid_rows['amount'] = valid_rows['usd_value_updated']`, then
      `valid_rows.loc[zero_mask, 'amount'] = valid_rows['original_currency_amount_updated']`. */
  method AssignAmounts(rows: seq<Row>) returns (amounts: seq<int>)
    ensures |amounts| == |rows|
    ensures forall i :: 0 <= i < |rows| ==>
              (rows[i].usdValue != 0 ==> amounts[i] == rows[i].usdValue) &&
              (rows[i].usdValue == 0 ==> amounts[i] == rows[i].originalAmount)
  {
    var column := new int[|rows|](_ => 0);
    var i := 0;
    while i < |rows|
      invariant 0 <= i <= |rows|
      invariant forall j :: 0 <= j < i ==> column[j] == rows[j].usdValue
    {
      column[i] := rows[i].usdValue;
      i := i + 1;
    }
    i := 0;
    while i < |rows|
      invariant 0 <= i <= |rows|
      invariant forall j :: 0 <= j < i ==> column[j] == Amount(rows[j])
      invariant forall j :: i <= j < |rows| ==> column[j] == rows[j].usdValue
    {
      if column[i] == 0 {
        column[i] := rows[i].originalAmount;
      }
      i := i + 1;
    }
    amounts := column[..];
  }

  /** A kept row with its category and amount. */
  datatype Classified = Classified(row: Row, category: Category, amount: int)

  function ClassifiedOf(r: Row): Classified {
    Classified(r, CategoryOf(r), Amount(r))
  }

  /** The lower-casing step, on every row. */
  function NormalizeAll(rows: seq<Row>): (n: seq<Row>)
    ensures |n| == |rows| && forall i :: 0 <= i < |rows| ==> n[i] == Normalize(rows[i])
  {
    seq(|rows|, i requires 0 <= i < |rows| => Normalize(rows[i]))
  }

  /** The row-wise part of `run`: normalise, drop failed and denied rows, then
      add the category and amount columns. */
  method ClassifyRows(rows: seq<Row>) returns (out: seq<Classified>)
    ensures |out| == |ValidRows(NormalizeAll(rows))|
    ensures forall i :: 0 <= i < |out| ==> out[i] == ClassifiedOf(ValidRows(NormalizeAll(rows))[i])
  {
    var valid := ValidRows(NormalizeAll(rows));
    var cats := Categorize(valid);
    var amounts := AssignAmounts(valid);
    out := seq(|valid|, i requires 0 <= i < |valid| => Classified(valid[i], cats[i], amounts[i]));
  }
}
