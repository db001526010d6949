/** The version rule of the updater (`UpdateManager` in update_manager.py):
    release tags are compared as lists of integers, and an update is offered
    only when the latest release tag is strictly newer than the running
    version. */
module Versions {
  import opened Wrappers
  import opened Text

  /** The `ValueError` that `int(x)` raises on a component that is not a decimal number. */
  datatype VersionError = InvalidComponent(component: string)

  /** `[int(x) for x in parts]`: every part as a number, or the first part that is not one. */
  function ParseComponents(parts: seq<string>): (r: Result<seq<nat>, VersionError>)
    ensures r.Success? <==> forall i :: 0 <= i < |parts| ==> ParseNat(parts[i]).Some?
    ensures r.Success? ==> |r.value| == |parts|
    ensures r.Success? ==> forall i :: 0 <= i < |parts| ==> ParseNat(parts[i]) == Some(r.value[i])
    ensures r.Failure? ==> exists i :: 0 <= i < |parts| && r.error == InvalidComponent(parts[i])
                                       && ParseNat(parts[i]).None?
                                       && forall j :: 0 <= j < i ==> ParseNat(parts[j]).Some?
  {
    if parts == [] then Success([])
    else
      match ParseNat(parts[0])
      case None => Failure(InvalidComponent(parts[0]))
      case Some(n) =>
        match ParseComponents(parts[1..])
        case Failure(e) =>
          ghost var i :| 0 <= i < |parts[1..]| && e == InvalidComponent(parts[1..][i])
                         && ParseNat(parts[1..][i]).None?
                         && forall j :: 0 <= j < i ==> ParseNat(parts[1..][j]).Some?;
          assert forall j :: 0 <= j < i + 1 ==> ParseNat(parts[j]).Some? by {
            forall j | 0 <= j < i + 1 ensures ParseNat(parts[j]).Some? {
              if j > 0 { assert parts[j] == parts[1..][j - 1]; }
            }
          }
          Failure(e)
        case Success(ns) => Success([n] + ns)
  }

  /** `v.lstrip('v').split('.')` with every piece read by `int`. */
  function ParseVersion(v: string): (r: Result<seq<nat>, VersionError>)
    ensures r.Success? ==> |r.value| >= 1
    ensures (forall i :: 0 <= i < |v| ==> v[i] == 'v') ==> r == Failure(InvalidComponent(""))
  {
    var t := StripLeading(v, 'v');
    assert t != [] ==> t[0] == v[|v| - |t|];
    assert t == [] ==> Split(t, '.') == [[]];
    ParseComponents(Split(t, '.'))
  }

  /** Python's `<` on two lists of integers: the first position where they
      differ decides, and a proper prefix is smaller than the longer list. */
  predicate ListLess(a: seq<nat>, b: seq<nat>)
    ensures |a| < |b| && a == b[..|a|] ==> ListLess(a, b)
    decreases |a|
  {
    if a == [] then b != []
    else if b == [] then false
    else if a[0] != b[0] then
      assert |a| <= |b| ==> b[..|a|][0] == b[0];
      a[0] < b[0]
    else
      assert |a| < |b| && a == b[..|a|] ==> a[1..] == b[1..][..|a| - 1];
      ListLess(a[1..], b[1..])
  }

  /** The textbook lexicographic order, as an independent reference for `ListLess`:
      the lists agree up to `k`, and there `a` ends first or has the smaller element. */
  ghost predicate LexLessAt(a: seq<nat>, b: seq<nat>, k: nat) {
    && k <= |a| && k <= |b| && a[..k] == b[..k]
    && ((k == |a| && k < |b|) || (k < |a| && k < |b| && a[k] < b[k]))
  }

  lemma {:induction false} ListLessIsLexicographic(a: seq<nat>, b: seq<nat>)
    ensures ListLess(a, b) <==> exists k: nat :: LexLessAt(a, b, k)
    decreases |a|
  {
    if a == [] {
      if b != [] { assert LexLessAt(a, b, 0); }
    } else if b == [] {
    } else if a[0] != b[0] {
      if a[0] < b[0] { assert LexLessAt(a, b, 0); }
      assert forall k: nat :: 0 < k <= |a| && k <= |b| ==> a[..k][0] == a[0] && b[..k][0] == b[0];
    } else {
      ListLessIsLexicographic(a[1..], b[1..]);
      if ListLess(a, b) {
        var k: nat :| LexLessAt(a[1..], b[1..], k);
        assert a[..k + 1] == [a[0]] + a[1..][..k];
        assert b[..k + 1] == [b[0]] + b[1..][..k];
        assert LexLessAt(a, b, k + 1);
      }
      forall k: nat | LexLessAt(a, b, k) ensures ListLess(a, b) {
        assert k > 0;
        assert a[1..][..k - 1] == a[..k][1..];
        assert b[1..][..k - 1] == b[..k][1..];
        assert LexLessAt(a[1..], b[1..], k - 1);
      }
    }
  }

  lemma {:induction false} ListLessIrreflexive(a: seq<nat>)
    ensures !ListLess(a, a)
    decreases |a|
  {
    if a != [] { ListLessIrreflexive(a[1..]); }
  }

  lemma {:induction false} ListLessAsymmetric(a: seq<nat>, b: seq<nat>)
    requires ListLess(a, b)
    ensures !ListLess(b, a)
    decreases |a|
  {
    if a != [] && b != [] && a[0] == b[0] { ListLessAsymmetric(a[1..], b[1..]); }
  }

  lemma {:induction false} ListLessTransitive(a: seq<nat>, b: seq<nat>, c: seq<nat>)
    requires ListLess(a, b) && ListLess(b, c)
    ensures ListLess(a, c)
    decreases |a|
  {
    if a != [] && a[0] == b[0] && b[0] == c[0] {
      ListLessTransitive(a[1..], b[1..], c[1..]);
    }
  }

  lemma {:induction false} ListLessTotal(a: seq<nat>, b: seq<nat>)
    requires a != b
    ensures ListLess(a, b) || ListLess(b, a)
    decreases |a|
  {
    if a != [] && b != [] && a[0] == b[0] {
      assert a == [a[0]] + a[1..] && b == [b[0]] + b[1..];
      ListLessTotal(a[1..], b[1..]);
    }
  }

  /** `(a > b) - (a < b)` on two lists of integers. */
  function CompareLists(a: seq<nat>, b: seq<nat>): (c: int)
    ensures c == -1 || c == 0 || c == 1
    ensures c == 0 <==> a == b
    ensures c == -1 <==> ListLess(a, b)
    ensures c == 1 <==> ListLess(b, a)
  {
    ListLessIrreflexive(a);
    if ListLess(a, b) then ListLessAsymmetric(a, b); -1
    else if ListLess(b, a) then 1
    else NeitherLessIsEqual(a, b); 0
  }

  lemma NeitherLessIsEqual(a: seq<nat>, b: seq<nat>)
    requires !ListLess(a, b) && !ListLess(b, a)
    ensures a == b
  {
    if a != b { ListLessTotal(a, b); }
  }

  /** `UpdateManager._compare_versions(v1, v2)`; a failure stands for the
      `ValueError` raised while parsing `v1` first, then `v2`. */
  function CompareVersions(v1: string, v2: string): (r: Result<int, VersionError>)
    ensures r.Success? <==> ParseVersion(v1).Success? && ParseVersion(v2).Success?
    ensures r.Success? ==> r.value == -1 || r.value == 0 || r.value == 1
    ensures r.Success? ==> (r.value == 0 <==> ParseVersion(v1).value == ParseVersion(v2).value)
    ensures r.Success? ==> (r.value == 1 <==> ListLess(ParseVersion(v2).value, ParseVersion(v1).value))
    ensures ParseVersion(v1).Failure? ==> r == Failure(ParseVersion(v1).error)
  {
    match ParseVersion(v1)
    case Failure(e) => Failure(e)
    case Success(a) =>
      match ParseVersion(v2)
      case Failure(e) => Failure(e)
      case Success(b) => Success(CompareLists(a, b))
  }

  lemma CompareReflexive(v: string)
    ensures ParseVersion(v).Success? ==> CompareVersions(v, v) == Success(0)
    ensures ParseVersion(v).Failure? ==> CompareVersions(v, v).Failure?
  {
  }

  lemma CompareAntisymmetric(v1: string, v2: string)
    requires CompareVersions(v1, v2).Success?
    ensures CompareVersions(v2, v1).Success?
    ensures CompareVersions(v1, v2).value == -CompareVersions(v2, v1).value
  {
    var a, b := ParseVersion(v1).value, ParseVersion(v2).value;
    if ListLess(a, b) { ListLessAsymmetric(a, b); }
    if ListLess(b, a) { ListLessAsymmetric(b, a); }
  }

  /** Comparison agrees with a total order: it is transitive in both the strict and the equal case. */
  lemma CompareTransitive(v1: string, v2: string, v3: string, c: int)
    requires c == -1 || c == 0 || c == 1
    requires CompareVersions(v1, v2) == Success(c) && CompareVersions(v2, v3) == Success(c)
    ensures CompareVersions(v1, v3) == Success(c)
  {
    var a, b, d := ParseVersion(v1).value, ParseVersion(v2).value, ParseVersion(v3).value;
    if c == -1 { ListLessTransitive(a, b, d); }
    if c == 1 { ListLessTransitive(d, b, a); }
  }

  /** A `v` in front of a tag changes nothing: `lstrip('v')` removes all of them. */
  lemma LeadingVIgnored(v: string)
    ensures ParseVersion("v" + v) == ParseVersion(v)
  {
    assert ("v" + v)[1..] == v;
    assert StripLeading("v" + v, 'v') == StripLeading(v, 'v');
  }

  lemma LeadingVIgnoredInComparison(v1: string, v2: string)
    ensures CompareVersions("v" + v1, v2) == CompareVersions(v1, v2)
    ensures CompareVersions(v1, "v" + v2) == CompareVersions(v1, v2)
  {
    LeadingVIgnored(v1);
    LeadingVIgnored(v2);
  }

  /** A dot-join of pieces that starts with a digit is split back into those pieces. */
  lemma ParseVersionOfJoinParts(parts: seq<string>)
    requires |parts| >= 1 && parts[0] != [] && IsDigit(parts[0][0])
    requires forall i :: 0 <= i < |parts| ==> '.' !in parts[i]
    ensures ParseVersion(Join(parts, '.')) == ParseComponents(parts)
  {
    var s := Join(parts, '.');
    JoinStartsWithFirst(parts, '.');
    assert s[0] == parts[0][0];
    assert StripLeading(s, 'v') == s;
    SplitOfJoin(parts, '.');
  }

  /** A tag written as the dot-join of decimal components parses to those numbers. */
  lemma ParseVersionOfJoin(parts: seq<string>, nums: seq<nat>)
    requires |parts| >= 1 && |parts| == |nums|
    requires forall i :: 0 <= i < |parts| ==> '.' !in parts[i] && ParseNat(parts[i]) == Some(nums[i])
    ensures ParseVersion(Join(parts, '.')) == Success(nums)
  {
    assert ParseNat(parts[0]).Some?;
    ParseVersionOfJoinParts(parts);
    ParseComponentsOfNumbers(parts, nums);
  }

  lemma ParseComponentsOfNumbers(parts: seq<string>, nums: seq<nat>)
    requires |parts| == |nums|
    requires forall i :: 0 <= i < |parts| ==> ParseNat(parts[i]) == Some(nums[i])
    ensures ParseComponents(parts) == Success(nums)
  {
    var r := ParseComponents(parts);
    assert r.Success?;
    assert r.value == nums;
  }

  lemma DotFreeConcat(p: seq<string>, q: seq<string>)
    requires forall i :: 0 <= i < |p| ==> '.' !in p[i]
    requires forall i :: 0 <= i < |q| ==> '.' !in q[i]
    ensures forall i :: 0 <= i < |p + q| ==> '.' !in (p + q)[i]
  {
    forall i | 0 <= i < |p + q| ensures '.' !in (p + q)[i] {
      if i >= |p| { assert (p + q)[i] == q[i - |p|]; }
    }
  }

  /** Lists that agree up to a last element compare by that element. */
  lemma {:induction false} ListLessLast(p: seq<nat>, x: nat, y: nat)
    requires x < y
    ensures ListLess(p + [x], p + [y])
    decreases |p|
  {
    if p != [] {
      assert (p + [x])[1..] == p[1..] + [x];
      assert (p + [y])[1..] == p[1..] + [y];
      ListLessLast(p[1..], x, y);
    }
  }

  /** A proper prefix is smaller. */
  lemma {:induction false} ListLessProperPrefix(p: seq<nat>, q: seq<nat>)
    requires q != []
    ensures ListLess(p, p + q)
    decreases |p|
  {
    if p != [] {
      assert (p + q)[1..] == p[1..] + q;
      ListLessProperPrefix(p[1..], q);
    }
  }

  /** Appending one more decimal component appends its number. */
  lemma ParseVersionAppend(prefix: seq<string>, pn: seq<nat>, a: string, x: nat)
    requires |prefix| == |pn|
    requires forall i :: 0 <= i < |prefix| ==> '.' !in prefix[i] && ParseNat(prefix[i]) == Some(pn[i])
    requires '.' !in a && ParseNat(a) == Some(x)
    ensures ParseVersion(Join(prefix + [a], '.')) == Success(pn + [x])
  {
    var parts := prefix + [a];
    var nums := pn + [x];
    forall i | 0 <= i < |parts| ensures '.' !in parts[i] && ParseNat(parts[i]) == Some(nums[i]) {
      if i < |prefix| { assert parts[i] == prefix[i] && nums[i] == pn[i]; }
    }
    ParseVersionOfJoin(parts, nums);
  }

  /** Two parsed versions compare as their number lists do. */
  lemma CompareParsed(v1: string, v2: string, a: seq<nat>, b: seq<nat>)
    requires ParseVersion(v1) == Success(a) && ParseVersion(v2) == Success(b)
    ensures CompareVersions(v1, v2) == Success(CompareLists(a, b))
  {
  }

  /** Components compare as numbers, not as text: with the same leading
      components, the larger last number is the newer version (so `1.10` is
      newer than `1.9`). */
  lemma NumericNotTextual(prefix: seq<string>, pn: seq<nat>, a: string, b: string, x: nat, y: nat)
    requires |prefix| == |pn|
    requires forall i :: 0 <= i < |prefix| ==> '.' !in prefix[i] && ParseNat(prefix[i]) == Some(pn[i])
    requires '.' !in a && '.' !in b && ParseNat(a) == Some(x) && ParseNat(b) == Some(y) && x > y
    ensures CompareVersions(Join(prefix + [a], '.'), Join(prefix + [b], '.')) == Success(1)
  {
    ParseVersionAppend(prefix, pn, a, x);
    ParseVersionAppend(prefix, pn, b, y);
    CompareParsed(Join(prefix + [a], '.'), Join(prefix + [b], '.'), pn + [x], pn + [y]);
    ListLessLast(pn, y, x);
  }

  /** A proper prefix is older: adding components makes a newer version (so
      `1.0` is older than `1.0.0`). */
  lemma PrefixIsOlder(parts: seq<string>, nums: seq<nat>, more: seq<string>, moreNums: seq<nat>)
    requires |parts| >= 1 && |parts| == |nums| && |more| >= 1 && |more| == |moreNums|
    requires forall i :: 0 <= i < |parts| ==> '.' !in parts[i] && ParseNat(parts[i]) == Some(nums[i])
    requires forall i :: 0 <= i < |more| ==> '.' !in more[i] && ParseNat(more[i]) == Some(moreNums[i])
    ensures CompareVersions(Join(parts, '.'), Join(parts + more, '.')) == Success(-1)
  {
    ParseVersionOfJoin(parts, nums);
    ComponentsAppend(parts, nums, more, moreNums);
    ParseVersionOfJoin(parts + more, nums + moreNums);
    ListLessProperPrefix(nums, moreNums);
  }

  /** Two runs of decimal components make one. */
  lemma ComponentsAppend(parts: seq<string>, nums: seq<nat>, more: seq<string>, moreNums: seq<nat>)
    requires |parts| == |nums| && |more| == |moreNums|
    requires forall i :: 0 <= i < |parts| ==> '.' !in parts[i] && ParseNat(parts[i]) == Some(nums[i])
    requires forall i :: 0 <= i < |more| ==> '.' !in more[i] && ParseNat(more[i]) == Some(moreNums[i])
    ensures forall i :: 0 <= i < |parts + more| ==>
              '.' !in (parts + more)[i] && ParseNat((parts + more)[i]) == Some((nums + moreNums)[i])
  {
    forall i | 0 <= i < |parts + more|
      ensures '.' !in (parts + more)[i] && ParseNat((parts + more)[i]) == Some((nums + moreNums)[i])
    {
      if i >= |parts| {
        assert (parts + more)[i] == more[i - |parts|];
        assert (nums + moreNums)[i] == moreNums[i - |parts|];
      }
    }
  }

  /** A leading zero does not change a component's value. */
  lemma {:induction false} LeadingZeroValue(a: string)
    requires AllDigits(a)
    ensures AllDigits("0" + a) && DecimalValue("0" + a) == DecimalValue(a)
    decreases |a|
  {
    var s := "0" + a;
    assert IsDigit(s[0]);
    if a == [] {
      assert s[..0] == [];
    } else {
      assert s[..|s| - 1] == "0" + a[..|a| - 1];
      LeadingZeroValue(a[..|a| - 1]);
    }
  }

  /** Leading zeros do not matter (so `1.01` and `1.1` are the same version). */
  lemma LeadingZerosIgnored(prefix: seq<string>, pn: seq<nat>, a: string)
    requires |prefix| == |pn|
    requires forall i :: 0 <= i < |prefix| ==> '.' !in prefix[i] && ParseNat(prefix[i]) == Some(pn[i])
    requires '.' !in a && ParseNat(a).Some?
    ensures CompareVersions(Join(prefix + ["0" + a], '.'), Join(prefix + [a], '.')) == Success(0)
  {
    LeadingZeroValue(a);
    var x := ParseNat(a).value;
    assert ParseNat("0" + a) == Some(x);
    ParseVersionAppend(prefix, pn, "0" + a, x);
    ParseVersionAppend(prefix, pn, a, x);
    CompareParsed(Join(prefix + ["0" + a], '.'), Join(prefix + [a], '.'), pn + [x], pn + [x]);
  }

  /** Parsing stops at the first component that is not a number. */
  lemma {:induction false} FirstBadComponent(front: seq<string>, rest: seq<string>)
    requires forall i :: 0 <= i < |front| ==> ParseNat(front[i]).Some?
    requires |rest| >= 1 && ParseNat(rest[0]).None?
    ensures ParseComponents(front + rest) == Failure(InvalidComponent(rest[0]))
    decreases |front|
  {
    if front == [] {
      assert front + rest == rest;
    } else {
      assert (front + rest)[0] == front[0];
      assert (front + rest)[1..] == front[1..] + rest;
      FirstBadComponent(front[1..], rest);
    }
  }

  /** An empty component is not a number: a tag such as `1..2` cannot be compared. */
  lemma EmptyComponentRejected(front: seq<string>, back: seq<string>, other: string)
    requires |front| >= 1 && front[0] != [] && IsDigit(front[0][0])
    requires forall i :: 0 <= i < |front| ==> '.' !in front[i] && ParseNat(front[i]).Some?
    requires forall i :: 0 <= i < |back| ==> '.' !in back[i]
    ensures CompareVersions(Join(front + [""] + back, '.'), other) == Failure(InvalidComponent(""))
  {
    EmptyComponentUnparsed(front, back);
    CompareFailsFirst(Join(front + [""] + back, '.'), other);
  }

  lemma CompareFailsFirst(v1: string, v2: string)
    requires ParseVersion(v1).Failure?
    ensures CompareVersions(v1, v2) == Failure(ParseVersion(v1).error)
  {
  }

  lemma EmptyComponentUnparsed(front: seq<string>, back: seq<string>)
    requires |front| >= 1 && front[0] != [] && IsDigit(front[0][0])
    requires forall i :: 0 <= i < |front| ==> '.' !in front[i] && ParseNat(front[i]).Some?
    requires forall i :: 0 <= i < |back| ==> '.' !in back[i]
    ensures ParseVersion(Join(front + [""] + back, '.')) == Failure(InvalidComponent(""))
  {
    assert front + [""] + back == front + ([""] + back);
    JoinWithEmptyComponent(front, back);
    assert ([""] + back)[0] == "";
    FirstBadComponent(front, [""] + back);
  }

  lemma JoinWithEmptyComponent(front: seq<string>, back: seq<string>)
    requires |front| >= 1 && front[0] != [] && IsDigit(front[0][0])
    requires forall i :: 0 <= i < |front| ==> '.' !in front[i]
    requires forall i :: 0 <= i < |back| ==> '.' !in back[i]
    ensures ParseVersion(Join(front + ([""] + back), '.')) == ParseComponents(front + ([""] + back))
  {
    var rest := [""] + back;
    var parts := front + rest;
    DotFreeConcat(front, rest);
    assert parts[0] == front[0];
    ParseVersionOfJoinParts(parts);
  }

  // ---------------------------------------------------------------------------
  // check_for_updates
  // ---------------------------------------------------------------------------

  /** One entry of a release's `assets` list. */
  datatype Asset = Asset(name: string, downloadUrl: string)

  /** The decoded JSON of the latest release; `None` stands for a missing key. */
  datatype Release = Release(tagName: Option<string>, body: Option<string>, assets: Option<seq<Asset>>)

  /** Why a check failed: the request or its decoding, a missing key, or a bad version. */
  datatype UpdateError = RequestFailed(reason: string) | MissingKey(key: string) | BadVersion(cause: VersionError)

  /** The dictionary `check_for_updates` returns. */
  datatype UpdateInfo =
    | Available(version: string, releaseNotes: string, assets: seq<Asset>)
    | NotAvailable
    | CheckFailed(error: UpdateError)

  /** The version the application hands to its `UpdateManager` (Trace_v1.py). */
  const CurrentVersion := "1.0.0"

  /** `UpdateManager.check_for_updates`, with the HTTP fetch of the latest
      release (status check and JSON decoding included) given as `fetched`. */
  function CheckForUpdates(fetched: Result<Release, string>, current: string): (info: UpdateInfo)
    ensures info.Available? <==>
              && fetched.Success? && fetched.value.tagName.Some? && fetched.value.body.Some?
              && CompareVersions(fetched.value.tagName.value, current) == Success(1)
    ensures info.NotAvailable? <==>
              && fetched.Success? && fetched.value.tagName.Some?
              && CompareVersions(fetched.value.tagName.value, current).Success?
              && CompareVersions(fetched.value.tagName.value, current).value <= 0
    ensures info.Available? ==>
              && info.version == fetched.value.tagName.value
              && info.releaseNotes == fetched.value.body.value
              && info.assets == (if fetched.value.assets.Some? then fetched.value.assets.value else [])
    ensures fetched.Failure? ==> info == CheckFailed(RequestFailed(fetched.error))
    ensures fetched.Success? && fetched.value.tagName.None? ==> info == CheckFailed(MissingKey("tag_name"))
    ensures fetched.Success? && fetched.value.tagName.Some? &&
            CompareVersions(fetched.value.tagName.value, current).Failure? ==>
              info == CheckFailed(BadVersion(CompareVersions(fetched.value.tagName.value, current).error))
  {
    match fetched
    case Failure(reason) => CheckFailed(RequestFailed(reason))
    case Success(release) =>
      match release.tagName
      case None => CheckFailed(MissingKey("tag_name"))
      case Some(tag) =>
        match CompareVersions(tag, current)
        case Failure(e) => CheckFailed(BadVersion(e))
        case Success(c) =>
          if c > 0 then
            match release.body
            case None => CheckFailed(MissingKey("body"))
            case Some(notes) =>
              Available(tag, notes, if release.assets.Some? then release.assets.value else [])
          else NotAvailable
  }

  /** The shipped version reads as `[1, 0, 0]`. */
  lemma ShippedVersionParses()
    ensures ParseVersion(CurrentVersion) == Success([1, 0, 0])
  {
    assert ParseNat("1") == Some(1) by { assert "1"[..0] == []; }
    assert ParseNat("0") == Some(0) by { assert "0"[..0] == []; }
    assert Join(["1", "0", "0"], '.') == "1.0.0";
    ParseVersionOfJoin(["1", "0", "0"], [1, 0, 0]);
  }

  /** Against the shipped version 1.0.0, a release whose tag reads as `nums` is
      offered exactly when `nums` comes after `[1, 0, 0]`. */
  lemma UpdateAgainstShipped(tag: string, nums: seq<nat>, notes: string)
    requires ParseVersion(tag) == Success(nums)
    ensures CheckForUpdates(Success(Release(Some(tag), Some(notes), None)), CurrentVersion)
            == if ListLess([1, 0, 0], nums) then Available(tag, notes, []) else NotAvailable
  {
    ShippedVersionParses();
  }
}
