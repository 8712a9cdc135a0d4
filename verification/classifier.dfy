/**
  The pure classification rules of src/utils/bcdTransform.ts: usage score,
  baseline status, adoption offset, impact tier and category label.
 */
module Classifier {
  import opened Types
  import opened Strings

  /** The browsers in the key order of a `FeatureBrowserData` record. */
  const AllBrowsers: seq<Browser> := [Chrome, Firefox, Safari, Edge]

  /** Assumed market share of each browser, in whole percent. */
  function Weight(b: Browser): (w: nat)
    ensures 0 < w < 100
  {
    match b
    case Chrome => 45
    case Firefox => 20
    case Safari => 25
    case Edge => 10
  }

  /**
    A browser counts as supporting when `version_added` is truthy and not a
    boolean: a non-empty version string. `true`, `false`, null and "" do not.
   */
  predicate Supports(s: BrowserSupport)
    ensures Supports(s) <==> s.versionAdded.VString? && s.versionAdded.version != ""
  {
    Truthy(s.versionAdded) && !s.versionAdded.VBool?
  }

  /** JavaScript truthiness of a `version_added` value: every value but `false`, null and "" is truthy. */
  predicate Truthy(v: VersionAdded)
    ensures Truthy(v) <==> v != VBool(false) && v != VNull && v != VString("")
  {
    match v
    case VString(s) => s != ""
    case VBool(b) => b
    case VNull => false
  }

  /** The four shares add up to the whole market. */
  lemma SharesTotal()
    ensures WeightSum(AllBrowsers) == 100
  {
    assert AllBrowsers[1..] == [Firefox, Safari, Edge];
    assert AllBrowsers[2..] == [Safari, Edge];
    assert AllBrowsers[3..] == [Edge];
  }

  /** Sum of the weights of `browsers`, supporting or not. */
  function WeightSum(browsers: seq<Browser>): nat
  {
    if |browsers| == 0 then 0 else Weight(browsers[0]) + WeightSum(browsers[1..])
  }

  /** The weights of the supporting browsers among `browsers`, added in order. */
  function UsageOver(bs: FeatureBrowserData, browsers: seq<Browser>): (u: nat)
    ensures u <= WeightSum(browsers)
    ensures u == WeightSum(browsers) <==> forall k :: 0 <= k < |browsers| ==> Supports(bs.Get(browsers[k])) || Weight(browsers[k]) == 0
    ensures u == 0 <==> forall k :: 0 <= k < |browsers| ==> !Supports(bs.Get(browsers[k])) || Weight(browsers[k]) == 0
  {
    if |browsers| == 0 then 0
    else
      var rest := UsageOver(bs, browsers[1..]);
      assert forall k :: 1 <= k < |browsers| ==> browsers[k] == browsers[1..][k - 1];
      (if Supports(bs.Get(browsers[0])) then Weight(browsers[0]) else 0) + rest
  }

  /** `calculateCurrentUsage`: the share of users whose browser supports the feature. */
  function CurrentUsage(bs: FeatureBrowserData): (u: nat)
    ensures u <= 100
    ensures u == 100 <==> forall b :: Supports(bs.Get(b))
    ensures u == 0 <==> forall b :: !Supports(bs.Get(b))
  {
    UsageOverAllBrowsers(bs);
    UsageOver(bs, AllBrowsers)
  }

  function Indicator(p: bool): nat { if p then 1 else 0 }

  /** Walking the four browsers in record order adds up each supporting weight once. */
  lemma UsageOverAllBrowsers(bs: FeatureBrowserData)
    ensures UsageOver(bs, AllBrowsers) ==
      45 * Indicator(Supports(bs.Get(Chrome))) + 20 * Indicator(Supports(bs.Get(Firefox)))
      + 25 * Indicator(Supports(bs.Get(Safari))) + 10 * Indicator(Supports(bs.Get(Edge)))
  {
    UsageStep(bs, [Edge]);
    UsageStep(bs, [Safari, Edge]);
    UsageStep(bs, [Firefox, Safari, Edge]);
    UsageStep(bs, AllBrowsers);
  }

  /** One browser's contribution: its weight when it supports, nothing otherwise. */
  lemma UsageStep(bs: FeatureBrowserData, browsers: seq<Browser>)
    requires |browsers| > 0
    ensures UsageOver(bs, browsers) ==
      Weight(browsers[0]) * Indicator(Supports(bs.Get(browsers[0]))) + UsageOver(bs, browsers[1..])
  {
  }

  /** Usage is the weighted count of supporting browsers. */
  lemma UsageClosedForm(bs: FeatureBrowserData)
    ensures CurrentUsage(bs) ==
      45 * Indicator(Supports(bs.chrome)) + 20 * Indicator(Supports(bs.firefox))
      + 25 * Indicator(Supports(bs.safari)) + 10 * Indicator(Supports(bs.edge))
  {
    UsageOverAllBrowsers(bs);
  }

  /** More supporting browsers never lower the usage. */
  lemma UsageMonotone(a: FeatureBrowserData, b: FeatureBrowserData)
    requires forall br :: Supports(a.Get(br)) ==> Supports(b.Get(br))
    ensures CurrentUsage(a) <= CurrentUsage(b)
  {
    UsageClosedForm(a);
    UsageClosedForm(b);
    assert Supports(a.Get(Chrome)) ==> Supports(b.Get(Chrome));
    assert Supports(a.Get(Firefox)) ==> Supports(b.Get(Firefox));
    assert Supports(a.Get(Safari)) ==> Supports(b.Get(Safari));
    assert Supports(a.Get(Edge)) ==> Supports(b.Get(Edge));
  }

  /** `determineBaselineStatus`: widely from 95, newly from 75, limited below. */
  function DetermineBaselineStatus(usage: int): (s: Status)
    ensures s == Widely <==> usage >= 95
    ensures s == Newly <==> 75 <= usage < 95
    ensures s == Limited <==> usage < 75
  {
    if usage >= 95 then Widely
    else if usage >= 75 then Newly
    else Limited
  }

  function StatusRank(s: Status): nat
  {
    match s
    case Limited => 0
    case Newly => 1
    case Widely => 2
  }

  /** A higher usage never yields a lower tier. */
  lemma StatusMonotone(u1: int, u2: int)
    requires u1 <= u2
    ensures StatusRank(DetermineBaselineStatus(u1)) <= StatusRank(DetermineBaselineStatus(u2))
  {
  }

  /**
    The tier in terms of the browsers: widely exactly when all four support;
    newly exactly when Chrome and two of the other three do.
   */
  lemma StatusBySupport(bs: FeatureBrowserData)
    ensures DetermineBaselineStatus(CurrentUsage(bs)) == Widely <==>
      Supports(bs.chrome) && Supports(bs.firefox) && Supports(bs.safari) && Supports(bs.edge)
    ensures DetermineBaselineStatus(CurrentUsage(bs)) == Newly <==>
      Supports(bs.chrome) &&
      Indicator(Supports(bs.firefox)) + Indicator(Supports(bs.safari)) + Indicator(Supports(bs.edge)) == 2
  {
    UsageClosedForm(bs);
  }

  /** Months from the day of the run until the feature counts as adopted. */
  function MonthsFor(s: Status): nat
  {
    match s
    case Widely => 0
    case Newly => 6
    case Limited => 12
  }

  /**
    `estimateAdoptionDate`: today, six months on or twelve months on, chosen
    from the usage the support record scores.
   */
  function EstimateAdoptionMonths(bs: FeatureBrowserData): (m: nat)
    ensures m == 0 || m == 6 || m == 12
    ensures m == 0 <==> forall b :: Supports(bs.Get(b))
  {
    var usage := CurrentUsage(bs);
    UsageClosedForm(bs);
    if usage >= 95 then 0
    else if usage >= 75 then 6
    else 12
  }

  /** The adoption offset always sits in the same tier as the status. */
  lemma AdoptionAgreesWithStatus(bs: FeatureBrowserData)
    ensures EstimateAdoptionMonths(bs) == MonthsFor(DetermineBaselineStatus(CurrentUsage(bs)))
  {
  }

  const HighMarkers: seq<string> := ["javascript.builtins", "css.properties", "html.elements"]
  const MediumMarkers: seq<string> := ["api", "javascript.operators"]

  /** Some marker of `markers` occurs in `s`. */
  predicate ContainsAny(s: string, markers: seq<string>)
  {
    exists k :: 0 <= k < |markers| && Contains(s, markers[k])
  }

  /** `determineImpact`: the first of the high and medium marker lists found in the lower-cased path. */
  function DetermineImpact(path: string): (r: Impact)
    ensures r == High <==> ContainsAny(ToLower(path), HighMarkers)
    ensures r == Medium <==> !ContainsAny(ToLower(path), HighMarkers) && ContainsAny(ToLower(path), MediumMarkers)
  {
    var lower := ToLower(path);
    assert ContainsAny(lower, HighMarkers) <==>
      Contains(lower, HighMarkers[0]) || Contains(lower, HighMarkers[1]) || Contains(lower, HighMarkers[2]);
    assert ContainsAny(lower, MediumMarkers) <==>
      Contains(lower, MediumMarkers[0]) || Contains(lower, MediumMarkers[1]);
    if Contains(lower, "javascript.builtins") || Contains(lower, "css.properties") || Contains(lower, "html.elements") then
      High
    else if Contains(lower, "api") || Contains(lower, "javascript.operators") then
      Medium
    else
      Low
  }

  /** The tier depends on the path only up to ASCII case. */
  lemma ImpactIgnoresCase(path: string)
    ensures DetermineImpact(ToLower(path)) == DetermineImpact(path)
  {
    ToLowerIdempotent(path);
  }

  /** High impact means a high marker occurs at some position of the lower-cased path. */
  lemma ImpactHighIff(path: string)
    ensures DetermineImpact(path) == High <==>
      exists k, i :: 0 <= k < |HighMarkers| && OccursAt(ToLower(path), HighMarkers[k], i)
  {
    var lower := ToLower(path);
    forall k | 0 <= k < |HighMarkers|
      ensures Contains(lower, HighMarkers[k]) <==> exists i :: OccursAt(lower, HighMarkers[k], i)
    {
      ContainsIff(lower, HighMarkers[k]);
    }
    if DetermineImpact(path) == High {
      var k :| 0 <= k < |HighMarkers| && Contains(lower, HighMarkers[k]);
      var i :| OccursAt(lower, HighMarkers[k], i);
      assert 0 <= k < |HighMarkers| && OccursAt(ToLower(path), HighMarkers[k], i);
    }
    if exists k, i :: 0 <= k < |HighMarkers| && OccursAt(lower, HighMarkers[k], i) {
      var k, i :| 0 <= k < |HighMarkers| && OccursAt(lower, HighMarkers[k], i);
      assert Contains(lower, HighMarkers[k]);
      assert ContainsAny(lower, HighMarkers);
    }
  }

  /** Example: any path in the CSS property namespace, such as `css.properties.grid`, is high impact. */
  lemma ImpactOfCssProperty(path: string)
    requires IsPrefix("css.properties", path)
    ensures DetermineImpact(path) == High
  {
    var lower, marker := ToLower(path), HighMarkers[1];
    assert |marker| == 14;
    forall i | 0 <= i < 14 ensures lower[i] == marker[i] {
      assert path[..14][i] == marker[i];
    }
    assert lower[..14] == marker;
    assert Contains(lower, marker);
  }

  /** `getCategoryLabel`'s static table. */
  const CategoryTable: map<string, string> := map[
    "css.properties" := "CSS Properties",
    "javascript.builtins" := "JavaScript",
    "api" := "Web APIs",
    "html.elements" := "HTML",
    "javascript.operators" := "JS Operators",
    "css.selectors" := "CSS Selectors",
    "http" := "HTTP"]

  /**
    The key of the joint lookup: the first two segments joined by a dot. A
    path with one segment has no second one, which the source spells
    "undefined".
   */
  function JointKey(path: string): string
  {
    var segs := Split(path);
    segs[0] + "." + (if |segs| >= 2 then segs[1] else "undefined")
  }

  /** The three lookups in order: the joint key, then the first segment, then the upper-cased first segment. */
  function TableLabel(joint: string, main: string): (r: string)
    ensures r in CategoryTable.Values || r == ToUpper(main)
  {
    if joint in CategoryTable then CategoryTable[joint]
    else if main in CategoryTable then CategoryTable[main]
    else ToUpper(main)
  }

  /** `getCategoryLabel`: joint lookup, then first segment, then the upper-cased first segment. */
  function CategoryLabel(path: string): (r: string)
    ensures r in CategoryTable.Values || r == ToUpper(Split(path)[0])
    ensures JointKey(path) in CategoryTable ==> r == CategoryTable[JointKey(path)]
    ensures JointKey(path) !in CategoryTable && Split(path)[0] in CategoryTable ==> r == CategoryTable[Split(path)[0]]
    ensures JointKey(path) !in CategoryTable && Split(path)[0] !in CategoryTable ==> r == ToUpper(Split(path)[0])
  {
    TableLabel(JointKey(path), Split(path)[0])
  }

  /** No table key ends in ".undefined", so a one-segment path never hits the joint lookup. */
  lemma SingleSegmentSkipsJointLookup(path: string)
    requires '.' !in path
    ensures CategoryLabel(path) == if path in CategoryTable then CategoryTable[path] else ToUpper(path)
  {
    SplitJoin([path]);
    assert Join([path]) == path;
    var key := JointKey(path);
    assert key == path + "." + "undefined";
    assert key[|key| - 1] == 'd';
    assert key !in CategoryTable;
  }

  /**
    For a path built from dot-free segments the label depends on the first
    two segments exactly as the lookup order says.
   */
  lemma CategoryLabelOfSegments(segs: seq<string>)
    requires |segs| >= 2
    requires DotFree(segs)
    ensures CategoryLabel(Join(segs)) == TableLabel(segs[0] + "." + segs[1], segs[0])
  {
    SplitJoin(segs);
  }

  /** The table entry for `css.properties`. */
  lemma CssPropertiesEntry(first: string, second: string)
    requires first == "css" && second == "properties"
    ensures TableLabel(first + "." + second, first) == "CSS Properties"
  {
    assert first + "." + second == "css.properties";
  }

  /** A key starting `api.` misses the table, and `api` hits it. */
  lemma ApiEntry(first: string, second: string)
    requires first == "api"
    ensures TableLabel(first + "." + second, first) == "Web APIs"
  {
    var key := first + "." + second;
    assert key[0] == 'a' && key[3] == '.';
  }

  /** A key starting with `f` misses the table. */
  lemma FooEntry(first: string, second: string)
    requires first == "foo"
    ensures TableLabel(first + "." + second, first) == "FOO"
  {
    var key := first + "." + second;
    assert key[0] == 'f';
    var upper := ToUpper(first);
    assert upper[0] == 'F' && upper[1] == 'O' && upper[2] == 'O';
  }

  /** Example: any path under `css.properties`, such as `css.properties.grid`, is labelled "CSS Properties". */
  lemma CategoryOfCssProperty(segs: seq<string>)
    requires |segs| >= 2 && DotFree(segs)
    requires segs[0] == "css" && segs[1] == "properties"
    ensures CategoryLabel(Join(segs)) == "CSS Properties"
  {
    CategoryLabelOfSegments(segs);
    CssPropertiesEntry(segs[0], segs[1]);
  }

  /** Example: any path under `api`, such as `api.Foo`, misses the two-segment lookup and is labelled "Web APIs". */
  lemma CategoryOfApi(segs: seq<string>)
    requires |segs| >= 2 && DotFree(segs)
    requires segs[0] == "api"
    ensures CategoryLabel(Join(segs)) == "Web APIs"
  {
    CategoryLabelOfSegments(segs);
    ApiEntry(segs[0], segs[1]);
  }

  /** Example: any path under `foo`, such as `foo.bar.baz`, has no entry and is labelled "FOO". */
  lemma CategoryFallback(segs: seq<string>)
    requires |segs| >= 2 && DotFree(segs)
    requires segs[0] == "foo"
    ensures CategoryLabel(Join(segs)) == "FOO"
  {
    CategoryLabelOfSegments(segs);
    FooEntry(segs[0], segs[1]);
  }
}
