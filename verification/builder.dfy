/**
  `transformBcdFeature`: one normalised feature record from the compat
  payload found at a dataset path.
 */
module Builder {
  import opened Types
  import opened Strings
  import opened Classifier

  /**
    A node's `__compat` payload: a `support` map that may be missing, keyed
    by the tracked browsers (entries for other browsers are never read), and
    an optional description.
   */
  datatype Compat = Compat(support: Option<map<Browser, BrowserSupport>>, description: Option<string>)

  /** The stand-in for a browser the payload does not mention: `{version_added: null}`. */
  const NullSupport: BrowserSupport := BrowserSupport(VNull, None, None)

  /** The four-browser record, each missing browser defaulted to `NullSupport`. */
  function FillSupport(raw: map<Browser, BrowserSupport>): (bs: FeatureBrowserData)
    ensures forall b :: b in raw ==> bs.Get(b) == raw[b]
    ensures forall b :: b !in raw ==> bs.Get(b) == NullSupport
  {
    FeatureBrowserData(
      if Chrome in raw then raw[Chrome] else NullSupport,
      if Firefox in raw then raw[Firefox] else NullSupport,
      if Safari in raw then raw[Safari] else NullSupport,
      if Edge in raw then raw[Edge] else NullSupport)
  }

  /** The description used when the payload gives none, or an empty one. */
  function FallbackDescription(name: string): (d: string)
    ensures |d| > |name| && d[..|name|] == name
  {
    name + " - Web Platform Feature"
  }

  /**
    The facts every built record satisfies, relating its fields to its own
    path and support record.
   */
  ghost predicate ConsistentRecord(f: Feature)
  {
    && f.mdnPath.Some?
    && f.browserSupport.Some?
    && 0 <= f.currentUsage <= 100
    && f.currentUsage == CurrentUsage(f.browserSupport.value)
    && f.baselineStatus == DetermineBaselineStatus(f.currentUsage)
    && f.adoptionMonths == MonthsFor(f.baselineStatus)
    && f.id == ReplaceDots(f.mdnPath.value)
    && |f.id| == |f.mdnPath.value|
    && '.' !in f.id
    && f.category == CategoryLabel(f.mdnPath.value)
    && f.impact == DetermineImpact(f.mdnPath.value)
    && f.description != ""
  }

  /**
    `transformBcdFeature`: no record when the payload or its support map is
    missing; otherwise the record built from the defaulted support record.
   */
  function TransformBcdFeature(path: string, compat: Option<Compat>, name: string): (r: Option<Feature>)
    ensures r.None? <==> compat.None? || compat.value.support.None?
    ensures r.Some? ==> ConsistentRecord(r.value)
    ensures r.Some? ==> r.value.name == name && r.value.mdnPath == Some(path)
    ensures r.Some? ==> r.value.browserSupport == Some(FillSupport(compat.value.support.value))
    ensures r.Some? ==> forall b :: b !in compat.value.support.value ==> r.value.browserSupport.value.Get(b) == NullSupport
    ensures r.Some? && compat.value.description.Some? && compat.value.description.value != "" ==>
      r.value.description == compat.value.description.value
    ensures r.Some? && (compat.value.description.None? || compat.value.description.value == "") ==>
      r.value.description == FallbackDescription(name)
  {
    if compat.None? || compat.value.support.None? then None
    else
      var bs := FillSupport(compat.value.support.value);
      var usage := CurrentUsage(bs);
      AdoptionAgreesWithStatus(bs);
      Some(Feature(
        id := ReplaceDots(path),
        name := name,
        category := CategoryLabel(path),
        baselineStatus := DetermineBaselineStatus(usage),
        adoptionMonths := EstimateAdoptionMonths(bs),
        currentUsage := usage,
        impact := DetermineImpact(path),
        description :=
          match compat.value.description
          case Some(d) => if d != "" then d else FallbackDescription(name)
          case None => FallbackDescription(name),
        mdnPath := Some(path),
        browserSupport := Some(bs)))
  }

  /** A built record's usage, status and offset are those of its filled-in support record. */
  lemma TransformedNumbers(path: string, raw: map<Browser, BrowserSupport>, description: Option<string>, name: string)
    ensures var r := TransformBcdFeature(path, Some(Compat(Some(raw), description)), name);
      && r.Some?
      && r.value.currentUsage == CurrentUsage(FillSupport(raw))
      && r.value.baselineStatus == DetermineBaselineStatus(r.value.currentUsage)
      && r.value.adoptionMonths == MonthsFor(r.value.baselineStatus)
  {
  }

  /** Example: Chrome and Edge with versions, Firefox false, Safari null: usage 55, limited, a year out. */
  lemma ChromeAndEdgeOnly(path: string, name: string)
    ensures
      var raw := map[
        Chrome := BrowserSupport(VString("90"), None, None),
        Firefox := BrowserSupport(VBool(false), None, None),
        Safari := BrowserSupport(VNull, None, None),
        Edge := BrowserSupport(VString("90"), None, None)];
      var r := TransformBcdFeature(path, Some(Compat(Some(raw), None)), name);
      r.Some? && r.value.currentUsage == 55 && r.value.baselineStatus == Limited && r.value.adoptionMonths == 12
  {
    var raw := map[
      Chrome := BrowserSupport(VString("90"), None, None),
      Firefox := BrowserSupport(VBool(false), None, None),
      Safari := BrowserSupport(VNull, None, None),
      Edge := BrowserSupport(VString("90"), None, None)];
    TransformedNumbers(path, raw, None, name);
    UsageClosedForm(FillSupport(raw));
  }

  /** Example: `version_added: true` does not count as support, so an all-`true` record scores 0. */
  lemma BooleanTrueIsUnsupported(path: string, name: string)
    ensures
      var t := BrowserSupport(VBool(true), None, None);
      var raw := map[Chrome := t, Firefox := t, Safari := t, Edge := t];
      var r := TransformBcdFeature(path, Some(Compat(Some(raw), None)), name);
      r.Some? && r.value.currentUsage == 0 && r.value.baselineStatus == Limited
  {
    var t := BrowserSupport(VBool(true), None, None);
    var raw := map[Chrome := t, Firefox := t, Safari := t, Edge := t];
    TransformedNumbers(path, raw, None, name);
    UsageClosedForm(FillSupport(raw));
  }

  /** An empty support map still yields a record, with every browser defaulted to null. */
  lemma EmptySupportYieldsRecord(path: string, name: string, description: Option<string>)
    ensures
      var r := TransformBcdFeature(path, Some(Compat(Some(map[]), description)), name);
      r.Some? && r.value.currentUsage == 0 && r.value.adoptionMonths == 12
  {
    TransformedNumbers(path, map[], description, name);
    UsageClosedForm(FillSupport(map[]));
  }

  /** Example: a version string for every browser: usage 100, widely available, no wait. */
  lemma AllFourSupported(path: string, name: string)
    ensures
      var v := BrowserSupport(VString("1"), None, None);
      var raw := map[Chrome := v, Firefox := v, Safari := v, Edge := v];
      var r := TransformBcdFeature(path, Some(Compat(Some(raw), None)), name);
      r.Some? && r.value.currentUsage == 100 && r.value.baselineStatus == Widely && r.value.adoptionMonths == 0
  {
    var v := BrowserSupport(VString("1"), None, None);
    var raw := map[Chrome := v, Firefox := v, Safari := v, Edge := v];
    TransformedNumbers(path, raw, None, name);
    UsageClosedForm(FillSupport(raw));
  }
}
