/**
  The shapes exchanged by the feature engine (src/types/index.ts): the four
  tracked browsers, one browser's support descriptor, the four-browser
  support record and the normalised feature record.
 */
module Types {

  datatype Option<+T> = None | Some(value: T)

  /** `BrowserType`: exactly the four browsers the engine scores. */
  datatype Browser = Chrome | Firefox | Safari | Edge

  /** `version_added` is a version string, a boolean, or null. */
  datatype VersionAdded = VString(version: string) | VBool(flag: bool) | VNull

  /** One entry of a descriptor's optional `flags` list. */
  datatype Flag = Flag(kind: string, name: string, valueToSet: string)

  /** `BrowserSupport`: `version_removed` and `flags` are optional. */
  datatype BrowserSupport = BrowserSupport(
    versionAdded: VersionAdded,
    versionRemoved: Option<string>,
    flags: Option<seq<Flag>>)

  /** `FeatureBrowserData`: one descriptor for each of the four browsers, none missing. */
  datatype FeatureBrowserData = FeatureBrowserData(
    chrome: BrowserSupport,
    firefox: BrowserSupport,
    safari: BrowserSupport,
    edge: BrowserSupport)
  {
    function Get(b: Browser): BrowserSupport
    {
      match b
      case Chrome => chrome
      case Firefox => firefox
      case Safari => safari
      case Edge => edge
    }
  }

  /** `baselineStatus`: limited, newly or widely available. */
  datatype Status = Limited | Newly | Widely

  /** `impact`: low, medium or high. */
  datatype Impact = Low | Medium | High

  /**
    `Feature`. The adoption date is kept as the number of months after the
    day of the run (0, 6 or 12); `mdnPath` and `browserSupport` are optional
    in the type, although the builder always fills them.
   */
  datatype Feature = Feature(
    id: string,
    name: string,
    category: string,
    baselineStatus: Status,
    adoptionMonths: nat,
    currentUsage: int,
    impact: Impact,
    description: string,
    mdnPath: Option<string>,
    browserSupport: Option<FeatureBrowserData>)
}
