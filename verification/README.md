# Baseline migration planner: the feature engine, in Dafny

This project models the feature extraction and classification engine of the
baseline migration planner (`src/utils/bcdTransform.ts`) and the record
shapes it produces (`src/types/index.ts`). The engine walks the browser
compatibility dataset depth first, builds one normalised feature record at
every node that carries a `__compat` payload with a `support` map, and stops
at 100 records. Each record gets a usage score from fixed browser weights, a
baseline status, an adoption offset, an impact tier and a category label.

Modules, one file each:

- `strings.dfy`, `Strings`: the string operations the engine uses. These are
  `split('.')`, `join('.')`, dot-to-hyphen replacement, ASCII
  `toLowerCase`/`toUpperCase`, `startsWith` (the generic prefix relation
  `IsPrefix`, shared with key paths) and `includes`.
- `types.dfy`, `Types`: `BrowserType`, `BrowserSupport`, `FeatureBrowserData`
  and `Feature`.
- `classifier.dfy`, `Classifier`: `calculateCurrentUsage`,
  `determineBaselineStatus`, `estimateAdoptionDate`, `determineImpact` and
  `getCategoryLabel`.
- `builder.dfy`, `Builder`: `transformBcdFeature`.
- `ordering.dfy`, `Ordering`: the child order used by `traverseData`. Metadata
  keys are dropped, then a stable sort runs under the priority comparator.
  The sort is modelled as an insertion sort and proved equal to a stable
  partition.
- `traversal.dfy`, `Traversal`: `traverseData` and `getAllFeatures`. The
  dataset is a tree of `Node`s. Each walk returns its records and the "stop"
  flag. The walk is proved equal to an uncapped pre-order (`Collect`)
  truncated at the cap.
- `loader.dfy`, `Loader`: the application's use of the result. An empty
  result is an error. Otherwise the records are split into widely available
  ones and the rest.

The dataset is a parameter (`Node`): an object with an optional compat
payload and its other properties in enumeration order, or a scalar. The clock
is abstracted away: an adoption date is the number of months after the day
of the run, 0, 6 or 12.

Details of the code that the model keeps:

- Usage: a browser counts as supporting only when `version_added` is truthy
  and not a boolean, so `""` is unsupported too, like `true`, `false` and
  `null` (`Classifier.Supports`).
- Child order: within each group the children keep their enumeration order,
  because the sort is stable (ECMA-262 10th edition, section 22.1.3.27).
- Top-level loop: it does not read the flag that the walk returns. It breaks
  on the record count after each category, and a walk that starts at the cap
  adds nothing, so the effect is the same as stopping (`Traversal.CapIsFinal`).
- Built records: a record keeps the four-browser record with the missing
  browsers filled in, not the raw support map.

Constants of the source, as declared in the model:

- `Traversal.MaxFeatures` is `MAX_FEATURES`, 100 (src/utils/bcdTransform.ts:4).
- `Traversal.PriorityCategories` is `PRIORITY_CATEGORIES`, with its entries in
  declaration order (src/utils/bcdTransform.ts:5-10).
- `Classifier.CategoryTable` is the label table of `getCategoryLabel`
  (src/utils/bcdTransform.ts:83-91).

## Model

| member | source | states |
|---|---|---|
| Strings.Split | src/utils/bcdTransform.ts:93-94 | `path.split('.')` gives at least one segment, and no segment contains a dot |
| Strings.Join | src/utils/bcdTransform.ts:148 | `join('.')`: the keys with one `.` between neighbours; `Strings.JoinSplit` and `Strings.SplitJoin` make it the inverse of `Strings.Split` |
| Strings.JoinSplit | src/utils/bcdTransform.ts:93-95 | joining the segments of a split with `.` gives the original string back |
| Strings.SplitJoin | src/utils/bcdTransform.ts:148 | splitting a path joined from dot-free segments gives those segments back |
| Strings.JoinSnoc | src/utils/bcdTransform.ts:148 | extending a path by one key extends its joined form by `.` and that key |
| Strings.ReplaceDots | src/utils/bcdTransform.ts:121 | the id has the path's length, has `-` exactly where the path has `.`, keeps every other character, and contains no `.` |
| Strings.RestoreDots | src/utils/bcdTransform.ts:121 | the inverse map keeps the length, turns each `-` back into `.`, and leaves no `-` |
| Strings.RestoreReplace | src/utils/bcdTransform.ts:121 | for a path without hyphens, the id converts back to the path |
| Strings.ReplaceDotsInjective | src/utils/bcdTransform.ts:121 | two paths without hyphens that share an id are equal |
| Strings.HyphenatedPathsCollide | src/utils/bcdTransform.ts:121 | without that restriction ids collide: `a.b` and `a-b` get the same id |
| Strings.ToLower | src/utils/bcdTransform.ts:69 | lowercasing keeps the length and maps each character through the ASCII lowercase map |
| Strings.ToLowerIdempotent | src/utils/bcdTransform.ts:69 | lowercasing twice is lowercasing once |
| Strings.ToLowerKeepsLowercase | src/utils/bcdTransform.ts:69 | a string with no uppercase letter is unchanged by lowercasing |
| Strings.ToUpper | src/utils/bcdTransform.ts:97 | uppercasing keeps the length and maps each character through the ASCII uppercase map |
| Strings.ContainsIff | src/utils/bcdTransform.ts:71-76 | `includes(sub)` holds exactly when `sub` occurs at some index |
| Strings.IsPrefix | src/utils/bcdTransform.ts:165 | `startsWith`: the first characters of the string are the prefix; the same relation, key by key, places a record under a node |
| Strings.Contains | src/utils/bcdTransform.ts:71-76 | `includes` as a search from each start position; `Strings.ContainsIff` is its partner |
| Classifier.UsageOver | src/utils/bcdTransform.ts:31-40 | the weights of supporting browsers in a list add up to at most the list's total weight; the sum equals the total exactly when every weighted browser supports, and is 0 exactly when none does |
| Classifier.Weight | src/utils/bcdTransform.ts:24-29 | the `marketShare` table in whole percent (45, 20, 25, 10): each share is strictly between 0 and 100 |
| Classifier.SharesTotal | src/utils/bcdTransform.ts:24-29 | the four shares add up to 100, so full support scores 100 |
| Classifier.Truthy | src/utils/bcdTransform.ts:37 | the truthiness half of the test: every `version_added` value except `false`, `null` and `""` is truthy |
| Classifier.Supports | src/utils/bcdTransform.ts:37 | the test `version_added && typeof version_added !== 'boolean'` holds exactly for a non-empty version string |
| Classifier.CurrentUsage | src/utils/bcdTransform.ts:22-43 | usage lies in [0,100]; it is 100 exactly when all four browsers support and 0 exactly when none does |
| Classifier.UsageClosedForm | src/utils/bcdTransform.ts:24-38 | usage is 45·chrome + 20·firefox + 25·safari + 10·edge, over the supporting browsers |
| Classifier.UsageOverAllBrowsers | src/utils/bcdTransform.ts:31-40 | walking the four browsers adds each supporting browser's weight exactly once |
| Classifier.UsageMonotone | src/utils/bcdTransform.ts:34-40 | when more browsers support, the usage is at least as high |
| Classifier.DetermineBaselineStatus | src/utils/bcdTransform.ts:45-49 | widely exactly at ≥95, newly exactly in [75,95), limited exactly below 75 |
| Classifier.StatusMonotone | src/utils/bcdTransform.ts:45-49 | the status is monotone in usage (limited < newly < widely) |
| Classifier.StatusBySupport | src/utils/bcdTransform.ts:24-49 | widely exactly when all four support; newly exactly when chrome and exactly two of the other three support |
| Classifier.EstimateAdoptionMonths | src/utils/bcdTransform.ts:51-66 | the offset is 0, 6 or 12 months, and 0 exactly when all four browsers support |
| Classifier.AdoptionAgreesWithStatus | src/utils/bcdTransform.ts:117-125 | a record's adoption offset is the one its status tier implies (widely 0, newly 6, limited 12) |
| Classifier.DetermineImpact | src/utils/bcdTransform.ts:68-80 | high exactly when the lowercased path contains a high marker; medium exactly when it contains none of those but contains `api` or `javascript.operators`; low otherwise |
| Classifier.ImpactIgnoresCase | src/utils/bcdTransform.ts:69 | the impact of a path and of its lowercased form agree |
| Classifier.ImpactHighIff | src/utils/bcdTransform.ts:71-75 | high exactly when `javascript.builtins`, `css.properties` or `html.elements` occurs at some index of the lowercased path |
| Classifier.ImpactOfCssProperty | src/utils/bcdTransform.ts:71-75 | every path starting with `css.properties` has high impact |
| Classifier.CategoryLabel | src/utils/bcdTransform.ts:82-98 | the label comes from the table entry of the first two segments joined, else of the first segment, else it is the uppercased first segment |
| Classifier.TableLabel | src/utils/bcdTransform.ts:97 | the label is a value of the table or the uppercased first segment |
| Classifier.JointKey | src/utils/bcdTransform.ts:93-95 | the key `${main}.${sub}`, where a missing second segment is the text `undefined` |
| Classifier.SingleSegmentSkipsJointLookup | src/utils/bcdTransform.ts:93-97 | for a path without a dot the two-segment lookup never hits: the label is the table entry of the path or the path uppercased |
| Classifier.CategoryLabelOfSegments | src/utils/bcdTransform.ts:93-97 | for a path of two or more dot-free segments, the lookups use exactly its first two segments |
| Classifier.CategoryOfCssProperty | src/utils/bcdTransform.ts:84-97 | every path whose first two segments are `css` and `properties` is labelled "CSS Properties" |
| Classifier.CategoryOfApi | src/utils/bcdTransform.ts:86-97 | every path of two or more segments under `api` is labelled "Web APIs" |
| Classifier.CategoryFallback | src/utils/bcdTransform.ts:97 | a path of two or more segments under `foo`, which the table does not list, is labelled "FOO" |
| Builder.FillSupport | src/utils/bcdTransform.ts:110-115 | each browser present in the support map keeps its descriptor; each absent one gets `{version_added: null}` |
| Builder.FallbackDescription | src/utils/bcdTransform.ts:128 | the fallback description is longer than the name and starts with it |
| Builder.TransformBcdFeature | src/utils/bcdTransform.ts:100-136 | no record exactly when the payload or its support map is missing; otherwise the record keeps name and path and holds the filled-in support; its usage, status, offset, id, category and impact agree with the classifier; the description is the given one unless that is empty or absent, else the fallback |
| Builder.TransformedNumbers | src/utils/bcdTransform.ts:117-125 | a record built from any support map has the usage of the filled-in support record, the status of that usage, and the offset of that status |
| Builder.ChromeAndEdgeOnly | src/utils/bcdTransform.ts:110-125 | Chrome and Edge with versions, Firefox `false`, Safari `null`: usage 55, limited, 12 months |
| Builder.AllFourSupported | src/utils/bcdTransform.ts:110-125 | all four with versions: usage 100, widely, 0 months |
| Builder.BooleanTrueIsUnsupported | src/utils/bcdTransform.ts:37 | `version_added: true` everywhere scores 0 and is limited |
| Builder.EmptySupportYieldsRecord | src/utils/bcdTransform.ts:105-115 | an empty support map still yields a record, with usage 0 and 12 months |
| Ordering.Visible | src/utils/bcdTransform.ts:164-165 | the kept entries are entries of the object, and none has a key starting with `__`; with `Ordering.VisibleKeepsChildren` and `Ordering.VisibleAppend` it is the order-keeping `filter` |
| Ordering.VisibleAppend | src/utils/bcdTransform.ts:164-165 | filtering a concatenation filters each part and concatenates the results, so kept entries keep their relative order |
| Ordering.IsMetadataKey | src/utils/bcdTransform.ts:165 | a key is metadata exactly when it starts with `__` |
| Ordering.VisibleKeepsChildren | src/utils/bcdTransform.ts:165 | every entry whose key does not start with `__` is kept |
| Ordering.IsPriority | src/utils/bcdTransform.ts:169-170 | the comparator's 1/0 flag: an entry is priority exactly when its key is in the category's list |
| Ordering.Group | src/utils/bcdTransform.ts:169-171 | a group holds only entries of the input with the requested priority flag |
| Ordering.Insert | src/utils/bcdTransform.ts:166-172 | one step of a stable insertion sort under the comparator: the entry moves in front of an element only when it has priority and that element has not; `Ordering.InsertPermutes` and `Ordering.InsertIntoPartition` are its partners |
| Ordering.SortByPriority | src/utils/bcdTransform.ts:166-172 | the sort under the comparator `priority(b) - priority(a)`; `Ordering.SortPermutes` and `Ordering.SortIsPartition` are its partners |
| Ordering.SortPermutes | src/utils/bcdTransform.ts:166-172 | the sort under the priority comparator is a permutation of its input |
| Ordering.SortIsPartition | src/utils/bcdTransform.ts:166-172 | the stable sort under the comparator `priority(b) - priority(a)` equals the priority group followed by the other group |
| Ordering.PartitionPermutes | src/utils/bcdTransform.ts:166-172 | the partition is a permutation of its input |
| Ordering.GroupsCover | src/utils/bcdTransform.ts:166-172 | the two priority groups together hold exactly the entries of the input |
| Ordering.PartitionPriorityFirst | src/utils/bcdTransform.ts:169-171 | no entry without priority comes before an entry with priority |
| Ordering.PartitionStable | src/utils/bcdTransform.ts:166-172 | within each group the input's relative order is kept |
| Ordering.ChildOrder | src/utils/bcdTransform.ts:164-172 | the visiting order is a rearrangement of the non-metadata entries (equal multisets), so it has as many entries, all drawn from the object and none metadata |
| Ordering.ChildOrderIsPartition | src/utils/bcdTransform.ts:164-172 | the visiting order is the stable partition of the non-metadata entries |
| Traversal.Children | src/utils/bcdTransform.ts:164-172 | a node's children in visiting order are drawn from its non-metadata entries, every non-metadata entry is among them, and they are those entries rearranged (equal multisets) |
| Traversal.KeysFor | src/utils/bcdTransform.ts:167-168 | the priority list is that of the first configured entry for the category, and empty when the category is not configured |
| Traversal.PriorityKeys | src/utils/bcdTransform.ts:167-168 | the priority keys at any depth are the `PRIORITY_CATEGORIES` list of the path's first key, empty for an unlisted category |
| Traversal.ChildrenArePartition | src/utils/bcdTransform.ts:167-171 | at every depth the priority keys are those of the path's first segment |
| Traversal.Own | src/utils/bcdTransform.ts:145-155 | a node contributes one record exactly when it has a payload with a support map, and none otherwise |
| Traversal.Traverse | src/utils/bcdTransform.ts:141-182 | the walk only appends; it never passes 100 records; at the cap it appends nothing; below the cap it signals stop exactly when it reached the cap |
| Traversal.Walk | src/utils/bcdTransform.ts:174-181 | the children loop only appends, never passes the cap, and signals stop exactly when it reached the cap |
| Traversal.TraverseIsCappedCollect | src/utils/bcdTransform.ts:141-182 | the capped walk returns exactly the first records of the uncapped pre-order, as many as fit under the cap |
| Traversal.TraverseStopsIff | src/utils/bcdTransform.ts:141-182 | below the cap, the walk signals stop exactly when the accumulated records plus the uncapped pre-order reach or exceed 100 |
| Traversal.WalkIsCappedCollectAll | src/utils/bcdTransform.ts:174-181 | the children loop returns the first records of the children's pre-orders concatenated, as many as fit under the cap |
| Traversal.AppendCappedAssoc | src/utils/bcdTransform.ts:143-161 | capping in two steps is capping the concatenation |
| Traversal.JoinNamedByLast | src/utils/bcdTransform.ts:148-150 | a joined key path ends with `.` and its last key, or is that key |
| Traversal.CollectAllRecordsUnder | src/utils/bcdTransform.ts:174-181 | every record collected from a node's children was built at a key path extending the node's keys, key by key |
| Traversal.OwnRecordUnder | src/utils/bcdTransform.ts:145-153 | a node's record is consistent, its dataset path is exactly the node's keys joined with `.`, and its name is exactly the last key |
| Traversal.RecordUnderParent | src/utils/bcdTransform.ts:176 | a record built under a child's keys `[...path, key]` lies under the parent's keys `path` |
| Traversal.CollectRecordsUnder | src/utils/bcdTransform.ts:141-182 | every record of a subtree was built at a key path that extends the subtree's keys: it is consistent, its dataset path joins that key path, and its name is its last key |
| Traversal.Lookup | src/utils/bcdTransform.ts:187-191 | a property is found exactly when the object has an entry with that key, and the value found is that entry's |
| Traversal.SubcategoryNode | src/utils/bcdTransform.ts:191-192 | `bcd[category]?.[sub]`: the subcategory node when both properties exist |
| Traversal.WalkRoot | src/utils/bcdTransform.ts:187-192 | walking an optional root only appends, never passes 100 records, and appends nothing at the cap |
| Traversal.VisitSubcategories | src/utils/bcdTransform.ts:190-194 | the inner loop only appends, never passes 100 records, and appends nothing at the cap |
| Traversal.VisitCategories | src/utils/bcdTransform.ts:186-198 | the top-level loop only appends, never passes 100 records, and appends nothing at the cap |
| Traversal.SubcategoryRoots | src/utils/bcdTransform.ts:190-194 | the inner loop only walks listed subcategories of its category |
| Traversal.CategoryRoots | src/utils/bcdTransform.ts:186-195 | every walked subtree is a whole category with no list, or a listed subcategory |
| Traversal.WalkRootIsCapped | src/utils/bcdTransform.ts:187-192 | walking a present root caps its pre-order; an absent root adds nothing |
| Traversal.SubcategoriesAreCapped | src/utils/bcdTransform.ts:190-194 | the inner loop is the capped concatenation of the listed subcategories' pre-orders, in list order |
| Traversal.CategoriesAreCapped | src/utils/bcdTransform.ts:186-198 | the top-level loop is the capped concatenation of the roots' pre-orders, in configuration order |
| Traversal.GetAllFeatures | src/utils/bcdTransform.ts:137-206 | at most 100 records: the first records of the configured roots' pre-orders |
| Traversal.CapIsFinal | src/utils/bcdTransform.ts:197 | once 100 records are collected, later categories add nothing |
| Traversal.CapIsFinalForSubcategories | src/utils/bcdTransform.ts:190-194 | once 100 records are collected, later subcategories add nothing |
| Traversal.RootRecordsUnder | src/utils/bcdTransform.ts:186-198 | every uncapped record of the walked roots was built at a key path extending one root's keys |
| Traversal.CategoryRecord | src/utils/bcdTransform.ts:186-198 | every record the top-level loop collects was built at a key path inside a configured root: the whole category when its list is empty, else a listed subcategory |
| Traversal.RecordInRoot | src/utils/bcdTransform.ts:186-194 | a record under a listed root was built at a key path whose first key is the category and, for a listed subcategory, whose second key is one of the listed subcategories; that path extends the root's own keys, so for a subcategory root its second key is the root's subcategory |
| Traversal.GetAllFeaturesIndex | src/utils/bcdTransform.ts:186-201 | the k-th returned record is the k-th record of the configured roots' pre-orders |
| Traversal.GetAllFeaturesRecords | src/utils/bcdTransform.ts:137-206 | every returned record was built at a key path under `css.properties`, `css.selectors`, `javascript.builtins`, `html.elements` or `api`: it is consistent, its dataset path joins that key path, its name is the last key, and so its name is the last dot-separated segment of its path |
| Traversal.LeafYieldsOneRecord | src/utils/bcdTransform.ts:141-161 | a leaf with a support map yields exactly its own record, named after its key, and does not stop |
| Traversal.MetadataAndScalarsSkipped | src/utils/bcdTransform.ts:164-179 | a node with no payload whose non-metadata children are all scalars yields nothing and does not stop |
| Traversal.WalkScalars | src/utils/bcdTransform.ts:175 | scalar children are skipped |
| Loader.SelectWidely | src/App.tsx:45-46 | each selection is no longer than the input and keeps only records of its side of the widely split |
| Loader.SelectionsCover | src/App.tsx:45-46 | the two selections together hold exactly the records |
| Loader.SelectKeepsMatching | src/App.tsx:45-46 | every record of the wanted side is selected |
| Loader.LoadFeatures | src/App.tsx:33-46 | an error exactly when no record was found; otherwise at most 100 records, current all widely, recommended none widely |
| Loader.LoadSplitPermutes | src/App.tsx:45-46 | the split neither loses nor duplicates a record |

## Left out

- The dataset import (`@mdn/browser-compat-data`): the tree is a parameter.
- Logging and the `try`/`catch` blocks: the modelled builder is total, so the error paths that return `null` or `[]` cannot be reached.
- The clock, `setMonth` rollover and the local-versus-UTC `toISOString` date: `EstimateAdoptionMonths` returns a month offset of 0, 6 or 12 instead of a date string, and a record stores that offset.
- Classifier.CurrentUsage: uses the integer weights 45/20/25/10 instead of the floating-point shares times 100 and `Math.round`. Every subset sum rounds to the same integer.
- Strings.ToLower: maps ASCII letters only; Unicode case mapping is not modelled.
- Strings.ToUpper: maps ASCII letters only, for the same reason.
- Classifier.CategoryLabel: the table is a finite map. Prototype keys such as `constructor` do not hit it.
- `Object.entries` order (integer-like keys first): the model takes entries in the order the tree gives them.
- Arrays and other non-plain objects as dataset values: every value is either an object node or a scalar. Truthiness of `__compat` is reduced to present or absent.
- Support entries for browsers other than the four: they are never read, so the support map is keyed by the four browsers only.
- The default empty `path` of `traverseData`: every call in the source passes a non-empty path, so the model requires one.
- The React state, effects and UI components: `Loader.LoadFeatures` keeps only the empty-result error and the widely split. The static fixtures in `src/data/mockData.ts` are not part of this model.
