/**
  The caller of `getAllFeatures` in the application shell: an empty result
  is an error, otherwise the records are split into the project's current
  (widely available) and recommended (everything else) features.
 */
module Loader {
  import opened Types
  import opened Traversal

  /** The outcome of loading: an error message, or the records and their split. */
  datatype Load =
    | Failed(message: string)
    | Loaded(features: seq<Feature>, current: seq<Feature>, recommended: seq<Feature>)

  /** The records whose status is widely available (`keepWidely`) or not, in order. */
  function SelectWidely(fs: seq<Feature>, keepWidely: bool): (r: seq<Feature>)
    ensures |r| <= |fs|
    ensures forall k :: 0 <= k < |r| ==> (r[k].baselineStatus == Widely) == keepWidely
  {
    if |fs| == 0 then []
    else
      var rest := SelectWidely(fs[1..], keepWidely);
      (if (fs[0].baselineStatus == Widely) == keepWidely then [fs[0]] else []) + rest
  }

  /** The two selections together hold exactly the records. */
  lemma {:induction false} SelectionsCover(fs: seq<Feature>)
    ensures multiset(SelectWidely(fs, true)) + multiset(SelectWidely(fs, false)) == multiset(fs)
  {
    if |fs| > 0 {
      SelectionsCover(fs[1..]);
      SelectionsStep(fs);
    }
  }

  /** One step of the cover: the first record goes to exactly one side. */
  lemma SelectionsStep(fs: seq<Feature>)
    requires |fs| > 0
    requires multiset(SelectWidely(fs[1..], true)) + multiset(SelectWidely(fs[1..], false)) == multiset(fs[1..])
    ensures multiset(SelectWidely(fs, true)) + multiset(SelectWidely(fs, false)) == multiset(fs)
  {
    SelectFirst(fs, true);
    SelectFirst(fs, false);
    MultisetCons(fs);
  }

  /** A sequence's multiset is its head's plus its tail's. */
  lemma MultisetCons(fs: seq<Feature>)
    requires |fs| > 0
    ensures multiset(fs) == multiset(fs[1..]) + multiset{fs[0]}
  {
    assert fs == [fs[0]] + fs[1..];
  }

  /** The first record goes to its own side only. */
  lemma SelectFirst(fs: seq<Feature>, keepWidely: bool)
    requires |fs| > 0
    ensures multiset(SelectWidely(fs, keepWidely)) == multiset(SelectWidely(fs[1..], keepWidely)) +
      if (fs[0].baselineStatus == Widely) == keepWidely then multiset{fs[0]} else multiset{}
  {
  }

  /** Every record of the wanted status is selected. */
  lemma {:induction false} SelectKeepsMatching(fs: seq<Feature>, keepWidely: bool, k: nat)
    requires k < |fs| && (fs[k].baselineStatus == Widely) == keepWidely
    ensures fs[k] in SelectWidely(fs, keepWidely)
  {
    if k > 0 {
      assert fs[k] == fs[1..][k - 1];
      SelectKeepsMatching(fs[1..], keepWidely, k - 1);
    }
  }

  /** Loading the dataset `bcd`: an error exactly when the walk found nothing. */
  function LoadFeatures(bcd: Node): (r: Load)
    ensures r.Failed? <==> |GetAllFeatures(bcd)| == 0
    ensures r.Loaded? ==> r.features == GetAllFeatures(bcd) && 0 < |r.features| <= MaxFeatures
    ensures r.Loaded? ==> forall k :: 0 <= k < |r.current| ==> r.current[k].baselineStatus == Widely
    ensures r.Loaded? ==> forall k :: 0 <= k < |r.recommended| ==> r.recommended[k].baselineStatus != Widely
  {
    var fs := GetAllFeatures(bcd);
    if |fs| == 0 then Failed("No features were loaded from BCD data")
    else Loaded(fs, SelectWidely(fs, true), SelectWidely(fs, false))
  }

  /** The split neither loses nor duplicates a record. */
  lemma LoadSplitPermutes(bcd: Node)
    ensures var r := LoadFeatures(bcd);
      r.Loaded? ==> multiset(r.current) + multiset(r.recommended) == multiset(r.features)
  {
    SelectionsCover(GetAllFeatures(bcd));
  }
}
