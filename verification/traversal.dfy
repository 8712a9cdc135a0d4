/**
  `getAllFeatures` / `traverseData`: the capped, priority-ordered,
  depth-first walk of the compatibility dataset, and the top-level loop over
  the configured categories.
 */
module Traversal {
  import opened Types
  import opened Strings
  import opened Ordering
  import opened Builder

  /**
    A dataset value: an object with an optional `__compat` payload and its
    other properties in enumeration order, or anything that is not an object.
   */
  datatype Node = Object(compat: Option<Compat>, entries: seq<Entry<Node>>) | Scalar

  /** `MAX_FEATURES`. */
  const MaxFeatures: nat := 100

  /** `PRIORITY_CATEGORIES`, in declaration order. */
  const PriorityCategories: seq<(string, seq<string>)> := [
    ("css", ["properties", "selectors"]),
    ("javascript", ["builtins"]),
    ("html", ["elements"]),
    ("api", [])]

  /** The subcategory list configured for `category` in `table`; empty when it has none. */
  function KeysFor(table: seq<(string, seq<string>)>, category: string): (keys: seq<string>)
    ensures (forall i :: 0 <= i < |table| ==> table[i].0 != category) ==> keys == []
    ensures forall i ::
      (0 <= i < |table| && table[i].0 == category && forall j :: 0 <= j < i ==> table[j].0 != category) ==>
      keys == table[i].1
  {
    if |table| == 0 then []
    else if table[0].0 == category then table[0].1
    else KeysFor(table[1..], category)
  }

  /** The priority keys of the category a path starts in. */
  function PriorityKeys(category: string): seq<string>
  {
    KeysFor(PriorityCategories, category)
  }

  /** The children of object `n` at `path`, in visiting order. */
  function Children(path: seq<string>, n: Node): (kids: seq<Entry<Node>>)
    requires |path| > 0 && n.Object?
    ensures forall k :: 0 <= k < |kids| ==> kids[k] in n.entries && !IsMetadataKey(kids[k].key)
    ensures forall k :: 0 <= k < |n.entries| && !IsMetadataKey(n.entries[k].key) ==> n.entries[k] in kids
    ensures multiset(kids) == multiset(Visible(n.entries))
  {
    var kids := ChildOrder(PriorityKeys(path[0]), n.entries);
    forall k | 0 <= k < |n.entries| && !IsMetadataKey(n.entries[k].key) ensures n.entries[k] in kids {
      VisibleKeepsChildren(n.entries, k);
      assert n.entries[k] in multiset(Visible(n.entries));
    }
    kids
  }

  /** The accumulated records and the "stop" signal `traverseData` returns. */
  datatype Progress = Progress(features: seq<Feature>, stop: bool)

  /** The record built at a node carrying `compat`, if the builder yields one. */
  function Own(compat: Option<Compat>, path: seq<string>): (own: seq<Feature>)
    requires |path| > 0
    ensures |own| <= 1
    ensures |own| == 1 <==> compat.Some? && compat.value.support.Some?
  {
    if compat.None? then []
    else
      match TransformBcdFeature(Join(path), compat, path[|path| - 1])
      case Some(f) => [f]
      case None => []
  }

  /**
    `traverseData(obj, path)` with `features` passed in as `acc`: a
    non-object yields nothing; at the cap it stops at once; otherwise it adds
    the node's own record, stops if that reached the cap, and walks the
    children.
   */
  function Traverse(n: Node, path: seq<string>, acc: seq<Feature>): (r: Progress)
    requires |path| > 0
    ensures |acc| <= |r.features| && r.features[..|acc|] == acc
    ensures |acc| <= MaxFeatures ==> |r.features| <= MaxFeatures
    ensures |acc| >= MaxFeatures ==> r.features == acc
    ensures |acc| < MaxFeatures ==> (r.stop <==> |r.features| == MaxFeatures)
    decreases n, 1
  {
    match n
    case Scalar => Progress(acc, false)
    case Object(compat, _) =>
      if |acc| >= MaxFeatures then Progress(acc, true)
      else
        var acc1 := acc + Own(compat, path);
        assert acc1[..|acc|] == acc;
        if |acc1| >= MaxFeatures then Progress(acc1, true)
        else
          var r := Walk(n, Children(path, n), 0, path, acc1);
          assert r.features[..|acc|] == r.features[..|acc1|][..|acc|];
          r
  }

  /**
    The loop over a node's children: objects are walked in order, anything
    else is skipped, and a child's "stop" ends the loop and is passed up.
   */
  function Walk(parent: Node, kids: seq<Entry<Node>>, i: nat, path: seq<string>, acc: seq<Feature>): (r: Progress)
    requires |path| > 0
    requires parent.Object?
    requires forall k :: 0 <= k < |kids| ==> kids[k] in parent.entries
    requires i <= |kids|
    ensures |acc| <= |r.features| && r.features[..|acc|] == acc
    ensures |acc| <= MaxFeatures ==> |r.features| <= MaxFeatures
    ensures |acc| >= MaxFeatures ==> r.features == acc
    ensures |acc| < MaxFeatures ==> (r.stop <==> |r.features| == MaxFeatures)
    decreases parent, 0, |kids| - i
  {
    if i == |kids| then Progress(acc, false)
    else
      var child := kids[i];
      assert child in parent.entries;
      if child.value.Object? then
        var r := Traverse(child.value, path + [child.key], acc);
        if r.stop then Progress(r.features, true)
        else Walk(parent, kids, i + 1, path, r.features)
      else
        Walk(parent, kids, i + 1, path, acc)
  }

  /** The records the walk would collect with no cap: the pre-order of record-bearing nodes. */
  function Collect(n: Node, path: seq<string>): seq<Feature>
    requires |path| > 0
    decreases n, 1
  {
    match n
    case Scalar => []
    case Object(compat, _) => Own(compat, path) + CollectAll(n, Children(path, n), 0, path)
  }

  /** The uncapped records of the object children in `kids` from index `i` on, in order. */
  function CollectAll(parent: Node, kids: seq<Entry<Node>>, i: nat, path: seq<string>): seq<Feature>
    requires |path| > 0
    requires parent.Object?
    requires forall k :: 0 <= k < |kids| ==> kids[k] in parent.entries
    requires i <= |kids|
    decreases parent, 0, |kids| - i
  {
    if i == |kids| then []
    else
      var child := kids[i];
      assert child in parent.entries;
      (if child.value.Object? then Collect(child.value, path + [child.key]) else [])
      + CollectAll(parent, kids, i + 1, path)
  }

  /** `acc` extended by as much of `recs` as fits under the cap. */
  function AppendCapped(acc: seq<Feature>, recs: seq<Feature>): seq<Feature>
    requires |acc| <= MaxFeatures
  {
    var room := MaxFeatures - |acc|;
    if |recs| <= room then acc + recs else acc + recs[..room]
  }

  /** The records past `acc` are the first records of `recs`. */
  lemma AppendCappedIndex(acc: seq<Feature>, recs: seq<Feature>, k: nat)
    requires |acc| <= MaxFeatures
    requires |acc| <= k < |AppendCapped(acc, recs)|
    ensures k - |acc| < |recs| && AppendCapped(acc, recs)[k] == recs[k - |acc|]
  {
  }

  /** Capping in two steps is capping the concatenation. */
  lemma AppendCappedAssoc(acc: seq<Feature>, x: seq<Feature>, y: seq<Feature>)
    requires |acc| <= MaxFeatures
    ensures |AppendCapped(acc, x)| <= MaxFeatures
    ensures AppendCapped(AppendCapped(acc, x), y) == AppendCapped(acc, x + y)
  {
    var room := MaxFeatures - |acc|;
    if |x| + |y| <= room {
    } else if |x| <= room {
      assert (x + y)[..room] == x + y[..room - |x|];
    } else {
      assert (x + y)[..room] == x[..room];
    }
  }

  /**
    The capped walk returns exactly the first records of the uncapped
    pre-order, as many as fit under the cap.
   */
  lemma {:induction false} TraverseIsCappedCollect(n: Node, path: seq<string>, acc: seq<Feature>)
    requires |path| > 0
    requires |acc| <= MaxFeatures
    ensures Traverse(n, path, acc).features == AppendCapped(acc, Collect(n, path))
    decreases n, 1
  {
    match n
    case Scalar =>
    case Object(compat, _) =>
      if |acc| < MaxFeatures {
        var own := Own(compat, path);
        var acc1 := acc + own;
        var kids := Children(path, n);
        AppendCappedAssoc(acc, own, CollectAll(n, kids, 0, path));
        if |acc1| < MaxFeatures {
          WalkIsCappedCollectAll(n, kids, 0, path, acc1);
        }
      }
  }

  /** The children loop is the capped concatenation of the children's pre-orders. */
  lemma {:induction false} WalkIsCappedCollectAll(parent: Node, kids: seq<Entry<Node>>, i: nat, path: seq<string>, acc: seq<Feature>)
    requires |path| > 0
    requires parent.Object?
    requires forall k :: 0 <= k < |kids| ==> kids[k] in parent.entries
    requires i <= |kids|
    requires |acc| <= MaxFeatures
    ensures Walk(parent, kids, i, path, acc).features == AppendCapped(acc, CollectAll(parent, kids, i, path))
    decreases parent, 0, |kids| - i
  {
    if i < |kids| {
      var child := kids[i];
      assert child in parent.entries;
      var rest := CollectAll(parent, kids, i + 1, path);
      if child.value.Object? {
        var childPath := path + [child.key];
        var mine := Collect(child.value, childPath);
        var r := Traverse(child.value, childPath, acc);
        TraverseIsCappedCollect(child.value, childPath, acc);
        var tail := if r.stop then r.features else Walk(parent, kids, i + 1, path, r.features).features;
        if !r.stop {
          WalkIsCappedCollectAll(parent, kids, i + 1, path, r.features);
        }
        CapStep(acc, mine, rest, r.features, r.stop, tail);
        assert Walk(parent, kids, i, path, acc).features == tail;
        assert CollectAll(parent, kids, i, path) == mine + rest;
      } else {
        WalkIsCappedCollectAll(parent, kids, i + 1, path, acc);
        assert Walk(parent, kids, i, path, acc) == Walk(parent, kids, i + 1, path, acc);
        assert CollectAll(parent, kids, i, path) == rest;
      }
    }
  }

  /** One child of the loop: its capped records, then the rest unless it stopped, cap the concatenation. */
  lemma CapStep(acc: seq<Feature>, mine: seq<Feature>, rest: seq<Feature>, got: seq<Feature>, stop: bool, tail: seq<Feature>)
    requires |acc| <= MaxFeatures
    requires got == AppendCapped(acc, mine)
    requires |acc| < MaxFeatures ==> (stop <==> |got| == MaxFeatures)
    requires stop ==> tail == got
    requires !stop ==> |got| <= MaxFeatures && tail == AppendCapped(got, rest)
    ensures tail == AppendCapped(acc, mine + rest)
  {
    AppendCappedAssoc(acc, mine, rest);
  }

  /** The walk of a subtree below the cap stops exactly when its uncapped records would reach the cap. */
  lemma TraverseStopsIff(n: Node, path: seq<string>, acc: seq<Feature>)
    requires |path| > 0
    requires |acc| < MaxFeatures
    ensures Traverse(n, path, acc).stop <==> |acc| + |Collect(n, path)| >= MaxFeatures
  {
    TraverseIsCappedCollect(n, path, acc);
  }

  /** The path ends with `name` as its last dot-separated segment. */
  ghost predicate NamedByLastSegment(p: string, name: string)
  {
    p == name || (|name| + 1 <= |p| && p[|p| - |name| - 1..] == "." + name)
  }

  /**
    `f` is the record built at the node reached by the keys `p`: it is
    consistent, its dataset path is `p` joined with dots, and its name is the
    last key of `p`.
   */
  ghost predicate BuiltAt(f: Feature, p: seq<string>)
  {
    && |p| > 0
    && ConsistentRecord(f)
    && f.mdnPath == Some(Join(p))
    && f.name == p[|p| - 1]
  }

  /** `f` was built at the node reached by `path` or at a node below it. */
  ghost predicate RecordUnder(f: Feature, path: seq<string>)
  {
    exists full :: BuiltAt(f, full) && IsPrefix(path, full)
  }

  /** A record built at a node lies under that node. */
  lemma BuiltAtIsUnder(f: Feature, p: seq<string>)
    requires BuiltAt(f, p)
    ensures RecordUnder(f, p)
  {
    assert p[..|p|] == p;
  }

  /** A record under a child lies under its parent. */
  lemma RecordUnderParent(f: Feature, path: seq<string>, key: string)
    requires RecordUnder(f, path + [key])
    ensures RecordUnder(f, path)
  {
    var full :| BuiltAt(f, full) && IsPrefix(path + [key], full);
    assert full[..|path|] == full[..|path| + 1][..|path|];
    assert IsPrefix(path, full);
  }

  /** Appending `.name` to a path makes `name` its last segment. */
  lemma DotNameSuffix(q: string, name: string)
    ensures NamedByLastSegment(q + "." + name, name)
  {
    var p := q + "." + name;
    assert p[|q| + 1..] == name;
    assert p[|p| - |name| - 1..] == "." + name;
  }

  /** A joined path is named by its last segment. */
  lemma JoinNamedByLast(path: seq<string>)
    requires |path| > 0
    ensures NamedByLastSegment(Join(path), path[|path| - 1])
  {
    var name := path[|path| - 1];
    if |path| == 1 {
      assert Join(path) == name;
    } else {
      var init := path[..|path| - 1];
      assert path == init + [name];
      JoinSnoc(init, name);
      assert Join(path) == Join(init) + "." + name;
      DotNameSuffix(Join(init), name);
    }
  }

  /** The record of a node is built at exactly the node's path. */
  lemma OwnRecordUnder(compat: Option<Compat>, path: seq<string>)
    requires |path| > 0
    ensures forall k :: 0 <= k < |Own(compat, path)| ==> BuiltAt(Own(compat, path)[k], path)
  {
    var own := Own(compat, path);
    if |own| == 1 {
      assert own[0].mdnPath == Some(Join(path)) && own[0].name == path[|path| - 1];
    }
  }

  /**
    Every record of a subtree was built at the subtree's root or below it:
    at a key path extending `path`, whose joined form is the record's path
    and whose last key is the record's name.
   */
  lemma {:induction false} CollectRecordsUnder(n: Node, path: seq<string>)
    requires |path| > 0
    ensures forall k :: 0 <= k < |Collect(n, path)| ==> RecordUnder(Collect(n, path)[k], path)
    decreases n, 1
  {
    match n
    case Scalar =>
    case Object(compat, _) =>
      var own := Own(compat, path);
      OwnRecordUnder(compat, path);
      forall k | 0 <= k < |own| ensures RecordUnder(own[k], path) {
        BuiltAtIsUnder(own[k], path);
      }
      CollectAllRecordsUnder(n, Children(path, n), 0, path);
  }

  lemma {:induction false} CollectAllRecordsUnder(parent: Node, kids: seq<Entry<Node>>, i: nat, path: seq<string>)
    requires |path| > 0
    requires parent.Object?
    requires forall k :: 0 <= k < |kids| ==> kids[k] in parent.entries
    requires i <= |kids|
    ensures forall k :: 0 <= k < |CollectAll(parent, kids, i, path)| ==> RecordUnder(CollectAll(parent, kids, i, path)[k], path)
    decreases parent, 0, |kids| - i
  {
    if i < |kids| {
      var child := kids[i];
      assert child in parent.entries;
      CollectAllRecordsUnder(parent, kids, i + 1, path);
      if child.value.Object? {
        var childPath := path + [child.key];
        CollectRecordsUnder(child.value, childPath);
        var mine := Collect(child.value, childPath);
        forall k | 0 <= k < |mine| ensures RecordUnder(mine[k], path) {
          RecordUnderParent(mine[k], path, child.key);
        }
      }
    }
  }

  /** The property `key` of an object: its first entry with that key. */
  function Lookup(n: Node, key: string): (r: Option<Node>)
    ensures r.Some? <==> n.Object? && exists k :: 0 <= k < |n.entries| && n.entries[k].key == key
    ensures r.Some? ==> exists k :: 0 <= k < |n.entries| && n.entries[k] == Entry(key, r.value)
  {
    match n
    case Scalar => None
    case Object(_, entries) => LookupIn(entries, key)
  }

  function LookupIn(entries: seq<Entry<Node>>, key: string): (r: Option<Node>)
    ensures r.Some? <==> exists k :: 0 <= k < |entries| && entries[k].key == key
    ensures r.Some? ==> exists k :: 0 <= k < |entries| && entries[k] == Entry(key, r.value)
  {
    if |entries| == 0 then None
    else if entries[0].key == key then Some(entries[0].value)
    else
      var r := LookupIn(entries[1..], key);
      assert forall k :: 1 <= k < |entries| ==> entries[k] == entries[1..][k - 1];
      assert r.Some? ==> exists k :: 0 <= k < |entries| && entries[k] == Entry(key, r.value) by {
        if r.Some? {
          var k :| 0 <= k < |entries[1..]| && entries[1..][k] == Entry(key, r.value);
          assert entries[k + 1] == Entry(key, r.value);
        }
      }
      r
  }

  /** `bcd[category]?.[sub]`. */
  function SubcategoryNode(bcd: Node, category: string, sub: string): Option<Node>
  {
    match Lookup(bcd, category)
    case None => None
    case Some(c) => Lookup(c, sub)
  }

  /** Walks `root` from `path` when it is present; the stop signal is dropped. */
  function WalkRoot(root: Option<Node>, path: seq<string>, acc: seq<Feature>): (r: seq<Feature>)
    requires |path| > 0
    ensures |acc| <= |r| && r[..|acc|] == acc
    ensures |acc| <= MaxFeatures ==> |r| <= MaxFeatures
    ensures |acc| >= MaxFeatures ==> r == acc
  {
    match root
    case None => acc
    case Some(n) => Traverse(n, path, acc).features
  }

  /**
    The inner loop for a category with listed subcategories: each listed
    subcategory present in the dataset is walked in list order. Its stop
    signal is not consulted; at the cap the next walk adds nothing anyway.
   */
  function VisitSubcategories(bcd: Node, category: string, subs: seq<string>, acc: seq<Feature>): (r: seq<Feature>)
    ensures |acc| <= |r| && r[..|acc|] == acc
    ensures |acc| <= MaxFeatures ==> |r| <= MaxFeatures
    ensures |acc| >= MaxFeatures ==> r == acc
  {
    if |subs| == 0 then acc
    else
      var acc1 := WalkRoot(SubcategoryNode(bcd, category, subs[0]), [category, subs[0]], acc);
      VisitSubcategories(bcd, category, subs[1..], acc1)
  }

  /**
    The top-level loop: a category without subcategories is walked whole,
    any other only through its listed subcategories; the loop breaks once the
    cap is reached.
   */
  function VisitCategories(bcd: Node, cats: seq<(string, seq<string>)>, acc: seq<Feature>): (r: seq<Feature>)
    ensures |acc| <= |r| && r[..|acc|] == acc
    ensures |acc| <= MaxFeatures ==> |r| <= MaxFeatures
    ensures |acc| >= MaxFeatures ==> r == acc
  {
    if |cats| == 0 then acc
    else
      var (category, subs) := cats[0];
      var acc1 :=
        if |subs| == 0 then WalkRoot(Lookup(bcd, category), [category], acc)
        else VisitSubcategories(bcd, category, subs, acc);
      if |acc1| >= MaxFeatures then acc1
      else VisitCategories(bcd, cats[1..], acc1)
  }

  /** A subtree the top-level loop walks, with the path it starts from. */
  datatype Root = Root(node: Node, path: seq<string>)

  /** The root `WalkRoot` visits, if any. */
  function RootsOf(root: Option<Node>, path: seq<string>): seq<Root>
  {
    match root
    case None => []
    case Some(n) => [Root(n, path)]
  }

  /** The roots the inner loop walks, in order. */
  function SubcategoryRoots(bcd: Node, category: string, subs: seq<string>): (roots: seq<Root>)
    ensures forall k :: 0 <= k < |roots| ==>
      |roots[k].path| == 2 && roots[k].path[0] == category && roots[k].path[1] in subs
  {
    if |subs| == 0 then []
    else
      var rest := SubcategoryRoots(bcd, category, subs[1..]);
      assert forall k :: 0 <= k < |rest| ==> rest[k].path[1] in subs by {
        forall k | 0 <= k < |rest| ensures rest[k].path[1] in subs {
          assert rest[k].path[1] in subs[1..];
        }
      }
      RootsOf(SubcategoryNode(bcd, category, subs[0]), [category, subs[0]]) + rest
  }

  /**
    A root belongs to a configured category: the whole category when it
    lists no subcategories, otherwise one of the listed subcategories.
   */
  ghost predicate RootListed(root: Root, config: (string, seq<string>))
  {
    if |config.1| == 0 then root.path == [config.0]
    else |root.path| == 2 && root.path[0] == config.0 && root.path[1] in config.1
  }

  /** The roots the top-level loop walks, in order, ignoring the cap. */
  function CategoryRoots(bcd: Node, cats: seq<(string, seq<string>)>): (roots: seq<Root>)
    ensures forall k :: 0 <= k < |roots| ==> exists j :: 0 <= j < |cats| && RootListed(roots[k], cats[j])
  {
    if |cats| == 0 then []
    else
      var (category, subs) := cats[0];
      var here :=
        if |subs| == 0 then RootsOf(Lookup(bcd, category), [category])
        else SubcategoryRoots(bcd, category, subs);
      var rest := CategoryRoots(bcd, cats[1..]);
      assert forall k :: 0 <= k < |here| ==> RootListed(here[k], cats[0]);
      assert forall k :: 0 <= k < |rest| ==> exists j :: 0 <= j < |cats| && RootListed(rest[k], cats[j]) by {
        forall k | 0 <= k < |rest| ensures exists j :: 0 <= j < |cats| && RootListed(rest[k], cats[j]) {
          var j :| 0 <= j < |cats[1..]| && RootListed(rest[k], cats[1..][j]);
          assert cats[1..][j] == cats[j + 1];
        }
      }
      here + rest
  }

  /** The uncapped records of one root. */
  function RecordsOf(root: Root): seq<Feature>
  {
    if |root.path| == 0 then [] else Collect(root.node, root.path)
  }

  /** The uncapped records of all roots, in order. */
  function RootRecords(roots: seq<Root>): seq<Feature>
  {
    if |roots| == 0 then [] else RecordsOf(roots[0]) + RootRecords(roots[1..])
  }

  lemma {:induction false} RootRecordsAppend(a: seq<Root>, b: seq<Root>)
    ensures RootRecords(a + b) == RootRecords(a) + RootRecords(b)
  {
    if |a| > 0 {
      RootRecordsAppend(a[1..], b);
      RootRecordsCons(a, b);
      ConcatAssoc(RecordsOf(a[0]), RootRecords(a[1..]), RootRecords(b));
    } else {
      assert a + b == b;
    }
  }

  lemma RootRecordsCons(a: seq<Root>, b: seq<Root>)
    requires |a| > 0
    ensures RootRecords(a + b) == RecordsOf(a[0]) + RootRecords(a[1..] + b)
  {
    assert (a + b)[0] == a[0];
    assert (a + b)[1..] == a[1..] + b;
  }

  lemma ConcatAssoc<T>(c: seq<T>, x: seq<T>, y: seq<T>)
    ensures c + (x + y) == (c + x) + y
  {
  }

  /** Walking one optional root is capping its records. */
  lemma WalkRootIsCapped(root: Option<Node>, path: seq<string>, acc: seq<Feature>)
    requires |path| > 0
    requires |acc| <= MaxFeatures
    ensures WalkRoot(root, path, acc) == AppendCapped(acc, RootRecords(RootsOf(root, path)))
  {
    if root.Some? {
      var roots := RootsOf(root, path);
      assert RootRecords(roots) == Collect(root.value, path) + RootRecords([]);
      TraverseIsCappedCollect(root.value, path, acc);
    }
  }

  lemma {:induction false} SubcategoriesAreCapped(bcd: Node, category: string, subs: seq<string>, acc: seq<Feature>)
    requires |acc| <= MaxFeatures
    ensures VisitSubcategories(bcd, category, subs, acc) == AppendCapped(acc, RootRecords(SubcategoryRoots(bcd, category, subs)))
  {
    if |subs| > 0 {
      var path := [category, subs[0]];
      var here := RootsOf(SubcategoryNode(bcd, category, subs[0]), path);
      var restRoots := SubcategoryRoots(bcd, category, subs[1..]);
      RootRecordsAppend(here, restRoots);
      WalkRootIsCapped(SubcategoryNode(bcd, category, subs[0]), path, acc);
      AppendCappedAssoc(acc, RootRecords(here), RootRecords(restRoots));
      SubcategoriesAreCapped(bcd, category, subs[1..], AppendCapped(acc, RootRecords(here)));
    }
  }

  lemma {:induction false} CategoriesAreCapped(bcd: Node, cats: seq<(string, seq<string>)>, acc: seq<Feature>)
    requires |acc| <= MaxFeatures
    ensures VisitCategories(bcd, cats, acc) == AppendCapped(acc, RootRecords(CategoryRoots(bcd, cats)))
  {
    if |cats| > 0 {
      var (category, subs) := cats[0];
      var here :=
        if |subs| == 0 then RootsOf(Lookup(bcd, category), [category])
        else SubcategoryRoots(bcd, category, subs);
      var restRoots := CategoryRoots(bcd, cats[1..]);
      RootRecordsAppend(here, restRoots);
      if |subs| == 0 {
        WalkRootIsCapped(Lookup(bcd, category), [category], acc);
      } else {
        SubcategoriesAreCapped(bcd, category, subs, acc);
      }
      var acc1 := AppendCapped(acc, RootRecords(here));
      AppendCappedAssoc(acc, RootRecords(here), RootRecords(restRoots));
      if |acc1| < MaxFeatures {
        CategoriesAreCapped(bcd, cats[1..], acc1);
      }
    }
  }

  /** `getAllFeatures` over the dataset `bcd`. */
  function GetAllFeatures(bcd: Node): (r: seq<Feature>)
    ensures |r| <= MaxFeatures
    ensures r == AppendCapped([], RootRecords(CategoryRoots(bcd, PriorityCategories)))
  {
    CategoriesAreCapped(bcd, PriorityCategories, []);
    VisitCategories(bcd, PriorityCategories, [])
  }

  /** `f` was built below one of `roots`. */
  ghost predicate UnderSomeRoot(f: Feature, roots: seq<Root>)
  {
    exists j :: 0 <= j < |roots| && |roots[j].path| > 0 && RecordUnder(f, roots[j].path)
  }

  /** Every uncapped record of a list of roots was built below one of them. */
  lemma {:induction false} RootRecordsUnder(roots: seq<Root>)
    ensures forall k :: 0 <= k < |RootRecords(roots)| ==> UnderSomeRoot(RootRecords(roots)[k], roots)
  {
    if |roots| > 0 {
      RootRecordsUnder(roots[1..]);
      var rest := RootRecords(roots[1..]);
      forall k | 0 <= k < |rest| ensures UnderSomeRoot(rest[k], roots) {
        assert UnderSomeRoot(rest[k], roots[1..]);
        var j :| 0 <= j < |roots[1..]| && |roots[1..][j].path| > 0 && RecordUnder(rest[k], roots[1..][j].path);
        assert roots[1..][j] == roots[j + 1];
      }
      var all := RootRecords(roots);
      if |roots[0].path| > 0 {
        var mine := Collect(roots[0].node, roots[0].path);
        CollectRecordsUnder(roots[0].node, roots[0].path);
        assert all == mine + rest;
        forall k | 0 <= k < |all| ensures UnderSomeRoot(all[k], roots) {
          if k < |mine| {
            assert RecordUnder(all[k], roots[0].path);
          } else {
            assert all[k] == rest[k - |mine|];
          }
        }
      } else {
        assert all == rest;
      }
    }
  }

  /**
    A key path lies in a configured root: for a category without a list,
    its first key is the category; otherwise its first two keys are the
    category and one of the listed subcategories.
   */
  predicate PathListed(p: seq<string>, config: (string, seq<string>))
  {
    if |config.1| == 0 then |p| >= 1 && p[0] == config.0
    else |p| >= 2 && p[0] == config.0 && p[1] in config.1
  }

  /** A key path lies in one of the configured roots of `cats`. */
  predicate Configured(p: seq<string>, cats: seq<(string, seq<string>)>)
  {
    exists i :: 0 <= i < |cats| && PathListed(p, cats[i])
  }

  /** A record under a listed root was built at a path in that root. */
  lemma RecordInRoot(f: Feature, root: Root, config: (string, seq<string>))
    requires RecordUnder(f, root.path)
    requires RootListed(root, config)
    ensures exists full :: BuiltAt(f, full) && IsPrefix(root.path, full) && PathListed(full, config)
  {
    var full :| BuiltAt(f, full) && IsPrefix(root.path, full);
    var n := |root.path|;
    assert full[..n] == root.path;
    assert full[0] == full[..n][0];
    if |config.1| > 0 {
      assert full[1] == full[..n][1];
    }
    assert PathListed(full, config);
  }

  /**
    Every record the top-level loop collects from `cats` was built at a key
    path inside one of the configured roots: it is consistent, its dataset
    path joins those keys, and its name is the last key.
   */
  lemma CategoryRecord(bcd: Node, cats: seq<(string, seq<string>)>, k: nat)
    ensures k < |RootRecords(CategoryRoots(bcd, cats))| ==>
      var f := RootRecords(CategoryRoots(bcd, cats))[k];
      exists full :: BuiltAt(f, full) && Configured(full, cats)
  {
    var roots := CategoryRoots(bcd, cats);
    if k >= |RootRecords(roots)| {
      return;
    }
    var f := RootRecords(roots)[k];
    RootRecordsUnder(roots);
    assert UnderSomeRoot(f, roots);
    var j :| 0 <= j < |roots| && |roots[j].path| > 0 && RecordUnder(f, roots[j].path);
    var i :| 0 <= i < |cats| && RootListed(roots[j], cats[i]);
    RecordInRoot(f, roots[j], cats[i]);
    var full :| BuiltAt(f, full) && PathListed(full, cats[i]);
    assert Configured(full, cats);
  }

  /**
    Every record `getAllFeatures` returns was built at a key path inside a
    configured root (`css.properties`, `css.selectors`,
    `javascript.builtins`, `html.elements` or `api`): it is consistent, its
    dataset path joins those keys, and its name is the last key, so the
    name is the last dot-separated segment of its dataset path.
   */
  lemma GetAllFeaturesRecords(bcd: Node, k: nat)
    ensures k < |GetAllFeatures(bcd)| ==>
      var f := GetAllFeatures(bcd)[k];
      && (exists full :: BuiltAt(f, full) && Configured(full, PriorityCategories))
      && NamedByLastSegment(f.mdnPath.value, f.name)
  {
    GetAllFeaturesIndex(bcd, k);
    CategoryRecordNamed(bcd, PriorityCategories, k);
  }

  /** `CategoryRecord`, with the name read off the record's dataset path. */
  lemma CategoryRecordNamed(bcd: Node, cats: seq<(string, seq<string>)>, k: nat)
    ensures k < |RootRecords(CategoryRoots(bcd, cats))| ==>
      var f := RootRecords(CategoryRoots(bcd, cats))[k];
      && (exists full :: BuiltAt(f, full) && Configured(full, cats))
      && NamedByLastSegment(f.mdnPath.value, f.name)
  {
    if k >= |RootRecords(CategoryRoots(bcd, cats))| {
      return;
    }
    CategoryRecord(bcd, cats, k);
    var f := RootRecords(CategoryRoots(bcd, cats))[k];
    var full :| BuiltAt(f, full) && Configured(full, cats);
    BuiltAtNamed(f, full);
  }

  /** A record built at a key path is named by the last dot-separated segment of its dataset path. */
  lemma BuiltAtNamed(f: Feature, p: seq<string>)
    requires BuiltAt(f, p)
    ensures NamedByLastSegment(f.mdnPath.value, f.name)
  {
    JoinNamedByLast(p);
  }

  /** The `k`-th returned record is the `k`-th uncapped record. */
  lemma GetAllFeaturesIndex(bcd: Node, k: nat)
    ensures k < |GetAllFeatures(bcd)| ==>
      && k < |RootRecords(CategoryRoots(bcd, PriorityCategories))|
      && GetAllFeatures(bcd)[k] == RootRecords(CategoryRoots(bcd, PriorityCategories))[k]
  {
    if k < |GetAllFeatures(bcd)| {
      AppendCappedIndex([], RootRecords(CategoryRoots(bcd, PriorityCategories)), k);
    }
  }

  /** At every depth the children are the stable partition by the category's priority keys. */
  lemma ChildrenArePartition(path: seq<string>, n: Node)
    requires |path| > 0 && n.Object?
    ensures Children(path, n) == Partition(PriorityKeys(path[0]), Visible(n.entries))
  {
    ChildOrderIsPartition(PriorityKeys(path[0]), n.entries);
  }

  /** Once the cap is reached no later category adds anything. */
  lemma CapIsFinal(bcd: Node, cats: seq<(string, seq<string>)>, acc: seq<Feature>)
    requires |acc| == MaxFeatures
    ensures VisitCategories(bcd, cats, acc) == acc
  {
    CategoriesAreCapped(bcd, cats, acc);
  }

  /** Once the cap is reached no later subcategory adds anything. */
  lemma CapIsFinalForSubcategories(bcd: Node, category: string, subs: seq<string>, acc: seq<Feature>)
    requires |acc| == MaxFeatures
    ensures VisitSubcategories(bcd, category, subs, acc) == acc
  {
    SubcategoriesAreCapped(bcd, category, subs, acc);
  }

  /** Example: a leaf with a payload yields its own record and does not stop. */
  lemma LeafYieldsOneRecord(path: seq<string>, compat: Compat)
    requires |path| > 0 && compat.support.Some?
    ensures var r := Traverse(Object(Some(compat), []), path, []);
      |r.features| == 1 && !r.stop && r.features[0].name == path[|path| - 1]
  {
    var n := Object(Some(compat), []);
    assert Children(path, n) == [];
  }

  /**
    Metadata keys and non-object values are never descended into: a node
    without a payload whose other children are all scalars yields nothing.
   */
  lemma MetadataAndScalarsSkipped(path: seq<string>, entries: seq<Entry<Node>>)
    requires |path| > 0
    requires forall k :: 0 <= k < |entries| && !IsMetadataKey(entries[k].key) ==> entries[k].value == Scalar
    ensures Traverse(Object(None, entries), path, []) == Progress([], false)
  {
    var n := Object(None, entries);
    ScalarChildrenYieldNothing(path, n);
    TraverseBelowCap(n, path, []);
    assert [] + Own(None, path) == [];
  }

  /** Below the cap, an object's walk is its children loop after its own record. */
  lemma TraverseBelowCap(n: Node, path: seq<string>, acc: seq<Feature>)
    requires |path| > 0 && n.Object?
    requires |acc + Own(n.compat, path)| < MaxFeatures
    ensures Traverse(n, path, acc) == Walk(n, Children(path, n), 0, path, acc + Own(n.compat, path))
  {
  }

  /** When every non-metadata entry is a scalar, the children loop yields nothing. */
  lemma ScalarChildrenYieldNothing(path: seq<string>, n: Node)
    requires |path| > 0 && n.Object?
    requires forall k :: 0 <= k < |n.entries| && !IsMetadataKey(n.entries[k].key) ==> n.entries[k].value == Scalar
    ensures Walk(n, Children(path, n), 0, path, []) == Progress([], false)
  {
    ChildrenAreScalars(path, n);
    WalkScalars(n, Children(path, n), 0, path);
  }

  /** When every non-metadata entry is a scalar, so is every child. */
  lemma ChildrenAreScalars(path: seq<string>, n: Node)
    requires |path| > 0 && n.Object?
    requires forall k :: 0 <= k < |n.entries| && !IsMetadataKey(n.entries[k].key) ==> n.entries[k].value == Scalar
    ensures forall k :: 0 <= k < |Children(path, n)| ==> Children(path, n)[k].value == Scalar
  {
    var kids := Children(path, n);
    forall k | 0 <= k < |kids| ensures kids[k].value == Scalar {
      var j :| 0 <= j < |n.entries| && n.entries[j] == kids[k];
    }
  }

  /** A children loop over scalars only yields nothing. */
  lemma {:induction false} WalkScalars(parent: Node, kids: seq<Entry<Node>>, i: nat, path: seq<string>)
    requires |path| > 0 && parent.Object? && i <= |kids|
    requires forall k :: 0 <= k < |kids| ==> kids[k] in parent.entries && kids[k].value == Scalar
    ensures Walk(parent, kids, i, path, []) == Progress([], false)
    decreases |kids| - i
  {
    if i < |kids| {
      WalkScalars(parent, kids, i + 1, path);
    }
  }
}
