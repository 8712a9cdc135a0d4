/**
  String helpers the feature engine relies on: `split('.')`, `join('.')`,
  the global dot-to-hyphen replacement that derives a feature id, ASCII
  case mapping, and substring search (`includes`).
 */
module Strings {

  /** Position of the first `c` in `s`, or `|s|` when `s` has none. */
  function IndexOf(s: string, c: char): (i: nat)
    ensures i <= |s|
    ensures i < |s| ==> s[i] == c
    ensures forall j :: 0 <= j < i ==> s[j] != c
  {
    if |s| == 0 then 0
    else if s[0] == c then 0
    else 1 + IndexOf(s[1..], c)
  }

  /** `s.split('.')`: the dot-free segments of `s` in order; never empty. */
  function Split(s: string): (r: seq<string>)
    ensures |r| >= 1
    ensures forall k :: 0 <= k < |r| ==> '.' !in r[k]
    decreases |s|
  {
    var i := IndexOf(s, '.');
    if i == |s| then [s]
    else
      assert '.' !in s[..i] by {
        forall j | 0 <= j < i ensures s[..i][j] != '.' { }
      }
      [s[..i]] + Split(s[i + 1..])
  }

  /** `segs.join('.')`. */
  function Join(segs: seq<string>): string
  {
    if |segs| == 0 then ""
    else if |segs| == 1 then segs[0]
    else segs[0] + "." + Join(segs[1..])
  }

  ghost predicate DotFree(segs: seq<string>)
  {
    forall k :: 0 <= k < |segs| ==> '.' !in segs[k]
  }

  /** Joining the segments of a split gives back the original string. */
  lemma {:induction false} JoinSplit(s: string)
    ensures Join(Split(s)) == s
    decreases |s|
  {
    var i := IndexOf(s, '.');
    if i < |s| {
      var head, tail := s[..i], s[i + 1..];
      JoinSplit(tail);
      JoinCons(head, Split(tail));
      DotSplitsAt(s, i);
    }
  }

  /** Joining a head onto non-empty segments puts a dot between. */
  lemma JoinCons(head: string, rest: seq<string>)
    requires |rest| >= 1
    ensures Join([head] + rest) == head + "." + Join(rest)
  {
    assert ([head] + rest)[1..] == rest;
  }

  /** A string is the part before a dot, the dot, and the part after. */
  lemma DotSplitsAt(s: string, i: nat)
    requires i < |s| && s[i] == '.'
    ensures s == s[..i] + "." + s[i + 1..]
  {
    assert s == s[..i] + s[i..];
    assert s[i..] == [s[i]] + s[i + 1..];
  }

  /** Splitting a join of dot-free segments gives back the segments. */
  lemma {:induction false} SplitJoin(segs: seq<string>)
    requires |segs| >= 1
    requires DotFree(segs)
    ensures Split(Join(segs)) == segs
  {
    var head := segs[0];
    if |segs| == 1 {
      assert '.' !in head;
      assert IndexOf(head, '.') == |head|;
    } else {
      var tail := segs[1..];
      assert DotFree(tail) by {
        forall k | 0 <= k < |tail| ensures '.' !in tail[k] {
          assert tail[k] == segs[k + 1];
        }
      }
      var s := Join(segs);
      assert s == head + "." + Join(tail);
      var i := IndexOf(s, '.');
      assert s[|head|] == '.';
      assert '.' !in head;
      assert forall j :: 0 <= j < |head| ==> s[j] == head[j];
      assert i == |head|;
      assert s[..i] == head;
      assert s[i + 1..] == Join(tail);
      SplitJoin(tail);
      assert Split(s) == [head] + tail;
    }
  }

  /** Appending one segment to a non-empty path adds ".<segment>" to its join. */
  lemma {:induction false} JoinSnoc(segs: seq<string>, last: string)
    requires |segs| >= 1
    ensures Join(segs + [last]) == Join(segs) + "." + last
    decreases |segs|
  {
    if |segs| == 1 {
      assert (segs + [last])[1..] == [last];
    } else {
      assert (segs + [last])[1..] == segs[1..] + [last];
      JoinSnoc(segs[1..], last);
    }
  }

  /** `s.replace(/\./g, '-')`: the id derived from a dotted path. */
  function ReplaceDots(s: string): (r: string)
    ensures |r| == |s|
    ensures forall i :: 0 <= i < |s| ==> r[i] == (if s[i] == '.' then '-' else s[i])
    ensures '.' !in r
  {
    if |s| == 0 then ""
    else [if s[0] == '.' then '-' else s[0]] + ReplaceDots(s[1..])
  }

  /** The inverse direction: every hyphen back to a dot. */
  function RestoreDots(s: string): (r: string)
    ensures |r| == |s|
    ensures forall i :: 0 <= i < |s| ==> r[i] == (if s[i] == '-' then '.' else s[i])
    ensures '-' !in r
  {
    if |s| == 0 then ""
    else [if s[0] == '-' then '.' else s[0]] + RestoreDots(s[1..])
  }

  /** On hyphen-free paths the id can be turned back into the path. */
  lemma RestoreReplace(s: string)
    requires '-' !in s
    ensures RestoreDots(ReplaceDots(s)) == s
  {
    var r := RestoreDots(ReplaceDots(s));
    forall i | 0 <= i < |s| ensures r[i] == s[i] {
      assert s[i] in s;
    }
  }

  /** Distinct hyphen-free paths get distinct ids. */
  lemma ReplaceDotsInjective(a: string, b: string)
    requires '-' !in a && '-' !in b
    requires ReplaceDots(a) == ReplaceDots(b)
    ensures a == b
  {
    RestoreReplace(a);
    RestoreReplace(b);
  }

  /** Hyphens in the path make ids collide: "a.b" and "a-b" share one. */
  lemma HyphenatedPathsCollide()
    ensures ReplaceDots("a.b") == ReplaceDots("a-b")
  {
    assert ReplaceDots("a.b")[1] == '-';
    assert ReplaceDots("a-b")[1] == '-';
  }

  function LowerChar(c: char): char
  {
    if 'A' <= c <= 'Z' then (c as int + 32) as char else c
  }

  function UpperChar(c: char): char
  {
    if 'a' <= c <= 'z' then (c as int - 32) as char else c
  }

  /** `s.toLowerCase()`, restricted to ASCII letters. */
  function ToLower(s: string): (r: string)
    ensures |r| == |s|
    ensures forall i :: 0 <= i < |s| ==> r[i] == LowerChar(s[i])
  {
    if |s| == 0 then "" else [LowerChar(s[0])] + ToLower(s[1..])
  }

  /** `s.toUpperCase()`, restricted to ASCII letters. */
  function ToUpper(s: string): (r: string)
    ensures |r| == |s|
    ensures forall i :: 0 <= i < |s| ==> r[i] == UpperChar(s[i])
  {
    if |s| == 0 then "" else [UpperChar(s[0])] + ToUpper(s[1..])
  }

  /** A string without upper-case ASCII letters is its own lower-case form. */
  lemma ToLowerKeepsLowercase(s: string)
    requires forall i :: 0 <= i < |s| ==> !('A' <= s[i] <= 'Z')
    ensures ToLower(s) == s
  {
  }

  /** Lower-casing twice is lower-casing once. */
  lemma ToLowerIdempotent(s: string)
    ensures ToLower(ToLower(s)) == ToLower(s)
  {
    var once := ToLower(s);
    var twice := ToLower(once);
    forall i | 0 <= i < |s| ensures twice[i] == once[i] { }
  }

  /** `prefix` is a prefix of `s`: `startsWith` on strings, and key by key on key paths. */
  predicate IsPrefix<T(==)>(prefix: seq<T>, s: seq<T>)
  {
    |prefix| <= |s| && s[..|prefix|] == prefix
  }

  /** `s.includes(sub)`. */
  predicate Contains(s: string, sub: string)
    decreases |s|
  {
    IsPrefix(sub, s) || (|s| > 0 && Contains(s[1..], sub))
  }

  /** `sub` occurs in `s` starting at index `i`. */
  ghost predicate OccursAt(s: string, sub: string, i: int)
  {
    0 <= i && i + |sub| <= |s| && s[i..i + |sub|] == sub
  }

  /** The recursive search agrees with the positional definition of an occurrence. */
  lemma {:induction false} ContainsIff(s: string, sub: string)
    ensures Contains(s, sub) <==> exists i :: OccursAt(s, sub, i)
    decreases |s|
  {
    if IsPrefix(sub, s) {
      assert OccursAt(s, sub, 0);
    } else if |s| == 0 {
    } else {
      ContainsIff(s[1..], sub);
      if Contains(s[1..], sub) {
        var i :| OccursAt(s[1..], sub, i);
        assert s[i + 1..i + 1 + |sub|] == s[1..][i..i + |sub|];
        assert OccursAt(s, sub, i + 1);
      }
      if exists i :: OccursAt(s, sub, i) {
        var i :| OccursAt(s, sub, i);
        if i > 0 {
          assert s[1..][i - 1..i - 1 + |sub|] == s[i..i + |sub|];
          assert OccursAt(s[1..], sub, i - 1);
        }
      }
    }
  }
}
