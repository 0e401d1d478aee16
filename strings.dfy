/** The few Python string operations the exporters rely on: `startswith`,
    `split(sep)`, `split(sep, 1)`, `replace(pat, "")`, character replacement
    and `os.path.basename`. Each is defined the way CPython scans: left to right,
    taking the leftmost non-overlapping occurrence. */
module Strings {

  /** `s.startswith(p)` */
  predicate StartsWith(s: string, p: string) {
    |p| <= |s| && s[..|p|] == p
  }

  /** `p` occurs in `s` at index `i`. */
  predicate IsAt(s: string, p: string, i: nat) {
    i + |p| <= |s| && s[i..i + |p|] == p
  }

  /** `s.endswith(p)` */
  predicate EndsWith(s: string, p: string) {
    |p| <= |s| && s[|s| - |p|..] == p
  }

  /** `p in s` */
  predicate Contains(s: string, p: string) {
    exists i: nat | i <= |s| :: IsAt(s, p, i)
  }

  /** `s.split(sep)` */
  function Split(s: string, sep: string): (parts: seq<string>)
    requires sep != []
    ensures |parts| >= 1
    decreases |s|
  {
    if |s| < |sep| then [s]
    else if s[..|sep|] == sep then [[]] + Split(s[|sep|..], sep)
    else
      var rest := Split(s[1..], sep);
      [[s[0]] + rest[0]] + rest[1..]
  }

  /** `sep.join(parts)` */
  function Join(parts: seq<string>, sep: string): string
    requires |parts| >= 1
  {
    if |parts| == 1 then parts[0] else parts[0] + sep + Join(parts[1..], sep)
  }

  /** `"".join(parts)` */
  function Concat(parts: seq<string>): string {
    if parts == [] then [] else parts[0] + Concat(parts[1..])
  }

  /** `s.split(sep, 1)`: split at the first occurrence only. */
  function SplitOnce(s: string, sep: string): (parts: seq<string>)
    requires sep != []
    ensures 1 <= |parts| <= 2
    decreases |s|
  {
    if |s| < |sep| then [s]
    else if s[..|sep|] == sep then [[], s[|sep|..]]
    else
      var rest := SplitOnce(s[1..], sep);
      [[s[0]] + rest[0]] + rest[1..]
  }

  /** `s.replace(pat, "")` */
  function RemoveAll(s: string, pat: string): (r: string)
    requires pat != []
    ensures |r| <= |s|
    decreases |s|
  {
    if |s| < |pat| then s
    else if s[..|pat|] == pat then RemoveAll(s[|pat|..], pat)
    else [s[0]] + RemoveAll(s[1..], pat)
  }

  /** Removing a pattern adds no character. */
  lemma {:induction false} RemoveAllFrom(s: string, pat: string, c: char)
    requires pat != [] && c !in s
    ensures c !in RemoveAll(s, pat)
    decreases |s|
  {
    if |s| >= |pat| {
      if s[..|pat|] == pat {
        RemoveAllFrom(s[|pat|..], pat, c);
      } else {
        RemoveAllFrom(s[1..], pat, c);
      }
    }
  }

  /** `s.replace(c, d)` for single characters. */
  function ReplaceChar(s: string, c: char, d: char): (r: string)
    ensures |r| == |s|
    ensures forall i :: 0 <= i < |s| ==> r[i] == (if s[i] == c then d else s[i])
    ensures c != d ==> c !in r
  {
    seq(|s|, i requires 0 <= i < |s| => if s[i] == c then d else s[i])
  }

  /** `os.path.basename(p)`: what follows the last '/'. */
  function Basename(p: string): (r: string)
    ensures '/' !in r
    ensures |r| <= |p| && r == p[|p| - |r|..]
    ensures |r| < |p| ==> p[|p| - |r| - 1] == '/'
  {
    if |p| == 0 || p[|p| - 1] == '/' then []
    else Basename(p[..|p| - 1]) + [p[|p| - 1]]
  }

  // ---------------------------------------------------------------------
  // Properties of Split, RemoveAll and SplitOnce.

  /** Joining the parts with the separator gives the string back. */
  lemma {:induction false} SplitJoin(s: string, sep: string)
    requires sep != []
    ensures Join(Split(s, sep), sep) == s
    decreases |s|
  {
    if |s| < |sep| {
    } else if s[..|sep|] == sep {
      SplitJoin(s[|sep|..], sep);
      var rest := Split(s[|sep|..], sep);
      assert Split(s, sep) == [[]] + rest;
      assert ([[]] + rest)[1..] == rest;
      assert s == sep + s[|sep|..];
    } else {
      SplitJoin(s[1..], sep);
      var rest := Split(s[1..], sep);
      var parts := [[s[0]] + rest[0]] + rest[1..];
      assert Split(s, sep) == parts;
      if |rest| == 1 {
        assert parts == [[s[0]] + rest[0]];
      } else {
        assert parts[1..] == rest[1..];
        assert Join(rest, sep) == rest[0] + sep + Join(rest[1..], sep);
      }
      assert s == [s[0]] + s[1..];
    }
  }

  /** Concatenating the parts is the same as deleting every separator. */
  lemma {:induction false} SplitConcat(s: string, sep: string)
    requires sep != []
    ensures Concat(Split(s, sep)) == RemoveAll(s, sep)
    decreases |s|
  {
    if |s| < |sep| {
      assert Concat([s]) == s + Concat([]);
    } else if s[..|sep|] == sep {
      SplitConcat(s[|sep|..], sep);
      var rest := Split(s[|sep|..], sep);
      assert ([[]] + rest)[1..] == rest;
    } else {
      SplitConcat(s[1..], sep);
      var rest := Split(s[1..], sep);
      var parts := [[s[0]] + rest[0]] + rest[1..];
      assert parts[1..] == rest[1..];
      assert Concat(rest) == rest[0] + Concat(rest[1..]);
    }
  }

  /** Occurrences in a suffix are occurrences in the whole string. */
  lemma IsAtShift(s: string, p: string, k: nat, i: nat)
    requires k <= |s| && IsAt(s[k..], p, i)
    ensures IsAt(s, p, k + i)
  {
    assert s[k..][i..i + |p|] == s[k + i..k + i + |p|];
  }

  /** Occurrences in a prefix are occurrences in the whole string. */
  lemma IsAtPrefix(s: string, t: string, p: string, i: nat)
    requires StartsWith(s, t) && IsAt(t, p, i)
    ensures IsAt(s, p, i)
  {
    assert t[i..i + |p|] == s[i..i + |p|];
  }

  /** A string without the separator is split into itself alone. */
  lemma {:induction false} SplitAbsent(s: string, sep: string)
    requires sep != [] && !Contains(s, sep)
    ensures Split(s, sep) == [s]
    decreases |s|
  {
    if |s| >= |sep| {
      assert !IsAt(s, sep, 0);
      if Contains(s[1..], sep) {
        var i: nat :| IsAt(s[1..], sep, i);
        IsAtShift(s, sep, 1, i);
        assert false;
      }
      SplitAbsent(s[1..], sep);
      assert [s[0]] + s[1..] == s;
    }
  }

  /** The first part is a prefix of the string and holds no separator. */
  lemma {:induction false} SplitFirst(s: string, sep: string)
    requires sep != []
    ensures StartsWith(s, Split(s, sep)[0])
    ensures !Contains(Split(s, sep)[0], sep)
    decreases |s|
  {
    var first := Split(s, sep)[0];
    if |s| < |sep| {
      assert first == s;
      forall i: nat ensures !IsAt(s, sep, i) { }
    } else if s[..|sep|] == sep {
      assert first == [];
      forall i: nat ensures !IsAt(first, sep, i) { }
    } else {
      SplitFirst(s[1..], sep);
      var r0 := Split(s[1..], sep)[0];
      assert first == [s[0]] + r0;
      assert StartsWith(s, first) by {
        assert s[1..][..|r0|] == r0;
        assert s[..|first|] == [s[0]] + s[1..][..|r0|];
      }
      forall i: nat | IsAt(first, sep, i) ensures false {
        if i > 0 {
          assert first[1..] == r0;
          assert first[i..i + |sep|] == r0[i - 1..i - 1 + |sep|];
          assert IsAt(r0, sep, i - 1);
        }
      }
    }
  }

  /** No part of a split holds the separator. */
  lemma {:induction false} SplitPartsFree(s: string, sep: string, k: nat)
    requires sep != [] && k < |Split(s, sep)|
    ensures !Contains(Split(s, sep)[k], sep)
    decreases |s|
  {
    if k == 0 {
      SplitFirst(s, sep);
    } else if |s| < |sep| {
    } else if s[..|sep|] == sep {
      SplitPartsFree(s[|sep|..], sep, k - 1);
    } else {
      SplitPartsFree(s[1..], sep, k);
    }
  }

  /** Splitting once keeps the same first part as splitting everywhere. */
  lemma {:induction false} SplitOnceFirst(s: string, sep: string)
    requires sep != []
    ensures SplitOnce(s, sep)[0] == Split(s, sep)[0]
    decreases |s|
  {
    if |s| >= |sep| && s[..|sep|] != sep {
      SplitOnceFirst(s[1..], sep);
    }
  }

  /** Deleting a pattern that does not occur changes nothing. */
  lemma {:induction false} RemoveAbsent(s: string, pat: string)
    requires pat != [] && !Contains(s, pat)
    ensures RemoveAll(s, pat) == s
    decreases |s|
  {
    if |s| >= |pat| {
      assert !IsAt(s, pat, 0);
      if Contains(s[1..], pat) {
        var i: nat :| IsAt(s[1..], pat, i);
        IsAtShift(s, pat, 1, i);
        assert false;
      }
      RemoveAbsent(s[1..], pat);
      assert [s[0]] + s[1..] == s;
    }
  }

  lemma {:induction false} ConcatSnoc(parts: seq<string>, x: string)
    ensures Concat(parts + [x]) == Concat(parts) + x
    decreases |parts|
  {
    if parts == [] {
      assert Concat([x]) == x + Concat([]);
    } else {
      ConcatSnoc(parts[1..], x);
      assert (parts + [x])[1..] == parts[1..] + [x];
    }
  }

  /** The last separator of a join: the join of all but the last part, the
      separator, then the last part. */
  lemma {:induction false} JoinLast(parts: seq<string>, sep: string)
    requires |parts| >= 2
    ensures Join(parts, sep) == Join(parts[..|parts| - 1], sep) + sep + parts[|parts| - 1]
    decreases |parts|
  {
    var n := |parts|;
    if n > 2 {
      JoinLast(parts[1..], sep);
      assert parts[1..][..n - 2] == parts[..n - 1][1..];
      assert Join(parts[..n - 1], sep) == parts[0] + sep + Join(parts[..n - 1][1..], sep);
    } else {
      assert parts[1..] == [parts[1]] && parts[..1] == [parts[0]];
    }
  }

  /** The last part of a split ends the string; when there are several,
      the string is the other parts joined, the separator, then the last. */
  lemma SplitLast(s: string, sep: string)
    requires sep != []
    ensures var parts := Split(s, sep);
      EndsWith(s, parts[|parts| - 1]) &&
      (|parts| >= 2 ==> s == Join(parts[..|parts| - 1], sep) + sep + parts[|parts| - 1])
  {
    SplitJoin(s, sep);
    JoinEndsWithLast(Split(s, sep), sep);
  }

  /** A join ends with its last part, after the join of the others and the
      separator. */
  lemma JoinEndsWithLast(parts: seq<string>, sep: string)
    requires |parts| >= 1
    ensures EndsWith(Join(parts, sep), parts[|parts| - 1])
    ensures |parts| >= 2 ==> Join(parts, sep) == Join(parts[..|parts| - 1], sep) + sep + parts[|parts| - 1]
  {
    var last := parts[|parts| - 1];
    if |parts| >= 2 {
      JoinLast(parts, sep);
      var front := Join(parts[..|parts| - 1], sep) + sep;
      assert Join(parts, sep)[|front|..] == last;
    } else {
      assert Join(parts, sep)[0..] == last;
    }
  }

  /** When there are several parts, the string is the first part, the
      separator, then the other parts joined. */
  lemma SplitHead(s: string, sep: string)
    requires sep != [] && |Split(s, sep)| >= 2
    ensures s == Split(s, sep)[0] + sep + Join(Split(s, sep)[1..], sep)
  {
    SplitJoin(s, sep);
  }

  /** The basename of a path ending in a name without '/' right after a '/'
      (or with nothing before it) is that name. */
  lemma {:induction false} BasenameAfter(x: string, b: string)
    requires forall i :: 0 <= i < |b| ==> b[i] != '/'
    requires x == [] || x[|x| - 1] == '/'
    ensures Basename(x + b) == b
    decreases |b|
  {
    if b == [] {
      assert x + b == x;
    } else {
      var init, c := b[..|b| - 1], b[|b| - 1];
      BasenameAfter(x, init);
      var p := x + b;
      assert p[..|p| - 1] == x + init;
      assert init + [c] == b;
    }
  }

  /** A string holding the separator splits into two parts or more. */
  lemma SplitSeveral(s: string, sep: string)
    requires sep != []
    ensures |Split(s, sep)| >= 2 <==> Contains(s, sep)
  {
    var parts := Split(s, sep);
    if !Contains(s, sep) {
      SplitAbsent(s, sep);
    } else if |parts| == 1 {
      SplitJoin(s, sep);
      SplitPartsFree(s, sep, 0);
    }
  }
}
