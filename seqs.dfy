/** Sequence helpers shared by all three programs: joining with a separator,
    flattening, fixed-width slicing, substring search and replacement. */
module Seqs {

  /** `parts.join(sep)` in JavaScript, `sep.join(parts)` in Python. */
  function Join(parts: seq<string>, sep: string): string
    decreases |parts|
  {
    if |parts| == 0 then ""
    else if |parts| == 1 then parts[0]
    else Join(parts[..|parts| - 1], sep) + sep + parts[|parts| - 1]
  }

  lemma SplitAt<T>(s: seq<T>, k: nat)
    requires k <= |s|
    ensures s == s[..k] + s[k..]
  {
  }

  lemma AppendAssoc<T>(a: seq<T>, b: seq<T>, c: seq<T>)
    ensures a + b + c == a + (b + c)
  {
  }

  /** Concatenation of a sequence of sequences, in order. */
  function Flatten<T>(ss: seq<seq<T>>): seq<T>
    decreases |ss|
  {
    if |ss| == 0 then [] else Flatten(ss[..|ss| - 1]) + ss[|ss| - 1]
  }

  lemma {:induction false} FlattenAppend<T>(a: seq<seq<T>>, b: seq<seq<T>>)
    ensures Flatten(a + b) == Flatten(a) + Flatten(b)
    decreases |b|
  {
    if |b| == 0 {
      assert a + b == a;
    } else {
      calc {
        Flatten(a + b);
        { assert (a + b)[..|a + b| - 1] == a + b[..|b| - 1]; }
        Flatten(a + b[..|b| - 1]) + b[|b| - 1];
        { FlattenAppend(a, b[..|b| - 1]); }
        Flatten(a) + Flatten(b[..|b| - 1]) + b[|b| - 1];
      }
    }
  }

  lemma FlattenOne<T>(x: seq<T>)
    ensures Flatten([x]) == x
  {
    assert [x][..0] == [];
  }

  lemma FlattenSnoc<T>(xs: seq<seq<T>>, x: seq<T>)
    ensures Flatten(xs + [x]) == Flatten(xs) + x
  {
    assert (xs + [x])[..|xs|] == xs;
  }

  lemma FlattenCons<T>(x: seq<T>, rest: seq<seq<T>>)
    ensures Flatten([x] + rest) == x + Flatten(rest)
  {
    FlattenAppend([x], rest);
    assert Flatten([x]) == Flatten([x][..0]) + x;
    assert [x][..0] == [];
  }

  /** Joining a non-empty list with a separator is the same as flattening
      it with the separator put back between neighbours. */
  lemma JoinAppend(parts: seq<string>, p: string, sep: string)
    ensures Join(parts + [p], sep) == if parts == [] then p else Join(parts, sep) + sep + p
  {
    assert (parts + [p])[..|parts + [p]| - 1] == parts;
  }

  /** Joining from the front: the first part, a separator, the rest. */
  lemma {:induction false} JoinCons(x: string, rest: seq<string>, sep: string)
    ensures Join([x] + rest, sep) == if rest == [] then x else x + sep + Join(rest, sep)
    decreases |rest|
  {
    if |rest| > 1 {
      var n := |rest|;
      assert ([x] + rest)[..n] == [x] + rest[..n - 1];
      JoinCons(x, rest[..n - 1], sep);
    } else if |rest| == 1 {
      assert ([x] + rest)[..1] == [x];
    }
  }

  lemma JoinEmpty(parts: seq<string>, sep: string)
    requires forall q | q in parts :: q != ""
    ensures Join(parts, sep) == "" <==> parts == []
    decreases |parts|
  {
    if |parts| > 0 {
      assert parts[|parts| - 1] in parts;
    }
  }

  /** Length of a join: the parts plus one separator between each pair. */
  lemma JoinLength(parts: seq<string>, sep: string)
    requires parts != []
    ensures |Join(parts, sep)| >= |parts[0]|
    decreases |parts|
  {
    if |parts| > 1 {
      JoinLength(parts[..|parts| - 1], sep);
    }
  }

  function Min(a: int, b: int): int { if a <= b then a else b }

  /** Consecutive pieces of `s` of `width` elements, the last one possibly
      shorter: `substring(0, width)` repeated in JavaScript, the windows
      `s[i : i + width]` for i = 0, width, 2*width, ... in Python. */
  function Slices<T>(s: seq<T>, width: nat): seq<seq<T>>
    requires width > 0
    decreases |s|
  {
    if |s| == 0 then [] else [s[..Min(width, |s|)]] + Slices(s[Min(width, |s|)..], width)
  }

  /** The slices put back together give the original. */
  lemma {:induction false} SlicesReassemble<T>(s: seq<T>, width: nat)
    requires width > 0
    ensures Flatten(Slices(s, width)) == s
    decreases |s|
  {
    if |s| > 0 {
      var k := Min(width, |s|);
      FlattenCons(s[..k], Slices(s[k..], width));
      SlicesReassemble(s[k..], width);
      assert s[..k] + s[k..] == s;
    }
  }

  /** Every slice but the last has exactly `width` elements and the last one
      between 1 and `width`. */
  lemma {:induction false} SlicesWidths<T>(s: seq<T>, width: nat)
    requires width > 0
    ensures forall i | 0 <= i < |Slices(s, width)| - 1 :: |Slices(s, width)[i]| == width
    ensures forall i | 0 <= i < |Slices(s, width)| :: 0 < |Slices(s, width)[i]| <= width
    decreases |s|
  {
    if |s| > 0 {
      var k := Min(width, |s|);
      SlicesWidths(s[k..], width);
      var r := Slices(s, width);
      assert r == [s[..k]] + Slices(s[k..], width);
      assert forall i | 1 <= i < |r| :: r[i] == Slices(s[k..], width)[i - 1];
    }
  }

  /** There are ceil(|s| / width) slices: the count c is the one with
      (c - 1) * width < |s| <= c * width. */
  lemma {:induction false} SlicesCount<T>(s: seq<T>, width: nat)
    requires width > 0
    ensures |s| == 0 <==> |Slices(s, width)| == 0
    ensures |s| > 0 ==> (|Slices(s, width)| - 1) * width < |s| <= |Slices(s, width)| * width
    decreases |s|
  {
    if |s| > width {
      var c' := |Slices(s[width..], width)|;
      SlicesCount(s[width..], width);
      assert |Slices(s, width)| == c' + 1;
      assert (c' + 1) * width == c' * width + width;
    }
  }

  /** `t` is a prefix of `s`. */
  predicate IsPrefix<T(==)>(t: seq<T>, s: seq<T>)
  {
    |t| <= |s| && s[..|t|] == t
  }

  /** `s.includes(t)`: `t` occurs in `s` at some position. */
  predicate Contains<T(==)>(s: seq<T>, t: seq<T>)
    decreases |s|
  {
    IsPrefix(t, s) || (|s| > 0 && Contains(s[1..], t))
  }

  lemma ContainsPrefix<T>(s: seq<T>, b: seq<T>)
    ensures Contains(s + b, s)
  {
    assert (s + b)[..|s|] == s;
  }

  /** What occurs in `b` occurs in `a + b`. */
  lemma {:induction false} ContainsRight<T>(a: seq<T>, b: seq<T>, t: seq<T>)
    requires Contains(b, t)
    ensures Contains(a + b, t)
    decreases |a|
  {
    if |a| > 0 {
      ContainsRight(a[1..], b, t);
      assert (a + b)[1..] == a[1..] + b;
    } else {
      assert a + b == b;
    }
  }

  /** Any `a + t + b` contains `t`. */
  lemma ContainsMiddle<T>(a: seq<T>, t: seq<T>, b: seq<T>)
    ensures Contains(a + t + b, t)
  {
    ContainsPrefix(t, b);
    ContainsRight(a, t + b, t);
    assert a + t + b == a + (t + b);
  }

  /** What occurs in `a` occurs in `a + b`. */
  lemma {:induction false} ContainsLeft<T>(a: seq<T>, b: seq<T>, t: seq<T>)
    requires Contains(a, t)
    ensures Contains(a + b, t)
    decreases |a|
  {
    if IsPrefix(t, a) {
      assert (a + b)[..|t|] == a[..|t|];
    } else {
      ContainsLeft(a[1..], b, t);
      assert (a + b)[1..] == a[1..] + b;
    }
  }

  /** Occurrence is transitive. */
  lemma {:induction false} ContainsTrans<T>(s: seq<T>, t: seq<T>, u: seq<T>)
    requires Contains(s, t) && Contains(t, u)
    ensures Contains(s, u)
    decreases |s|
  {
    if IsPrefix(t, s) {
      ContainsLeft(t, s[|t|..], u);
      assert t + s[|t|..] == s;
    } else {
      ContainsTrans(s[1..], t, u);
    }
  }

  /** Only something no longer than `s` occurs in `s`. */
  lemma {:induction false} ContainsLength<T>(s: seq<T>, t: seq<T>)
    requires Contains(s, t)
    ensures |t| <= |s|
    decreases |s|
  {
    if !IsPrefix(t, s) {
      ContainsLength(s[1..], t);
    }
  }

  /** An occurrence at a position is an occurrence. */
  lemma {:induction false} ContainsAt<T>(s: seq<T>, k: nat, t: seq<T>)
    requires k <= |s| && IsPrefix(t, s[k..])
    ensures Contains(s, t)
    decreases k
  {
    if k > 0 {
      assert s[1..][k - 1..] == s[k..];
      ContainsAt(s[1..], k - 1, t);
    }
  }

  /** Every part occurs in the joined text. */
  lemma {:induction false} JoinContains(parts: seq<string>, sep: string, i: nat)
    requires i < |parts|
    ensures Contains(Join(parts, sep), parts[i])
    decreases |parts|
  {
    var n := |parts|;
    if n == 1 {
      ContainsPrefix(parts[0], []);
      assert parts[0] + [] == parts[0];
    } else if i == n - 1 {
      ContainsMiddle(Join(parts[..n - 1], sep) + sep, parts[i], []);
      assert Join(parts[..n - 1], sep) + sep + parts[i] + [] == Join(parts, sep);
    } else {
      JoinContains(parts[..n - 1], sep, i);
      ContainsLeft(Join(parts[..n - 1], sep), sep + parts[n - 1], parts[i]);
      assert Join(parts[..n - 1], sep) + (sep + parts[n - 1]) == Join(parts, sep);
    }
  }

  /** `s.replace(/pat/g, v)` for a literal, non-empty `pat` and a `v` without
      `$` patterns: leftmost, non-overlapping occurrences, scanned left to right. */
  function ReplaceAll<T(==)>(s: seq<T>, pat: seq<T>, v: seq<T>): seq<T>
    requires pat != []
    decreases |s|
  {
    if |s| == 0 then []
    else if IsPrefix(pat, s) then v + ReplaceAll(s[|pat|..], pat, v)
    else [s[0]] + ReplaceAll(s[1..], pat, v)
  }

  /** Text that does not contain the pattern is left as it is. */
  lemma {:induction false} ReplaceAllAbsent<T>(s: seq<T>, pat: seq<T>, v: seq<T>)
    requires pat != [] && !Contains(s, pat)
    ensures ReplaceAll(s, pat, v) == s
    decreases |s|
  {
    if |s| > 0 {
      ReplaceAllAbsent(s[1..], pat, v);
    }
  }

  /** Replacing in `a + b` where `a` holds no occurrence and `b` starts with
      one: `a` is kept and the occurrence becomes `v`. */
  lemma {:induction false} ReplaceAllSplit<T>(a: seq<T>, pat: seq<T>, b: seq<T>, v: seq<T>)
    requires pat != []
    requires forall k | 0 <= k < |a| :: !IsPrefix(pat, a[k..] + pat + b)
    ensures ReplaceAll(a + pat + b, pat, v) == a + v + ReplaceAll(b, pat, v)
    decreases |a|
  {
    if |a| == 0 {
      assert a + pat + b == pat + b;
      assert (pat + b)[..|pat|] == pat;
      assert (pat + b)[|pat|..] == b;
    } else {
      assert (a + pat + b)[1..] == a[1..] + pat + b;
      assert a[0..] + pat + b == a + pat + b;
      forall k | 0 <= k < |a[1..]| ensures !IsPrefix(pat, a[1..][k..] + pat + b) {
        assert a[1..][k..] == a[k + 1..];
      }
      ReplaceAllSplit(a[1..], pat, b, v);
    }
  }

  /** `s.lastIndexOf(t)` for non-empty `t`: the greatest position where `t`
      occurs, or -1. */
  function LastIndexOf<T(==)>(s: seq<T>, t: seq<T>): (r: int)
    requires t != []
    ensures r >= -1
    ensures r >= 0 ==> r + |t| <= |s| && IsPrefix(t, s[r..])
    ensures forall k | r < k && k + |t| <= |s| :: !IsPrefix(t, s[k..])
    decreases |s|
  {
    if |s| < |t| then -1
    else if IsPrefix(t, s[|s| - |t|..]) then |s| - |t|
    else
      var r := LastIndexOf(s[..|s| - 1], t);
      assert forall k | r < k && k + |t| <= |s| - 1 :: s[k..][..|t|] == s[..|s| - 1][k..][..|t|];
      assert r >= 0 ==> s[r..][..|t|] == s[..|s| - 1][r..][..|t|];
      r
  }
}
