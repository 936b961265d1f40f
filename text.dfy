/** White space, trimming and splitting, for the two languages involved:
    JavaScript (`\s`, `trim()`) and Python (`str.isspace()`, `strip()`).
    Trimming is written once, over a white-space predicate. */
module Text {
  import opened Seqs

  /** JavaScript white space: what `\s` matches and `trim()` removes
      (WhiteSpace and LineTerminator code points of ECMA-262). */
  predicate JsSpace(c: char)
  {
    c == '\t' || c == '\n' || c == '\U{000B}' || c == '\U{000C}' || c == '\r' || c == ' '
    || c == '\U{00A0}' || c == '\U{1680}' || ('\U{2000}' <= c <= '\U{200A}')
    || c == '\U{2028}' || c == '\U{2029}' || c == '\U{202F}' || c == '\U{205F}'
    || c == '\U{3000}' || c == '\U{FEFF}'
  }

  /** Python white space: the characters for which `str.isspace()` holds,
      which `str.strip()` removes. */
  predicate PySpace(c: char)
  {
    c == '\t' || c == '\n' || c == '\U{000B}' || c == '\U{000C}' || c == '\r'
    || ('\U{001C}' <= c <= '\U{001F}') || c == ' ' || c == '\U{0085}' || c == '\U{00A0}'
    || c == '\U{1680}' || ('\U{2000}' <= c <= '\U{200A}') || c == '\U{2028}' || c == '\U{2029}'
    || c == '\U{202F}' || c == '\U{205F}' || c == '\U{3000}'
  }

  /** Every character of `s` is white space (`s.trim() === ''`). */
  predicate Blank(s: string, sp: char -> bool)
  {
    forall i | 0 <= i < |s| :: sp(s[i])
  }

  function TrimStart(s: string, sp: char -> bool): (r: string)
    ensures |r| <= |s| && r == s[|s| - |r|..]
    ensures Blank(s[..|s| - |r|], sp)
    ensures r == [] || !sp(r[0])
    ensures |s| > 0 && sp(s[0]) ==> |r| < |s|
    ensures |s| > 0 && !sp(s[|s| - 1]) ==> |r| > 0 && r[|r| - 1] == s[|s| - 1]
    decreases |s|
  {
    if |s| > 0 && sp(s[0]) then
      var r := TrimStart(s[1..], sp);
      TrimStartStep(s, r, sp);
      r
    else s
  }

  /** One white-space character in front of what the rest trims to. */
  lemma TrimStartStep(s: string, r: string, sp: char -> bool)
    requires |s| > 0 && sp(s[0])
    requires |r| <= |s| - 1 && r == s[1..][|s| - 1 - |r|..]
    requires Blank(s[1..][..|s| - 1 - |r|], sp)
    requires |s| > 1 && !sp(s[|s| - 1]) ==> |r| > 0 && r[|r| - 1] == s[|s| - 1]
    ensures r == s[|s| - |r|..]
    ensures Blank(s[..|s| - |r|], sp)
    ensures !sp(s[|s| - 1]) ==> |r| > 0 && r[|r| - 1] == s[|s| - 1]
  {
    var k := |s| - |r|;
    forall i | 0 <= i < k ensures sp(s[..k][i]) {
      if i > 0 { assert s[..k][i] == s[1..][..k - 1][i - 1]; }
    }
  }

  function TrimEnd(s: string, sp: char -> bool): (r: string)
    ensures |r| <= |s| && r == s[..|r|]
    ensures Blank(s[|r|..], sp)
    ensures r == [] || !sp(r[|r| - 1])
    decreases |s|
  {
    if |s| > 0 && sp(s[|s| - 1]) then
      var r := TrimEnd(s[..|s| - 1], sp);
      TrimEndStep(s, r, sp);
      r
    else s
  }

  /** What the text without its last, white-space character trims to. */
  lemma TrimEndStep(s: string, r: string, sp: char -> bool)
    requires |s| > 0 && sp(s[|s| - 1])
    requires |r| <= |s| - 1 && r == s[..|s| - 1][..|r|]
    requires Blank(s[..|s| - 1][|r|..], sp)
    ensures r == s[..|r|]
    ensures Blank(s[|r|..], sp)
  {
    var t := s[|r|..];
    forall j | 0 <= j < |t| ensures sp(t[j]) {
      if j < |t| - 1 { assert t[j] == s[..|s| - 1][|r|..][j]; }
    }
  }

  /** `trim()` / `strip()`: white space removed at both ends. */
  function Trim(s: string, sp: char -> bool): (r: string)
    ensures |r| <= |s|
    ensures r == [] || (!sp(r[0]) && !sp(r[|r| - 1]))
  {
    TrimEnd(TrimStart(s, sp), sp)
  }

  /** What is left of `s` once every white-space character is removed
      (`s.replace(/\s+/g, '')`). */
  function Dense(s: string, sp: char -> bool): (r: string)
    ensures |r| <= |s|
    decreases |s|
  {
    if |s| == 0 then "" else (if sp(s[0]) then "" else [s[0]]) + Dense(s[1..], sp)
  }

  lemma {:induction false} DenseAppend(a: string, b: string, sp: char -> bool)
    ensures Dense(a + b, sp) == Dense(a, sp) + Dense(b, sp)
    decreases |a|
  {
    if |a| == 0 {
      assert a + b == b;
    } else {
      assert (a + b)[1..] == a[1..] + b;
      DenseAppend(a[1..], b, sp);
    }
  }

  lemma {:induction false} DenseBlank(s: string, sp: char -> bool)
    ensures Blank(s, sp) <==> Dense(s, sp) == ""
    decreases |s|
  {
    if |s| > 0 {
      DenseBlank(s[1..], sp);
      if Blank(s[1..], sp) && sp(s[0]) {
        assert forall i | 0 <= i < |s| :: i == 0 || s[i] == s[1..][i - 1];
      }
    }
  }

  /** Trimming removes only white space. */
  lemma DenseTrim(s: string, sp: char -> bool)
    ensures Dense(Trim(s, sp), sp) == Dense(s, sp)
  {
    DenseTrimStart(s, sp);
    DenseTrimEnd(TrimStart(s, sp), sp);
  }

  lemma DenseTrimStart(s: string, sp: char -> bool)
    ensures Dense(TrimStart(s, sp), sp) == Dense(s, sp)
  {
    DenseDropBlank(s, |s| - |TrimStart(s, sp)|, sp);
  }

  lemma DenseTrimEnd(s: string, sp: char -> bool)
    ensures Dense(TrimEnd(s, sp), sp) == Dense(s, sp)
  {
    DenseTakeBlank(s, |TrimEnd(s, sp)|, sp);
  }

  /** Removing white space in front leaves `Dense` as it is. */
  lemma DenseDropBlank(s: string, k: nat, sp: char -> bool)
    requires k <= |s| && Blank(s[..k], sp)
    ensures Dense(s[k..], sp) == Dense(s, sp)
  {
    var a, b := s[..k], s[k..];
    calc {
      Dense(s, sp);
      { SplitAt(s, k); }
      Dense(a + b, sp);
      { DenseAppend(a, b, sp); }
      Dense(a, sp) + Dense(b, sp);
      { DenseBlank(a, sp); }
      Dense(b, sp);
    }
  }

  /** Removing white space at the end leaves `Dense` as it is. */
  lemma DenseTakeBlank(s: string, k: nat, sp: char -> bool)
    requires k <= |s| && Blank(s[k..], sp)
    ensures Dense(s[..k], sp) == Dense(s, sp)
  {
    SplitAt(s, k);
    DenseAppend(s[..k], s[k..], sp);
    DenseBlank(s[k..], sp);
  }

  /** A trimmed string is empty exactly when the original is all white space. */
  lemma TrimEmpty(s: string, sp: char -> bool)
    ensures Trim(s, sp) == "" <==> Blank(s, sp)
  {
    DenseTrim(s, sp);
    DenseBlank(s, sp);
    DenseBlank(Trim(s, sp), sp);
    if Trim(s, sp) != "" {
      assert !sp(Trim(s, sp)[0]);
    }
  }

  /** Text with no white space at either end is its own trim. */
  lemma TrimNoOp(s: string, sp: char -> bool)
    requires s == [] || (!sp(s[0]) && !sp(s[|s| - 1]))
    ensures Trim(s, sp) == s
  {
  }

  /** The white-space-free content of a join with a white-space separator
      is that of the parts. */
  lemma {:induction false} DenseJoin(parts: seq<string>, sep: string, sp: char -> bool)
    requires Blank(sep, sp)
    ensures Dense(Join(parts, sep), sp) == Dense(Flatten(parts), sp)
    decreases |parts|
  {
    DenseBlank(sep, sp);
    if |parts| == 1 {
      assert parts[..0] == [];
      assert Flatten(parts) == Flatten(parts[..0]) + parts[0];
      assert Flatten(parts) == parts[0];
      assert Join(parts, sep) == parts[0];
    } else if |parts| > 1 {
      var n := |parts|;
      DenseJoin(parts[..n - 1], sep, sp);
      DenseAppend(Join(parts[..n - 1], sep) + sep, parts[n - 1], sp);
      DenseAppend(Join(parts[..n - 1], sep), sep, sp);
      DenseAppend(Flatten(parts[..n - 1]), parts[n - 1], sp);
    }
  }

  /** Two lists whose elements pairwise agree on their white-space-free
      content flatten to the same white-space-free content. */
  lemma {:induction false} DenseFlattenPointwise(a: seq<string>, b: seq<string>, sp: char -> bool)
    requires |a| == |b|
    requires forall i | 0 <= i < |a| :: Dense(a[i], sp) == Dense(b[i], sp)
    ensures Dense(Flatten(a), sp) == Dense(Flatten(b), sp)
    decreases |a|
  {
    if |a| > 0 {
      var n := |a|;
      DenseFlattenPointwise(a[..n - 1], b[..n - 1], sp);
      DenseAppend(Flatten(a[..n - 1]), a[n - 1], sp);
      DenseAppend(Flatten(b[..n - 1]), b[n - 1], sp);
    }
  }

  lemma DenseFlattenAppend(a: seq<string>, b: seq<string>, sp: char -> bool)
    ensures Dense(Flatten(a + b), sp) == Dense(Flatten(a), sp) + Dense(Flatten(b), sp)
  {
    FlattenAppend(a, b);
    DenseAppend(Flatten(a), Flatten(b), sp);
  }

  /** `s.split(c)` for a one-character separator: the pieces between the
      occurrences of `c`; there is always at least one. */
  function SplitOn(s: string, c: char): (r: seq<string>)
    ensures |r| >= 1
    decreases |s|
  {
    if |s| == 0 then [""]
    else if s[0] == c then [""] + SplitOn(s[1..], c)
    else var t := SplitOn(s[1..], c); [[s[0]] + t[0]] + t[1..]
  }

  /** Joining the pieces with the separator gives back the original. */
  lemma {:induction false} SplitOnJoin(s: string, c: char)
    ensures Join(SplitOn(s, c), [c]) == s
    decreases |s|
  {
    if |s| > 0 {
      var t := SplitOn(s[1..], c);
      SplitOnJoin(s[1..], c);
      if s[0] == c {
        JoinCons("", t, [c]);
        assert s == [c] + s[1..];
      } else {
        JoinExtendFirst([s[0]], t, [c]);
        assert s == [s[0]] + s[1..];
      }
    }
  }

  /** Extending the first part of a join extends the join at the front. */
  lemma JoinExtendFirst(x: string, t: seq<string>, sep: string)
    requires |t| >= 1
    ensures Join([x + t[0]] + t[1..], sep) == x + Join(t, sep)
  {
    var h, rest := t[0], t[1..];
    if rest == [] {
      assert [x + h] + rest == [x + h];
      assert t == [h];
    } else {
      var j := Join(rest, sep);
      calc {
        Join([x + h] + rest, sep);
        { JoinCons(x + h, rest, sep); }
        (x + h) + sep + j;
        { AppendAssoc(x, h, sep); AppendAssoc(x, h + sep, j); }
        x + (h + sep + j);
        { JoinCons(h, rest, sep); }
        x + Join([h] + rest, sep);
        { assert [h] + rest == t; }
        x + Join(t, sep);
      }
    }
  }

  /** No piece contains the separator. */
  lemma {:induction false} SplitOnPiecesFree(s: string, c: char)
    ensures forall i, k | 0 <= i < |SplitOn(s, c)| && 0 <= k < |SplitOn(s, c)[i]| :: SplitOn(s, c)[i][k] != c
    decreases |s|
  {
    if |s| > 0 {
      var t := SplitOn(s[1..], c);
      SplitOnPiecesFree(s[1..], c);
      var r := SplitOn(s, c);
      if s[0] == c {
        assert forall i | 1 <= i < |r| :: r[i] == t[i - 1];
      } else {
        assert forall i | 1 <= i < |r| :: r[i] == t[i];
        assert forall k | 1 <= k < |r[0]| :: r[0][k] == t[0][k - 1];
      }
    }
  }

  /** Text free of the separator is one piece, and a separator after it
      closes that piece. */
  lemma {:induction false} SplitOnFree(a: string, x: string, c: char)
    requires forall k | 0 <= k < |a| :: a[k] != c
    ensures SplitOn(a, c) == [a]
    ensures SplitOn(a + [c] + x, c) == [a] + SplitOn(x, c)
    decreases |a|
  {
    if |a| == 0 {
      assert a + [c] + x == [c] + x;
      assert ([c] + x)[1..] == x;
    } else {
      assert (a + [c] + x)[1..] == a[1..] + [c] + x;
      SplitOnFree(a[1..], x, c);
      assert [a[0]] + a[1..] == a;
    }
  }

  /** Splitting `a + x`: the complete pieces of `a`, then the split of its
      unfinished last piece continued by `x`. A stream split on newlines
      read by read therefore yields the same lines as the whole text. */
  lemma {:induction false} SplitOnAppend(a: string, x: string, c: char)
    ensures SplitOn(a + x, c)
         == SplitOn(a, c)[..|SplitOn(a, c)| - 1] + SplitOn(SplitOn(a, c)[|SplitOn(a, c)| - 1] + x, c)
    decreases |a|
  {
    if |a| == 0 {
      assert a + x == x;
    } else {
      SplitOnAppend(a[1..], x, c);
      SplitOnAppendStep(a, x, c);
    }
  }

  /** The inductive step of `SplitOnAppend`: from the pieces of `a[1..] + x`
      to those of `a + x`, by what `a[0]` is and how many pieces follow it. */
  lemma SplitOnAppendStep(a: string, x: string, c: char)
    requires |a| > 0
    requires var t := SplitOn(a[1..], c);
      SplitOn(a[1..] + x, c) == t[..|t| - 1] + SplitOn(t[|t| - 1] + x, c)
    ensures SplitOn(a + x, c)
         == SplitOn(a, c)[..|SplitOn(a, c)| - 1] + SplitOn(SplitOn(a, c)[|SplitOn(a, c)| - 1] + x, c)
  {
    if a[0] == c {
      SplitOnAppendSeparator(a, x, c);
    } else if |SplitOn(a[1..], c)| > 1 {
      SplitOnAppendMore(a, x, c);
    } else {
      SplitOnAppendLast(a, x, c);
    }
  }

  lemma SplitOnAppendSeparator(a: string, x: string, c: char)
    requires |a| > 0 && a[0] == c
    requires var t := SplitOn(a[1..], c);
      SplitOn(a[1..] + x, c) == t[..|t| - 1] + SplitOn(t[|t| - 1] + x, c)
    ensures SplitOn(a + x, c)
         == SplitOn(a, c)[..|SplitOn(a, c)| - 1] + SplitOn(SplitOn(a, c)[|SplitOn(a, c)| - 1] + x, c)
  {
    var t := SplitOn(a[1..], c);
    var init, last := t[..|t| - 1], t[|t| - 1];
    var tail := SplitOn(last + x, c);
    assert (a + x)[0] == a[0] && (a + x)[1..] == a[1..] + x;
    var p := [""] + t;
    assert p[..|p| - 1] == [""] + init && p[|p| - 1] == last;
    AppendAssoc([""], init, tail);
  }

  lemma SplitOnAppendMore(a: string, x: string, c: char)
    requires |a| > 0 && a[0] != c && |SplitOn(a[1..], c)| > 1
    requires var t := SplitOn(a[1..], c);
      SplitOn(a[1..] + x, c) == t[..|t| - 1] + SplitOn(t[|t| - 1] + x, c)
    ensures SplitOn(a + x, c)
         == SplitOn(a, c)[..|SplitOn(a, c)| - 1] + SplitOn(SplitOn(a, c)[|SplitOn(a, c)| - 1] + x, c)
  {
    var t := SplitOn(a[1..], c);
    var last := t[|t| - 1];
    var tail := SplitOn(last + x, c);
    var u := SplitOn(a[1..] + x, c);
    var mid := t[1..|t| - 1];
    assert (a + x)[0] == a[0] && (a + x)[1..] == a[1..] + x;
    assert u[0] == t[0] && u[1..] == mid + tail;
    var p := [[a[0]] + t[0]] + t[1..];
    assert p[..|p| - 1] == [[a[0]] + t[0]] + mid && p[|p| - 1] == last;
    AppendAssoc([[a[0]] + t[0]], mid, tail);
  }

  lemma SplitOnAppendLast(a: string, x: string, c: char)
    requires |a| > 0 && a[0] != c && |SplitOn(a[1..], c)| == 1
    requires var t := SplitOn(a[1..], c);
      SplitOn(a[1..] + x, c) == t[..|t| - 1] + SplitOn(t[|t| - 1] + x, c)
    ensures SplitOn(a + x, c)
         == SplitOn(a, c)[..|SplitOn(a, c)| - 1] + SplitOn(SplitOn(a, c)[|SplitOn(a, c)| - 1] + x, c)
  {
    var t := SplitOn(a[1..], c);
    var w := [a[0]] + t[0];
    assert SplitOn(a, c) == [w];
    assert (a + x)[0] == a[0] && (a + x)[1..] == a[1..] + x;
    assert (w + x)[0] == a[0] && (w + x)[1..] == t[0] + x;
    assert t[..0] + SplitOn(t[0] + x, c) == SplitOn(t[0] + x, c);
    assert SplitOn(w, c)[..0] == [];
  }

  /** A join of lines of which one is not blank is not blank. */
  lemma JoinNotBlank(buffer: seq<string>, sep: string, sp: char -> bool)
    requires buffer != [] && Blank(sep, sp)
    requires forall q | q in buffer :: !Blank(q, sp)
    ensures !Blank(Join(buffer, sep), sp)
  {
    var n := |buffer|;
    DenseJoin(buffer, sep, sp);
    assert Flatten(buffer) == Flatten(buffer[..n - 1]) + buffer[n - 1];
    DenseAppend(Flatten(buffer[..n - 1]), buffer[n - 1], sp);
    assert buffer[n - 1] in buffer;
    DenseBlank(buffer[n - 1], sp);
    DenseBlank(Join(buffer, sep), sp);
  }


  lemma DenseFlattenCons(x: string, rest: seq<string>, sp: char -> bool)
    ensures Dense(Flatten([x] + rest), sp) == Dense(x, sp) + Dense(Flatten(rest), sp)
  {
    FlattenCons(x, rest);
    DenseAppend(x, Flatten(rest), sp);
  }

  lemma DenseFlattenSnoc(xs: seq<string>, x: string, sp: char -> bool)
    ensures Dense(Flatten(xs + [x]), sp) == Dense(Flatten(xs), sp) + Dense(x, sp)
  {
    assert (xs + [x])[..|xs|] == xs;
    DenseAppend(Flatten(xs), x, sp);
  }

  /** A leading white-space character leaves nothing in `Dense`. */
  lemma DenseSpaceCons(c: char, s: string, sp: char -> bool)
    requires sp(c)
    ensures Dense([c] + s, sp) == Dense(s, sp)
  {
    DenseAppend([c], s, sp);
    assert Dense([c], sp) == "" by { DenseBlank([c], sp); }
  }

  /** `trimStart()` stops at the first character that is not white space. */
  lemma {:induction false} TrimStartUnique(s: string, k: nat, sp: char -> bool)
    requires k <= |s| && Blank(s[..k], sp) && (k == |s| || !sp(s[k]))
    ensures TrimStart(s, sp) == s[k..]
    decreases k
  {
    if k > 0 {
      assert s[..k][0] == s[0];
      assert s[1..][..k - 1] == s[..k][1..];
      TrimStartUnique(s[1..], k - 1, sp);
      assert s[1..][k - 1..] == s[k..];
    }
  }

  /** `trimEnd()` stops at the last character that is not white space. */
  lemma {:induction false} TrimEndUnique(s: string, k: nat, sp: char -> bool)
    requires k <= |s| && Blank(s[k..], sp) && (k == 0 || !sp(s[k - 1]))
    ensures TrimEnd(s, sp) == s[..k]
    decreases |s| - k
  {
    if k < |s| {
      assert s[k..][|s| - 1 - k] == s[|s| - 1];
      assert s[..|s| - 1][k..] == s[k..][..|s| - 1 - k];
      TrimEndUnique(s[..|s| - 1], k, sp);
      assert s[..|s| - 1][..k] == s[..k];
    }
  }

  /** White space in front of text that starts with a non-space is exactly
      what `trimStart()` removes. */
  lemma TrimStartLead(a: string, m: string, sp: char -> bool)
    requires Blank(a, sp) && (m == [] || !sp(m[0]))
    ensures TrimStart(a + m, sp) == m
  {
    var s := a + m;
    assert s[..|a|] == a;
    assert s[|a|..] == m;
    TrimStartUnique(s, |a|, sp);
  }

  /** White space after text that ends with a non-space is exactly what
      `trimEnd()` removes. */
  lemma TrimEndTrail(m: string, b: string, sp: char -> bool)
    requires Blank(b, sp) && (m == [] || !sp(m[|m| - 1]))
    ensures TrimEnd(m + b, sp) == m
  {
    var s := m + b;
    assert s[..|m|] == m;
    assert s[|m|..] == b;
    TrimEndUnique(s, |m|, sp);
  }

  /** Trimming text followed by white space gives back the text, when it has
      no white space at either end. */
  lemma TrimAppendBlank(m: string, b: string, sp: char -> bool)
    requires Blank(b, sp)
    requires m == [] || (!sp(m[0]) && !sp(m[|m| - 1]))
    ensures Trim(m + b, sp) == m
  {
    TrimSurround([], m, b, sp);
    assert [] + m + b == m + b;
  }

  /** Trimming text wrapped in white space gives back the text, when it has
      no white space at either end. */
  lemma TrimSurround(a: string, m: string, b: string, sp: char -> bool)
    requires Blank(a, sp) && Blank(b, sp)
    requires m == [] || (!sp(m[0]) && !sp(m[|m| - 1]))
    ensures Trim(a + m + b, sp) == m
  {
    if m == [] {
      assert a + m + b == a + b;
      BlankAppend(a, b, sp);
      TrimEmpty(a + b, sp);
    } else {
      TrimSurroundNonEmpty(a, m, b, sp);
    }
  }

  lemma TrimSurroundNonEmpty(a: string, m: string, b: string, sp: char -> bool)
    requires Blank(a, sp) && Blank(b, sp)
    requires m != [] && !sp(m[0]) && !sp(m[|m| - 1])
    ensures Trim(a + m + b, sp) == m
  {
    var mb := m + b;
    assert mb[0] == m[0];
    TrimStartLead(a, mb, sp);
    TrimEndTrail(m, b, sp);
    AppendAssoc(a, m, b);
  }

  lemma BlankAppend(a: string, b: string, sp: char -> bool)
    requires Blank(a, sp) && Blank(b, sp)
    ensures Blank(a + b, sp)
  {
    forall i | 0 <= i < |a + b| ensures sp((a + b)[i]) {
      if i < |a| { assert (a + b)[i] == a[i]; } else { assert (a + b)[i] == b[i - |a|]; }
    }
  }
}
