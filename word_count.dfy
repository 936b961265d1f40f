/** Word counting: the CJK-aware heuristic of the chunk viewer and the plain
    counter of the translation editor. Both count against `Words`, the number
    of maximal runs of non-white-space characters. */
module WordCount {
  import opened Text

  /** The CJK ranges the heuristic looks for: CJK Unified Ideographs
      (U+4E00-9FFF), CJK Symbols and Punctuation (U+3000-303F) and
      Halfwidth and Fullwidth Forms (U+FF00-FFEF). */
  predicate IsCjk(c: char)
  {
    ('\U{4E00}' <= c <= '\U{9FFF}') || ('\U{3000}' <= c <= '\U{303F}') || ('\U{FF00}' <= c <= '\U{FFEF}')
  }

  predicate HasCjk(s: string)
  {
    exists i | 0 <= i < |s| :: IsCjk(s[i])
  }

  /** `/\s/.test(s)` */
  predicate HasSpace(s: string)
  {
    exists i | 0 <= i < |s| :: JsSpace(s[i])
  }

  predicate NotSpace(c: char)
  {
    !JsSpace(c)
  }

  /** The number of words of `s`: maximal runs of non-white-space characters. */
  function Words(s: string): nat
    decreases |s|
  {
    if |s| == 0 then 0
    else if JsSpace(s[0]) then Words(s[1..])
    else 1 + Words(TrimStart(s, NotSpace))
  }

  /** `s.split(/\s+/)`: the pieces between maximal runs of white space. */
  function SplitSpaceRuns(s: string): (r: seq<string>)
    ensures |r| >= 1
    decreases |s|
  {
    if |s| == 0 then [""]
    else if JsSpace(s[0]) then
      [""] + SplitSpaceRuns(TrimStart(s, JsSpace))
    else
      var t := SplitSpaceRuns(s[1..]);
      [[s[0]] + t[0]] + t[1..]
  }

  lemma {:induction false} WordsSkipSpace(s: string)
    ensures Words(TrimStart(s, JsSpace)) == Words(s)
    decreases |s|
  {
    if |s| > 0 && JsSpace(s[0]) {
      WordsSkipSpace(s[1..]);
    }
  }

  lemma {:induction false} WordsBound(s: string)
    ensures Words(s) <= |s|
    decreases |s|
  {
    if |s| > 0 {
      if JsSpace(s[0]) {
        WordsBound(s[1..]);
      } else {
        WordsBound(TrimStart(s, NotSpace));
      }
    }
  }

  /** Splitting a string on white-space runs gives one piece per word, plus
      an empty first piece when the string is empty or starts with white
      space, plus an empty last piece when it is non-empty and ends with
      white space. */
  lemma {:induction false} SplitCountsWords(s: string)
    ensures |SplitSpaceRuns(s)|
         == Words(s) + (if s == [] || JsSpace(s[0]) then 1 else 0)
                     + (if s != [] && JsSpace(s[|s| - 1]) then 1 else 0)
    decreases |s|
  {
    if |s| > 0 && JsSpace(s[0]) {
      var rest := TrimStart(s, JsSpace);
      SplitCountsWords(rest);
      WordsSkipSpace(s);
      assert |SplitSpaceRuns(s)| == 1 + |SplitSpaceRuns(rest)|;
      if rest == [] {
        assert s[..|s|] == s;
        assert JsSpace(s[..|s|][|s| - 1]);
      } else {
        assert rest[|rest| - 1] == s[|s| - 1];
      }
    } else if |s| == 1 {
      assert SplitSpaceRuns(s[1..]) == [""];
      assert TrimStart(s, NotSpace) == TrimStart(s[1..], NotSpace);
    } else if |s| > 1 {
      var t := SplitSpaceRuns(s[1..]);
      SplitCountsWords(s[1..]);
      assert |SplitSpaceRuns(s)| == |t|;
      assert s[1..][|s| - 2] == s[|s| - 1];
      if JsSpace(s[1]) {
        assert TrimStart(s, NotSpace) == TrimStart(s[1..], NotSpace) == s[1..];
      } else {
        assert TrimStart(s, NotSpace) == TrimStart(s[1..], NotSpace);
      }
    }
  }

  /** Removing the first word of `r + b`, where `b` is empty or starts with
      white space, removes the first word of `r`. */
  lemma {:induction false} SkipWordAppend(r: string, b: string)
    requires b == [] || JsSpace(b[0])
    ensures TrimStart(r + b, NotSpace) == TrimStart(r, NotSpace) + b
    decreases |r|
  {
    if |r| == 0 {
      assert r + b == b;
    } else if NotSpace(r[0]) {
      assert (r + b)[1..] == r[1..] + b;
      SkipWordAppend(r[1..], b);
    }
  }

  lemma {:induction false} WordsAppendBlank(r: string, b: string)
    requires Blank(b, JsSpace)
    ensures Words(r + b) == Words(r)
    decreases |r| + |b|
  {
    if |r| == 0 {
      assert r + b == b;
      if |b| > 0 {
        WordsAppendBlank(r, b[1..]);
        assert b[1..] == r + b[1..];
      }
    } else {
      assert (r + b)[1..] == r[1..] + b;
      if JsSpace(r[0]) {
        WordsAppendBlank(r[1..], b);
      } else {
        SkipWordAppend(r, b);
        WordsAppendBlank(TrimStart(r, NotSpace), b);
      }
    }
  }

  /** Removing trailing white space never changes the number of words. */
  lemma WordsTrimEnd(a: string)
    ensures Words(TrimEnd(a, JsSpace)) == Words(a)
  {
    var r := TrimEnd(a, JsSpace);
    assert r + a[|r|..] == a;
    WordsAppendBlank(r, a[|r|..]);
  }

  /** Trimming never changes the number of words. */
  lemma WordsTrim(s: string)
    ensures Words(Trim(s, JsSpace)) == Words(s)
  {
    WordsSkipSpace(s);
    WordsTrimEnd(TrimStart(s, JsSpace));
  }

  lemma {:induction false} DenseOfSpaceFree(s: string)
    requires !HasSpace(s)
    ensures Dense(s, JsSpace) == s
    decreases |s|
  {
    if |s| > 0 {
      assert !JsSpace(s[0]);
      forall i | 0 <= i < |s[1..]| ensures !JsSpace(s[1..][i]) {
        assert s[1..][i] == s[i + 1];
      }
      DenseOfSpaceFree(s[1..]);
    }
  }

  /** `getWordCount`: 0 for empty text; with CJK characters and no white space
      inside the trimmed text, the number of non-white-space characters; with
      CJK characters and white space, the length; otherwise the number of
      pieces of the trimmed text split on white-space runs. */
  function GetWordCount(text: string): (r: nat)
    ensures text == "" ==> r == 0
    ensures r <= |text|
    ensures HasCjk(text) && !HasSpace(Trim(text, JsSpace)) ==> r == |Trim(text, JsSpace)|
    ensures HasCjk(text) && HasSpace(Trim(text, JsSpace)) ==> r == |text|
    ensures !HasCjk(text) && !Blank(text, JsSpace) ==> r == Words(text)
    ensures !HasCjk(text) && text != "" && Blank(text, JsSpace) ==> r == 1
  {
    var t := Trim(text, JsSpace);
    if text == "" then 0
    else if HasCjk(text) && !HasSpace(t) then
      DenseTrim(text, JsSpace);
      DenseOfSpaceFree(t);
      |Dense(text, JsSpace)|
    else if HasCjk(text) then |text|
    else
      TrimEmpty(text, JsSpace);
      SplitCountsWords(t);
      WordsTrim(text);
      WordsBound(text);
      |SplitSpaceRuns(t)|
  }

  /** The editor's counter next to each text box: no words for blank text,
      otherwise the pieces of the trimmed text split on white-space runs. */
  function EditorWordCount(text: string): (r: nat)
    ensures r == Words(text)
  {
    var t := Trim(text, JsSpace);
    TrimEmpty(text, JsSpace);
    WordsTrim(text);
    if t == "" then
      assert Words(t) == 0;
      0
    else
      SplitCountsWords(t);
      |SplitSpaceRuns(t)|
  }

  /** Text made only of white space counts as one word in the chunk viewer,
      because the split of the empty trimmed text has one (empty) piece; the
      editor's counter says zero. */
  lemma BlankTextCountsOne(text: string)
    requires text != "" && Blank(text, JsSpace) && !HasCjk(text)
    ensures GetWordCount(text) == 1 && EditorWordCount(text) == 0
  {
    TrimEmpty(text, JsSpace);
    WordsTrim(text);
  }
}
