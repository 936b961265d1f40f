/** Adding a chapter summary to a text field (script.js,
    `appendSummaryToTextarea`): the summary goes after the field's text under
    a header, and a summary added earlier under that header is replaced.
    The rules are stated for any header with no white space at its ends and
    then applied to the page's own header. */
module Summary {
  import opened Wrappers
  import opened Seqs
  import opened Text
  import Prompt

  const Header := Prompt.SummaryHeader

  /** No white space at either end. */
  predicate Trimmed(s: string)
  {
    s == [] || (!JsSpace(s[0]) && !JsSpace(s[|s| - 1]))
  }

  /** A header the rules below hold for: not empty, and trimmed. */
  predicate Framed(h: string)
  {
    h != [] && Trimmed(h)
  }

  lemma HeaderFramed()
    ensures Framed(Header) && |Header| == 32
  {
  }

  /** The summary, trimmed, with one leading header removed. */
  function Clean(h: string, summary: string): (r: string)
    ensures Trimmed(r)
    ensures IsPrefix(h, Trim(summary, JsSpace)) ==> r == Trim(Trim(summary, JsSpace)[|h|..], JsSpace)
    ensures !IsPrefix(h, Trim(summary, JsSpace)) ==> r == Trim(summary, JsSpace)
  {
    var t := Trim(summary, JsSpace);
    if IsPrefix(h, t) then Trim(t[|h|..], JsSpace) else t
  }

  /** A summary that already starts with the header loses it: the text after
      the header is what goes into the block, so the header never doubles. */
  lemma CleanHeaded(h: string, x: string)
    requires Framed(h) && Trimmed(x)
    ensures Clean(h, h + "\n" + x) == x
  {
    HeadedTrim(h, x);
    var body := BlockBody(h, x);
    assert body[..|h|] == h;
    if x == [] {
      assert body[|h|..] == [];
      TrimEmpty([], JsSpace);
    } else {
      assert body[|h|..] == "\n" + x + [];
      TrimSurround("\n", x, [], JsSpace);
    }
  }

  function BlockOf(h: string, clean: string): string
  {
    "\n\n" + h + "\n" + clean
  }

  /** A summary the page accepts: present and not all white space. */
  predicate Usable(summary: Option<string>)
  {
    summary.Some? && !Blank(summary.value, JsSpace)
  }

  /** Where a block goes, given the field's trimmed text: in place of the
      last header and everything after it, after the text when there is no
      header, and alone, without its leading blank line, in an empty field. */
  function Place(h: string, text: string, block: string): string
    requires h != []
  {
    if text != "" then
      var at := LastIndexOf(text, h);
      if at != -1 then Trim(text[..at], JsSpace) + block else text + block
    else TrimStart(block, JsSpace)
  }

  /** The new text of the field, or `None` when the summary is refused and
      the field keeps its text. */
  function Appended(h: string, current: string, summary: Option<string>): (r: Option<string>)
    requires h != []
    ensures r.Some? <==> Usable(summary)
    ensures r.Some? ==> r.value == Place(h, Trim(current, JsSpace), BlockOf(h, Clean(h, summary.value)))
  {
    if summary.None? then None
    else if Trim(summary.value, JsSpace) == "" then
      TrimEmpty(summary.value, JsSpace);
      None
    else
      TrimEmpty(summary.value, JsSpace);
      Some(Place(h, Trim(current, JsSpace), BlockOf(h, Clean(h, summary.value))))
  }

  /** The page's own instance. */
  function AppendedSummary(current: string, summary: Option<string>): (r: Option<string>)
    ensures r.Some? <==> Usable(summary)
  {
    Appended(Header, current, summary)
  }

  /** An empty field receives the header and the summary, without the
      leading blank line. */
  lemma EmptyField(h: string, current: string, summary: string)
    requires Framed(h)
    requires Blank(current, JsSpace) && !Blank(summary, JsSpace)
    ensures Appended(h, current, Some(summary)) == Some(h + "\n" + Clean(h, summary))
  {
    TrimEmpty(current, JsSpace);
    PlaceEmpty(h, Clean(h, summary));
  }

  lemma PlaceEmpty(h: string, clean: string)
    requires Framed(h)
    ensures Place(h, "", BlockOf(h, clean)) == h + "\n" + clean
  {
    var rest := h + "\n" + clean;
    assert rest[0] == h[0];
    assert BlockOf(h, clean) == "\n\n" + rest;
    TrimStartLead("\n\n", rest, JsSpace);
  }

  /** A field without the header gets the block after its trimmed text. */
  lemma NoHeaderAppends(h: string, current: string, summary: string)
    requires h != []
    requires !Blank(current, JsSpace) && !Blank(summary, JsSpace)
    requires !Contains(Trim(current, JsSpace), h)
    ensures Appended(h, current, Some(summary))
         == Some(Trim(current, JsSpace) + BlockOf(h, Clean(h, summary)))
  {
    TrimEmpty(current, JsSpace);
    TrimEmpty(summary, JsSpace);
    var text := Trim(current, JsSpace);
    var at := LastIndexOf(text, h);
    if at >= 0 {
      ContainsAt(text, at, h);
    }
  }

  /** The header occurs in a block only where the block puts it; in
      particular the summary itself does not contain the header. */
  predicate HeaderOnlyAtStart(h: string, clean: string)
  {
    forall j | 0 < j < |h| + 1 + |clean| :: !IsPrefix(h, (h + "\n" + clean)[j..])
  }

  /** The text the page keeps in front of a block, and the trimmed block. */
  function Kept(p: string): string
  {
    if p == [] then [] else p + "\n\n"
  }

  function BlockBody(h: string, previous: string): string
  {
    h + (if previous == [] then [] else "\n" + previous)
  }

  lemma KeptTrim(p: string)
    requires Trimmed(p)
    ensures Trim(Kept(p), JsSpace) == p
  {
    if p == [] {
      TrimEmpty([], JsSpace);
    } else {
      LineBreaksBlank();
      TrimAppendBlank(p, "\n\n", JsSpace);
    }
  }

  lemma LineBreaksBlank()
    ensures Blank("\n", JsSpace) && Blank("\n\n", JsSpace)
  {
  }

  /** White space the block adds around the trimmed field text. */
  function Lead(p: string): string
  {
    if p == [] then "\n\n" else []
  }

  function Trail(previous: string): string
  {
    if previous == [] then "\n" else []
  }

  /** A field holding some text and then a block is the trimmed field
      text wrapped in the block's leading and trailing white space. */
  lemma BlockShape(h: string, p: string, previous: string)
    ensures p + BlockOf(h, previous) == Lead(p) + (Kept(p) + BlockBody(h, previous)) + Trail(previous)
  {
  }

  /** How a field holding some text and then a block trims. */
  lemma BlockTrim(h: string, p: string, previous: string)
    requires Framed(h) && Trimmed(p) && Trimmed(previous)
    ensures Trim(p + BlockOf(h, previous), JsSpace) == Kept(p) + BlockBody(h, previous)
  {
    var m := Kept(p) + BlockBody(h, previous);
    BlockShape(h, p, previous);
    BlockEnds(h, p, previous);
    LineBreaksBlank();
    TrimSurround(Lead(p), m, Trail(previous), JsSpace);
  }

  lemma BlockEnds(h: string, p: string, previous: string)
    requires Framed(h) && Trimmed(p) && Trimmed(previous)
    ensures Trimmed(Kept(p) + BlockBody(h, previous))
  {
    var m := Kept(p) + BlockBody(h, previous);
    assert m[0] == if p == [] then h[0] else p[0];
    assert m[|m| - 1] == if previous == [] then h[|h| - 1] else previous[|previous| - 1];
  }

  /** In a trimmed field ending with a block, the last header is the
      block's own. */
  lemma LastHeaderOfBlock(h: string, p: string, previous: string)
    requires h != [] && HeaderOnlyAtStart(h, previous)
    ensures LastIndexOf(Kept(p) + BlockBody(h, previous), h) == |Kept(p)|
  {
    var m := Kept(p) + BlockBody(h, previous);
    var at := LastIndexOf(m, h);
    assert m[|Kept(p)|..] == BlockBody(h, previous);
    if at > |Kept(p)| {
      var j := at - |Kept(p)|;
      assert m[at..] == BlockBody(h, previous)[j..];
      NoLaterHeader(h, previous, j);
    }
  }

  lemma NoLaterHeader(h: string, previous: string, j: nat)
    requires h != [] && HeaderOnlyAtStart(h, previous)
    requires 0 < j <= |BlockBody(h, previous)|
    ensures !IsPrefix(h, BlockBody(h, previous)[j..])
  {
    if previous != [] {
      assert BlockBody(h, previous) == h + "\n" + previous;
    }
  }

  /** A field whose text ends with a block added earlier: that block is
      replaced by the new one and the text in front of it is kept. */
  lemma ReplaceSummary(h: string, p: string, previous: string, summary: string)
    requires Framed(h) && Trimmed(p) && Trimmed(previous) && HeaderOnlyAtStart(h, previous)
    requires !Blank(summary, JsSpace)
    ensures Appended(h, p + BlockOf(h, previous), Some(summary)) == Some(p + BlockOf(h, Clean(h, summary)))
  {
    var m := Kept(p) + BlockBody(h, previous);
    var block := BlockOf(h, Clean(h, summary));
    TrimEmpty(summary, JsSpace);
    BlockTrim(h, p, previous);
    PlaceAfterBlock(h, p, previous, block);
    calc {
      Appended(h, p + BlockOf(h, previous), Some(summary)).value;
      Place(h, Trim(p + BlockOf(h, previous), JsSpace), block);
      Place(h, m, block);
      p + block;
    }
  }

  lemma PlaceAfterBlock(h: string, p: string, previous: string, block: string)
    requires Framed(h) && Trimmed(p) && HeaderOnlyAtStart(h, previous)
    ensures Place(h, Kept(p) + BlockBody(h, previous), block) == p + block
  {
    var m := Kept(p) + BlockBody(h, previous);
    LastHeaderOfBlock(h, p, previous);
    PlaceAt(h, m, |Kept(p)|, block);
    assert m[..|Kept(p)|] == Kept(p);
    KeptTrim(p);
  }

  lemma PlaceAt(h: string, text: string, at: nat, block: string)
    requires h != [] && text != [] && LastIndexOf(text, h) == at
    ensures Place(h, text, block) == Trim(text[..at], JsSpace) + block
  {
  }

  /** Adding the same summary again to a field that had text leaves the
      field as it is. */
  lemma AppendIdempotent(h: string, current: string, summary: string)
    requires Framed(h)
    requires !Blank(current, JsSpace) && !Blank(summary, JsSpace)
    requires HeaderOnlyAtStart(h, Clean(h, summary))
    ensures var once := Appended(h, current, Some(summary));
            once.Some? && Appended(h, once.value, Some(summary)) == once
  {
    TrimEmpty(current, JsSpace);
    TrimEmpty(summary, JsSpace);
    var text := Trim(current, JsSpace);
    var at := LastIndexOf(text, h);
    var p := if at != -1 then Trim(text[..at], JsSpace) else text;
    assert Appended(h, current, Some(summary)) == Some(p + BlockOf(h, Clean(h, summary)));
    ReplaceSummary(h, p, Clean(h, summary), summary);
  }

  /** A field that was empty: the first summary goes in without a leading
      blank line, but adding it again replaces it with a block that starts
      with one. */
  lemma EmptyFieldTwice(h: string, summary: string)
    requires Framed(h) && !Blank(summary, JsSpace) && HeaderOnlyAtStart(h, Clean(h, summary))
    ensures var once := Appended(h, "", Some(summary));
            once.Some? && Appended(h, once.value, Some(summary)) == Some(BlockOf(h, Clean(h, summary)))
  {
    var clean := Clean(h, summary);
    var block := BlockOf(h, clean);
    EmptyField(h, "", summary);
    HeadedTrim(h, clean);
    PlaceAfterBlock(h, [], clean, block);
    assert Kept([]) + BlockBody(h, clean) == BlockBody(h, clean);
    assert [] + block == block;
  }

  /** A header line and its summary, trimmed. */
  lemma HeadedTrim(h: string, clean: string)
    requires Framed(h) && Trimmed(clean)
    ensures Trim(h + "\n" + clean, JsSpace) == BlockBody(h, clean)
  {
    var trail: string := if clean == [] then "\n" else [];
    var m := BlockBody(h, clean);
    assert h + "\n" + clean == [] + m + trail;
    assert m[0] == h[0];
    assert m[|m| - 1] == if clean == [] then h[|h| - 1] else clean[|clean| - 1];
    TrimSurround([], m, trail, JsSpace);
  }

  /** A text field of the page. */
  class TextField {
    var value: string

    constructor(value: string)
      ensures this.value == value
    {
      this.value := value;
    }
  }

  /** Writes the summary into the field, or reports `false` and leaves it
      alone when there is no field or no usable summary. */
  method AppendSummaryToTextarea(field: TextField?, summary: Option<string>) returns (updated: bool)
    modifies field
    ensures field == null ==> !updated
    ensures field != null ==> (updated <==> Usable(summary))
    ensures field != null && updated ==> field.value == AppendedSummary(old(field.value), summary).value
    ensures field != null && !updated ==> field.value == old(field.value)
  {
    if field == null {
      return false;
    }
    if summary.None? || Trim(summary.value, JsSpace) == "" {
      if summary.Some? { TrimEmpty(summary.value, JsSpace); }
      return false;
    }
    TrimEmpty(summary.value, JsSpace);
    HeaderFramed();
    var currentText := Trim(field.value, JsSpace);
    var cleanSummaryText := Trim(summary.value, JsSpace);
    if IsPrefix(Header, cleanSummaryText) {
      cleanSummaryText := Trim(cleanSummaryText[|Header|..], JsSpace);
    }
    var newTextValue;
    var summaryBlock := "\n\n" + Header + "\n" + cleanSummaryText;
    if currentText != "" {
      var headerIndex := LastIndexOf(currentText, Header);
      if headerIndex != -1 {
        newTextValue := Trim(currentText[..headerIndex], JsSpace) + summaryBlock;
      } else {
        newTextValue := currentText + summaryBlock;
      }
    } else {
      newTextValue := TrimStart(summaryBlock, JsSpace);
    }
    field.value := newTextValue;
    return true;
  }
}
