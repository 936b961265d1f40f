/** `createTextChunks` of the chunk viewer: the budget per model, the
    tokenizer server's chunks when it answered, and otherwise the
    character-budget fallback, written as the source writes it (closures
    over `currentChunk`, `accumulatedCharsInCurrentChunk` and `chunks`
    become the fields of `FallbackChunker`). */
module Chunker {
  import opened Wrappers
  import opened Seqs
  import opened Text
  import opened ChunkerSpec

  const DefaultGrokTokens: int := 22000
  const DefaultDeepseekTokens: int := 6000
  const CharsPerTokenEstimate: int := 4

  /** The fallback's mutable state. */
  class FallbackChunker {
    const maxChars: nat
    var currentChunk: string
    var accumulated: int
    var chunks: seq<string>
    /** The packer state the fields stand for. */
    ghost var state: PackState

    ghost predicate Valid()
      reads this
    {
      && maxChars > 0
      && (forall q | q in state.pending :: q != "")
      && currentChunk == Join(state.pending, "\n\n")
      && accumulated == |currentChunk|
      && chunks == Render(state.done, maxChars)
    }

    constructor (maxChars: nat)
      requires maxChars > 0
      ensures Valid() && this.maxChars == maxChars && state == PackState([], [])
    {
      this.maxChars := maxChars;
      currentChunk := "";
      accumulated := 0;
      chunks := [];
      state := PackState([], []);
    }

    /** `finalizeCurrentChunk`: the chunk being built, trimmed, is pushed. */
    method FinalizeCurrentChunk()
      requires Valid()
      modifies this
      ensures Valid() && state == Flush(old(state))
    {
      ghost var pending, done := state.pending, state.done;
      JoinEmpty(pending, "\n\n");
      if |currentChunk| > 0 {
        var trimmed := Trim(currentChunk, JsSpace);
        RenderSnoc(done, Packed(pending), maxChars);
        assert RenderGroup(Packed(pending), maxChars) == [trimmed];
        chunks := chunks + [trimmed];
        currentChunk := "";
        accumulated := 0;
        state := PackState([], done + [Packed(pending)]);
      }
    }

    /** `addParagraphToChunk`: the paragraph is appended, after "\n\n" when
        the chunk already has content. */
    method AddParagraphToChunk(p: string)
      requires Valid() && p != ""
      modifies this
      ensures Valid() && state == PackState(old(state.pending) + [p], old(state.done))
    {
      ghost var pending := state.pending;
      AddedJoin(pending, p);
      if |currentChunk| > 0 {
        currentChunk := currentChunk + "\n\n";
        accumulated := accumulated + 2;
      }
      currentChunk := currentChunk + p;
      accumulated := accumulated + |p|;
      state := PackState(pending + [p], state.done);
    }

    /** A paragraph larger than the budget, pushed as consecutive
        `substring(0, maxChars)` slices, each trimmed. */
    method HardSplit(p: string)
      requires Valid() && state.pending == [] && |p| > maxChars
      modifies this
      ensures Valid() && state == PackState([], old(state.done) + [Split(p)])
    {
      ghost var done := state.done;
      RenderSnoc(done, Split(p), maxChars);
      PushSlices(p);
      state := PackState([], done + [Split(p)]);
    }

    /** The slicing loop of the hard split. */
    method PushSlices(p: string)
      requires maxChars > 0
      modifies this`chunks
      ensures chunks == old(chunks) + TrimEach(Slices(p, maxChars))
    {
      var rest := p;
      while |rest| > 0
        invariant chunks + TrimEach(Slices(rest, maxChars)) == old(chunks) + TrimEach(Slices(p, maxChars))
        decreases |rest|
      {
        var sub := rest[..Min(maxChars, |rest|)];
        SliceStep(chunks, rest, maxChars);
        chunks := chunks + [Trim(sub, JsSpace)];
        rest := rest[|sub|..];
      }
      assert chunks + [] == chunks;
    }

    /** The block the source repeats for every paragraph, literally: close
        the chunk when the paragraph does not fit, then split the paragraph
        or add it. Its last branch cannot be reached. */
    method ProcessParagraph(p: string)
      requires Valid() && p != ""
      modifies this
      ensures Valid() && state == Step(old(state), p, maxChars)
    {
      JoinEmpty(state.pending, "\n\n");
      if accumulated + |p| + (if |currentChunk| > 0 then 2 else 0) > maxChars && accumulated > 0 {
        FinalizeCurrentChunk();
      }
      if |p| > maxChars && accumulated == 0 {
        HardSplit(p);
      } else if |p| + accumulated + (if |currentChunk| > 0 then 2 else 0) <= maxChars {
        AddParagraphToChunk(p);
      } else {
        assert false;
      }
    }

    /** A blank line: the buffered lines, if any, are joined into a
        paragraph and processed. */
    method CloseParagraph(buffer: seq<string>)
      requires Valid()
      requires forall q | q in buffer :: !Blank(q, JsSpace)
      modifies this
      ensures Valid()
      ensures state == if buffer == [] then old(state) else Step(old(state), Join(buffer, "\n"), maxChars)
    {
      if |buffer| > 0 {
        var paragraph := Join(buffer, "\n");
        JoinNotBlank(buffer, "\n", JsSpace);
        ProcessParagraph(paragraph);
      }
    }

    /** The loop over the text's lines: a blank line closes the buffered
        paragraph, which is processed; any other line is buffered. Returns
        the lines still buffered at the end. */
    method PackLines(lines: seq<string>) returns (buffer: seq<string>)
      requires Valid()
      modifies this
      ensures Valid()
      ensures forall q | q in buffer :: !Blank(q, JsSpace)
      ensures PackAll(state, Emit(buffer), maxChars) == PackAll(old(state), Paragraphs(lines), maxChars)
    {
      buffer := [];
      for i := 0 to |lines|
        invariant Valid()
        invariant forall q | q in buffer :: !Blank(q, JsSpace)
        invariant PackAll(state, ParagraphsFrom(lines[i..], buffer), maxChars)
               == PackAll(old(state), Paragraphs(lines), maxChars)
      {
        var line := lines[i];
        ghost var st := state;
        ghost var rest := lines[i + 1..];
        assert lines[i..] == [line] + rest;
        TrimEmpty(line, JsSpace);
        if Trim(line, JsSpace) == "" {
          PackBlankLine(st, line, rest, buffer, maxChars);
          CloseParagraph(buffer);
          buffer := [];
        } else {
          BufferLine(line, rest, buffer);
          buffer := buffer + [line];
        }
      }
      assert lines[|lines|..] == [];
    }
  }

  /** One turn of the slicing loop: the first slice, trimmed, moves from
      the slices still to push to the chunks pushed. */
  lemma SliceStep(chunks: seq<string>, rest: string, maxChars: nat)
    requires maxChars > 0 && |rest| > 0
    ensures var sub := rest[..Min(maxChars, |rest|)];
      chunks + [Trim(sub, JsSpace)] + TrimEach(Slices(rest[|sub|..], maxChars))
      == chunks + TrimEach(Slices(rest, maxChars))
  {
    var sub := rest[..Min(maxChars, |rest|)];
    var later := Slices(rest[|sub|..], maxChars);
    assert Slices(rest, maxChars) == [sub] + later;
    assert ([sub] + later)[1..] == later;
    AppendAssoc(chunks, [Trim(sub, JsSpace)], TrimEach(later));
  }

  /** The chunk text after one more paragraph: the old text, "\n\n" when
      it was not empty, and the paragraph. */
  lemma AddedJoin(pending: seq<string>, p: string)
    requires forall q | q in pending :: q != ""
    requires p != ""
    ensures forall q | q in pending + [p] :: q != ""
    ensures var c := Join(pending, "\n\n");
      Join(pending + [p], "\n\n") == (if |c| > 0 then c + "\n\n" else c) + p
  {
    JoinEmpty(pending, "\n\n");
    JoinAppend(pending, p, "\n\n");
    if pending == [] {
      assert "" + p == p;
    }
  }

  /** The character-budget fallback: the lines are packed, the paragraph
      still buffered at the end is processed, and the last chunk is closed. */
  method Fallback(text: string, maxChars: nat) returns (chunks: seq<string>)
    requires maxChars > 0
    ensures chunks == ChunksOf(text, maxChars)
  {
    var ch := new FallbackChunker(maxChars);
    var lines := Lines(text);
    var buffer := ch.PackLines(lines);
    ghost var st := ch.state;
    if |buffer| > 0 {
      var paragraph := Join(buffer, "\n");
      JoinNotBlank(buffer, "\n", JsSpace);
      assert [paragraph][1..] == [];
      ch.ProcessParagraph(paragraph);
    }
    ch.FinalizeCurrentChunk();
    chunks := ch.chunks;
  }

  /** `customLimit || default` for the two known models; `None` for any other
      model type. */
  function MaxTokens(modelType: string, customLimit: Option<int>): (r: Option<int>)
    requires customLimit.Some? ==> customLimit.value >= 0
    ensures r.Some? <==> modelType == "grok" || modelType == "deepseek"
    ensures r.Some? ==> r.value > 0
    ensures modelType == "grok" ==>
              r == Some(if customLimit.Some? && customLimit.value != 0 then customLimit.value else DefaultGrokTokens)
    ensures modelType == "deepseek" ==>
              r == Some(if customLimit.Some? && customLimit.value != 0 then customLimit.value else DefaultDeepseekTokens)
  {
    var limit := if customLimit.Some? && customLimit.value != 0 then Some(customLimit.value) else None;
    if modelType == "grok" then Some(if limit.Some? then limit.value else DefaultGrokTokens)
    else if modelType == "deepseek" then Some(if limit.Some? then limit.value else DefaultDeepseekTokens)
    else None
  }

  /** What `createTextChunks` returns. `server` is what the tokenizer server
      answered, `None` when the health probe or the chunk request failed. */
  function TextChunks(text: string, modelType: string, customLimit: Option<int>, server: Option<seq<string>>): seq<string>
    requires customLimit.Some? ==> customLimit.value >= 0
  {
    var whole := Trim(text, JsSpace);
    match MaxTokens(modelType, customLimit)
    case None => if whole == "" then [] else [whole]
    case Some(maxTokens) =>
      var chunks := if server.Some? then server.value else ChunksOf(text, maxTokens * CharsPerTokenEstimate);
      var finalChunks := FilterNonBlank(chunks);
      if finalChunks == [] && whole != "" then [whole] else finalChunks
  }

  method CreateTextChunks(text: string, modelType: string, customLimit: Option<int>, server: Option<seq<string>>)
    returns (r: seq<string>)
    requires customLimit.Some? ==> customLimit.value >= 0
    ensures r == TextChunks(text, modelType, customLimit, server)
    ensures forall c | c in r :: !Blank(c, JsSpace)
    ensures !Blank(text, JsSpace) ==> r != []
  {
    TextChunksProperties(text, modelType, customLimit, server);
    var maxTokens := MaxTokens(modelType, customLimit);
    if maxTokens.None? {
      var whole := Trim(text, JsSpace);
      r := if |whole| > 0 then [whole] else [];
      return;
    }
    var chunks: seq<string>;
    if server.Some? {
      chunks := server.value;
    } else {
      chunks := Fallback(text, maxTokens.value * CharsPerTokenEstimate);
    }
    var finalChunks := FilterNonBlank(chunks);
    if |finalChunks| == 0 && |Trim(text, JsSpace)| > 0 {
      return [Trim(text, JsSpace)];
    }
    r := finalChunks;
  }

  /** No chunk is blank, and a text that is not blank always gives chunks. */
  lemma TextChunksProperties(text: string, modelType: string, customLimit: Option<int>, server: Option<seq<string>>)
    requires customLimit.Some? ==> customLimit.value >= 0
    ensures forall c | c in TextChunks(text, modelType, customLimit, server) :: !Blank(c, JsSpace)
    ensures !Blank(text, JsSpace) ==> TextChunks(text, modelType, customLimit, server) != []
  {
    var whole := Trim(text, JsSpace);
    TrimEmpty(text, JsSpace);
    assert whole != "" ==> !Blank(whole, JsSpace) by {
      if whole != "" { assert !JsSpace(whole[0]); }
    }
    var r := TextChunks(text, modelType, customLimit, server);
    match MaxTokens(modelType, customLimit)
    case None =>
    case Some(maxTokens) =>
      var chunks := if server.Some? then server.value else ChunksOf(text, maxTokens * CharsPerTokenEstimate);
      assert r == if FilterNonBlank(chunks) == [] && whole != "" then [whole] else FilterNonBlank(chunks);
  }

  /** With the server unavailable, every chunk fits the character budget,
      the chunks hold every non-white-space character of the text in order,
      and a blank text gives no chunk: the guard that returns the whole
      trimmed text never fires. */
  lemma FallbackProperties(text: string, modelType: string, customLimit: Option<int>)
    requires customLimit.Some? ==> customLimit.value >= 0
    requires modelType == "grok" || modelType == "deepseek"
    ensures var r := TextChunks(text, modelType, customLimit, None);
      && r == FilterNonBlank(ChunksOf(text, MaxTokens(modelType, customLimit).value * CharsPerTokenEstimate))
      && (forall c | c in r :: |c| <= MaxTokens(modelType, customLimit).value * CharsPerTokenEstimate)
      && Dense(Flatten(r), JsSpace) == Dense(text, JsSpace)
      && (Blank(text, JsSpace) ==> r == [])
  {
    var maxChars := MaxTokens(modelType, customLimit).value * CharsPerTokenEstimate;
    FilteredChunksProperties(text, maxChars);
    TrimEmpty(text, JsSpace);
  }

  /** A line followed by a blank line and another line is two paragraphs. */
  lemma TwoLines(a: string, b: string)
    requires a != "" && b != ""
    requires forall k | 0 <= k < |a| :: a[k] != '\n'
    requires forall k | 0 <= k < |b| :: b[k] != '\n'
    requires !JsSpace(a[0]) && !JsSpace(a[|a| - 1]) && !JsSpace(b[0])
    ensures Paragraphs(Lines(a + "\n\n" + b)) == [a, b]
  {
    ThreeLines(a, b);
    TwoParagraphLines(a, b);
  }

  lemma ThreeLines(a: string, b: string)
    requires a != "" && b != ""
    requires forall k | 0 <= k < |a| :: a[k] != '\n'
    requires forall k | 0 <= k < |b| :: b[k] != '\n'
    requires a[|a| - 1] != '\r'
    ensures Lines(a + "\n\n" + b) == [a, "", b]
  {
    var text := a + "\n\n" + b;
    assert text == a + ['\n'] + ("\n" + b);
    assert "\n" + b == [] + ['\n'] + b;
    SplitOnFree(a, "\n" + b, '\n');
    SplitOnFree([], b, '\n');
    SplitOnFree(b, [], '\n');
    assert SplitOn(text, '\n') == [a, "", b];
  }

  lemma TwoParagraphLines(a: string, b: string)
    requires !Blank(a, JsSpace) && !Blank(b, JsSpace)
    ensures Paragraphs([a, "", b]) == [a, b]
  {
    BufferLine(a, ["", b], []);
    assert [a] + ["", b] == [a, "", b];
    assert [] + [a] == [a];
    assert ["", b][1..] == [b] && [b][1..] == [];
    calc {
      Paragraphs([a, "", b]);
      ParagraphsFrom(["", b], [a]);
      Emit([a]) + ParagraphsFrom([b], []);
      [a] + ParagraphsFrom([], [b]);
      [a, b];
    }
  }

  /** Two paragraphs, each within the budget, are packed together exactly
      when they fit with the "\n\n" between them. */
  lemma TwoGroups(a: string, b: string, maxChars: nat)
    requires a != "" && b != "" && |a| <= maxChars && |b| <= maxChars
    ensures Groups([a, b], maxChars) == if |a| + 2 + |b| <= maxChars then [Packed([a, b])] else [Packed([a]), Packed([b])]
  {
    var s1 := Step(PackState([], []), a, maxChars);
    assert s1 == PackState([a], []);
    calc {
      PackAll(PackState([], []), [a, b], maxChars);
      { assert [a, b][1..] == [b]; }
      PackAll(s1, [b], maxChars);
      { assert [b][1..] == []; }
      PackAll(Step(s1, b, maxChars), [], maxChars);
    }
    assert [a] + [b] == [a, b];
    assert Join([a], "\n\n") == a;
  }

  lemma RenderPacked(ps: seq<string>, maxChars: nat)
    requires maxChars > 0
    ensures Render([Packed(ps)], maxChars) == [Trim(Join(ps, "\n\n"), JsSpace)]
  {
    RenderSnoc([], Packed(ps), maxChars);
    assert [] + [Packed(ps)] == [Packed(ps)];
  }

  lemma RenderTwoPacked(a: string, b: string, maxChars: nat)
    requires maxChars > 0 && a != "" && b != ""
    requires !JsSpace(a[0]) && !JsSpace(a[|a| - 1]) && !JsSpace(b[0]) && !JsSpace(b[|b| - 1])
    ensures Render([Packed([a]), Packed([b])], maxChars) == [a, b]
  {
    TrimNoOp(a, JsSpace);
    TrimNoOp(b, JsSpace);
    assert Join([a], "\n\n") == a && Join([b], "\n\n") == b;
    RenderPacked([a], maxChars);
    RenderSnoc([Packed([a])], Packed([b]), maxChars);
    assert [Packed([a])] + [Packed([b])] == [Packed([a]), Packed([b])];
  }

  /** Two one-line paragraphs separated by a blank line, each within the
      budget: one chunk when they fit together with the "\n\n" between them,
      one chunk each otherwise. */
  lemma TwoParagraphs(a: string, b: string, maxChars: nat)
    requires maxChars > 0 && a != "" && b != ""
    requires forall k | 0 <= k < |a| :: a[k] != '\n'
    requires forall k | 0 <= k < |b| :: b[k] != '\n'
    requires !JsSpace(a[0]) && !JsSpace(a[|a| - 1]) && !JsSpace(b[0]) && !JsSpace(b[|b| - 1])
    requires |a| <= maxChars && |b| <= maxChars
    ensures |a| + 2 + |b| <= maxChars ==> ChunksOf(a + "\n\n" + b, maxChars) == [a + "\n\n" + b]
    ensures |a| + 2 + |b| > maxChars ==> ChunksOf(a + "\n\n" + b, maxChars) == [a, b]
  {
    var text := a + "\n\n" + b;
    TwoLines(a, b);
    TwoGroups(a, b, maxChars);
    var gs := Groups([a, b], maxChars);
    assert ChunksOf(text, maxChars) == Render(gs, maxChars);
    if |a| + 2 + |b| <= maxChars {
      JoinCons(a, [b], "\n\n");
      assert Join([a, b], "\n\n") == text;
      TrimNoOp(text, JsSpace);
      RenderPacked([a, b], maxChars);
    } else {
      RenderTwoPacked(a, b, maxChars);
    }
  }

  lemma ParaFacts(a: string, b: string)
    requires a == "Para one." && b == "Para two."
    ensures forall k | 0 <= k < |a| :: a[k] != '\n'
    ensures forall k | 0 <= k < |b| :: b[k] != '\n'
    ensures !JsSpace(a[0]) && !JsSpace(a[|a| - 1]) && !JsSpace(b[0]) && !JsSpace(b[|b| - 1])
    ensures !Blank(a, JsSpace) && !Blank(b, JsSpace) && !Blank(a + "\n\n" + b, JsSpace)
  {
    assert (a + "\n\n" + b)[0] == a[0];
  }

  /** "Para one.\n\nPara two." is one chunk under a budget of 20 characters
      or more and two chunks under 12. */
  lemma TwoParagraphsExample(a: string, b: string)
    requires a == "Para one." && b == "Para two."
    ensures ChunksOf(a + "\n\n" + b, 20) == [a + "\n\n" + b]
    ensures ChunksOf(a + "\n\n" + b, 12) == [a, b]
  {
    ParaFacts(a, b);
    TwoParagraphs(a, b, 20);
    TwoParagraphs(a, b, 12);
  }

  /** A one-line paragraph larger than the budget becomes its consecutive
      slices of the budget's width, each trimmed. */
  lemma OversizedLine(p: string, maxChars: nat)
    requires maxChars > 0 && |p| > maxChars
    requires forall k | 0 <= k < |p| :: p[k] != '\n'
    requires !Blank(p, JsSpace)
    ensures ChunksOf(p, maxChars) == TrimEach(Slices(p, maxChars))
  {
    SplitOnFree(p, [], '\n');
    assert Lines(p) == [p];
    BufferLine(p, [], []);
    assert [p] + [] == [p] && [] + [p] == [p];
    assert Paragraphs([p]) == ParagraphsFrom([], [p]);
    assert Paragraphs([p]) == [p];
    assert PackAll(PackState([], []), [p], maxChars) == PackAll(PackState([], [Split(p)]), [], maxChars);
    assert Groups([p], maxChars) == [Split(p)];
    RenderSnoc([], Split(p), maxChars);
  }

  /** A 10000-character paragraph under a 4000-character budget is cut into
      slices of 4000, 4000 and 2000 characters. */
  lemma OversizedExample(p: string)
    requires |p| == 10000
    ensures |Slices(p, 4000)| == 3
    ensures |Slices(p, 4000)[0]| == 4000 && |Slices(p, 4000)[1]| == 4000 && |Slices(p, 4000)[2]| == 2000
  {
    var r1 := p[4000..];
    var r2 := r1[4000..];
    assert r2[..2000] == r2;
    assert Slices(r2, 4000) == [r2] + Slices(r2[2000..], 4000);
    assert r2[2000..] == [];
    assert Slices(r1, 4000) == [r1[..4000]] + Slices(r2, 4000);
    assert Slices(p, 4000) == [p[..4000]] + Slices(r1, 4000);
  }
}
