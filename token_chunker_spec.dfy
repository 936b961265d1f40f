/** The tokenizer server's `/chunk` and `/tokenize` endpoints, as functions.
    The tokenizer is a parameter: `encode` is `tokenizer.encode(s,
    add_special_tokens=False)`, `decode` is `tokenizer.decode(ids,
    skip_special_tokens=True)`; nothing is assumed about either. */
module TokenChunkerSpec {
  import opened Wrappers
  import opened Seqs
  import opened Text

  /** The characters at which Python's `str.splitlines` breaks. */
  predicate LineBreak(c: char)
  {
    c == '\n' || c == '\r' || c == '\U{000B}' || c == '\U{000C}' || c == '\U{001C}'
    || c == '\U{001D}' || c == '\U{001E}' || c == '\U{0085}' || c == '\U{2028}' || c == '\U{2029}'
  }

  lemma LineBreakIsSpace(c: char)
    ensures LineBreak(c) ==> PySpace(c)
  {
  }

  /** `s.splitlines()` continuing a line that so far holds `line`: a break
      ("\r\n" counting as one) ends the line; a text ending in a break has no
      empty last line. */
  function SplitLinesFrom(s: string, line: string): seq<string>
    decreases |s|
  {
    if |s| == 0 then (if line == "" then [] else [line])
    else if s[0] == '\r' && |s| > 1 && s[1] == '\n' then [line] + SplitLinesFrom(s[2..], "")
    else if LineBreak(s[0]) then [line] + SplitLinesFrom(s[1..], "")
    else SplitLinesFrom(s[1..], line + [s[0]])
  }

  function SplitLines(s: string): seq<string>
  {
    SplitLinesFrom(s, "")
  }

  /** No line holds a line break. */
  lemma {:induction false} SplitLinesNoBreak(s: string, line: string)
    requires forall k | 0 <= k < |line| :: !LineBreak(line[k])
    ensures forall i, k | 0 <= i < |SplitLinesFrom(s, line)| && 0 <= k < |SplitLinesFrom(s, line)[i]| ::
      !LineBreak(SplitLinesFrom(s, line)[i][k])
    decreases |s|
  {
    if |s| > 0 {
      if s[0] == '\r' && |s| > 1 && s[1] == '\n' {
        SplitLinesNoBreak(s[2..], "");
      } else if LineBreak(s[0]) {
        SplitLinesNoBreak(s[1..], "");
      } else {
        SplitLinesNoBreak(s[1..], line + [s[0]]);
      }
    }
  }

  /** Splitting into lines drops only line breaks, which are white space. */
  lemma {:induction false} SplitLinesDense(s: string, line: string)
    ensures Dense(Flatten(SplitLinesFrom(s, line)), PySpace) == Dense(line, PySpace) + Dense(s, PySpace)
    decreases |s|
  {
    if |s| == 0 {
      if line != "" { FlattenOne(line); }
      else { assert Flatten<char>([]) == []; }
    } else {
      var c, rest := s[0], s[1..];
      assert s == [c] + rest;
      if c == '\r' && |rest| > 0 && rest[0] == '\n' {
        assert rest == ['\n'] + rest[1..];
        DenseSpaceCons('\n', rest[1..], PySpace);
        DenseSpaceCons(c, rest, PySpace);
        SplitLinesDense(rest[1..], "");
        DenseFlattenCons(line, SplitLinesFrom(rest[1..], ""), PySpace);
      } else if LineBreak(c) {
        LineBreakIsSpace(c);
        DenseSpaceCons(c, rest, PySpace);
        SplitLinesDense(rest, "");
        DenseFlattenCons(line, SplitLinesFrom(rest, ""), PySpace);
      } else {
        SplitLinesDense(rest, line + [c]);
        DenseAppend(line, [c], PySpace);
        DenseAppend([c], rest, PySpace);
      }
    }
  }

  /** `[p for p in lines if p.strip()]` */
  function NonBlankLines(lines: seq<string>): (r: seq<string>)
    ensures forall p | p in r :: !Blank(p, PySpace)
    ensures forall p | p in r :: p in lines
    ensures forall p | p in lines && !Blank(p, PySpace) :: p in r
    decreases |lines|
  {
    if |lines| == 0 then []
    else
      assert lines == lines[..|lines| - 1] + [lines[|lines| - 1]];
      var r := NonBlankLines(lines[..|lines| - 1]);
      if Blank(lines[|lines| - 1], PySpace) then r else r + [lines[|lines| - 1]]
  }

  lemma {:induction false} NonBlankLinesDense(lines: seq<string>)
    ensures Dense(Flatten(NonBlankLines(lines)), PySpace) == Dense(Flatten(lines), PySpace)
    decreases |lines|
  {
    if |lines| > 0 {
      var n := |lines|;
      var last := lines[n - 1];
      var r := NonBlankLines(lines[..n - 1]);
      NonBlankLinesDense(lines[..n - 1]);
      DenseAppend(Flatten(lines[..n - 1]), last, PySpace);
      if Blank(last, PySpace) {
        DenseBlank(last, PySpace);
      } else {
        assert (r + [last])[..|r|] == r;
        DenseAppend(Flatten(r), last, PySpace);
      }
    }
  }

  function InputParagraphs(text: string): seq<string>
  {
    NonBlankLines(SplitLines(text))
  }

  /** The paragraphs are the text's non-blank lines: none holds a line break,
      and together they hold every non-white-space character of the text, in
      order. */
  lemma InputParagraphsProperties(text: string)
    ensures forall p | p in InputParagraphs(text) :: !Blank(p, PySpace)
    ensures forall p | p in InputParagraphs(text) :: forall k | 0 <= k < |p| :: !LineBreak(p[k])
    ensures Dense(Flatten(InputParagraphs(text)), PySpace) == Dense(text, PySpace)
  {
    var lines := SplitLines(text);
    SplitLinesNoBreak(text, "");
    forall p | p in InputParagraphs(text) ensures forall k | 0 <= k < |p| :: !LineBreak(p[k]) {
      assert p in lines;
      var i :| 0 <= i < |lines| && lines[i] == p;
    }
    NonBlankLinesDense(lines);
    SplitLinesDense(text, "");
  }

  /** Tokens of a list of paragraphs, counted one paragraph at a time. */
  function TokenSum(ps: seq<string>, encode: string -> seq<int>): nat
    decreases |ps|
  {
    if |ps| == 0 then 0 else TokenSum(ps[..|ps| - 1], encode) + |encode(ps[|ps| - 1])|
  }

  lemma TokenSumSnoc(ps: seq<string>, p: string, encode: string -> seq<int>)
    ensures TokenSum(ps + [p], encode) == TokenSum(ps, encode) + |encode(p)|
  {
    assert (ps + [p])[..|ps|] == ps;
  }

  /** A group of paragraphs packed into one chunk, or one paragraph with more
      tokens than the budget, emitted as token windows. */
  datatype TGroup = Parts(parts: seq<string>) | Windows(para: string)

  datatype TState = TState(parts: seq<string>, done: seq<TGroup>)

  function TFlush(st: TState): TState
  {
    if st.parts == [] then st else TState([], st.done + [Parts(st.parts)])
  }

  /** One paragraph of the loop: case 1 (too large on its own), case 2 (does
      not fit in the pending parts) and case 3 (appended). */
  function TStep(st: TState, p: string, maxTokens: nat, encode: string -> seq<int>): TState
  {
    var n := |encode(p)|;
    if n > maxTokens then TState([], TFlush(st).done + [Windows(p)])
    else if st.parts != [] && TokenSum(st.parts, encode) + n > maxTokens then TState([p], st.done + [Parts(st.parts)])
    else TState(st.parts + [p], st.done)
  }

  function TPackAll(st: TState, ps: seq<string>, maxTokens: nat, encode: string -> seq<int>): TState
    decreases |ps|
  {
    if |ps| == 0 then st else TPackAll(TStep(st, ps[0], maxTokens, encode), ps[1..], maxTokens, encode)
  }

  function TGroups(ps: seq<string>, maxTokens: nat, encode: string -> seq<int>): seq<TGroup>
  {
    TFlush(TPackAll(TState([], []), ps, maxTokens, encode)).done
  }

  function TGroupParas(g: TGroup): seq<string>
  {
    match g
    case Parts(ps) => ps
    case Windows(p) => [p]
  }

  function TParasOf(gs: seq<TGroup>): seq<string>
    decreases |gs|
  {
    if |gs| == 0 then [] else TParasOf(gs[..|gs| - 1]) + TGroupParas(gs[|gs| - 1])
  }

  lemma TParasOfSnoc(gs: seq<TGroup>, g: TGroup)
    ensures TParasOf(gs + [g]) == TParasOf(gs) + TGroupParas(g)
  {
    assert (gs + [g])[..|gs|] == gs;
  }

  function TFirstPara(g: TGroup): string
  {
    match g
    case Parts(ps) => if ps == [] then "" else ps[0]
    case Windows(p) => p
  }

  /** Packed parts are non-empty, non-blank and within the token budget; a
      windowed paragraph has more tokens than the budget. */
  ghost predicate TGroupOk(g: TGroup, maxTokens: nat, encode: string -> seq<int>)
  {
    match g
    case Parts(ps) => ps != [] && (forall q | q in ps :: !Blank(q, PySpace)) && TokenSum(ps, encode) <= maxTokens
    case Windows(p) => |encode(p)| > maxTokens
  }

  /** Packed parts were closed only because the next paragraph would have
      taken them over the budget. */
  ghost predicate TGreedy(gs: seq<TGroup>, maxTokens: nat, encode: string -> seq<int>)
  {
    forall i | 0 <= i < |gs| - 1 ::
      gs[i].Parts? ==> TokenSum(gs[i].parts, encode) + |encode(TFirstPara(gs[i + 1]))| > maxTokens
  }

  ghost predicate TStateOk(st: TState, maxTokens: nat, encode: string -> seq<int>)
  {
    && (forall i | 0 <= i < |st.done| :: TGroupOk(st.done[i], maxTokens, encode))
    && TGreedy(st.done, maxTokens, encode)
    && (forall q | q in st.parts :: !Blank(q, PySpace))
    && TokenSum(st.parts, encode) <= maxTokens
    && (st.done != [] && st.done[|st.done| - 1].Parts? ==>
          st.parts != [] && TokenSum(st.done[|st.done| - 1].parts, encode) + |encode(st.parts[0])| > maxTokens)
  }

  lemma TFlushOk(st: TState, maxTokens: nat, encode: string -> seq<int>)
    requires TStateOk(st, maxTokens, encode)
    ensures forall i | 0 <= i < |TFlush(st).done| :: TGroupOk(TFlush(st).done[i], maxTokens, encode)
    ensures TGreedy(TFlush(st).done, maxTokens, encode)
  {
    if st.parts != [] {
      var d := st.done + [Parts(st.parts)];
      assert forall i | 0 <= i < |st.done| :: d[i] == st.done[i];
    }
  }

  lemma TStepOk(st: TState, p: string, maxTokens: nat, encode: string -> seq<int>)
    requires TStateOk(st, maxTokens, encode) && !Blank(p, PySpace)
    ensures TStateOk(TStep(st, p, maxTokens, encode), maxTokens, encode)
  {
    var n := |encode(p)|;
    if n > maxTokens {
      TStepOkWindows(st, p, maxTokens, encode);
    } else if st.parts != [] && TokenSum(st.parts, encode) + n > maxTokens {
      TStepOkClose(st, p, maxTokens, encode);
    } else {
      TokenSumSnoc(st.parts, p, encode);
    }
  }

  /** A paragraph over the limit closes the parts and becomes windows. */
  lemma TStepOkWindows(st: TState, p: string, maxTokens: nat, encode: string -> seq<int>)
    requires TStateOk(st, maxTokens, encode) && !Blank(p, PySpace) && |encode(p)| > maxTokens
    ensures TStateOk(TState([], TFlush(st).done + [Windows(p)]), maxTokens, encode)
  {
    TFlushOk(st, maxTokens, encode);
    var f := TFlush(st);
    var d := f.done + [Windows(p)];
    assert forall i | 0 <= i < |f.done| :: d[i] == f.done[i];
  }

  /** A paragraph that does not fit closes the parts and starts new ones. */
  lemma TStepOkClose(st: TState, p: string, maxTokens: nat, encode: string -> seq<int>)
    requires TStateOk(st, maxTokens, encode) && !Blank(p, PySpace) && |encode(p)| <= maxTokens
    requires st.parts != [] && TokenSum(st.parts, encode) + |encode(p)| > maxTokens
    ensures TStateOk(TState([p], st.done + [Parts(st.parts)]), maxTokens, encode)
  {
    TFlushOk(st, maxTokens, encode);
    TokenSumSnoc([], p, encode);
    assert [] + [p] == [p];
  }

  lemma TStepParas(st: TState, p: string, maxTokens: nat, encode: string -> seq<int>)
    ensures TParasOf(TStep(st, p, maxTokens, encode).done) + TStep(st, p, maxTokens, encode).parts
         == TParasOf(st.done) + st.parts + [p]
  {
    var n := |encode(p)|;
    if n > maxTokens {
      if st.parts != [] {
        TParasOfSnoc(st.done, Parts(st.parts));
        TParasOfSnoc(st.done + [Parts(st.parts)], Windows(p));
      } else {
        TParasOfSnoc(st.done, Windows(p));
      }
    } else if st.parts != [] && TokenSum(st.parts, encode) + n > maxTokens {
      TParasOfSnoc(st.done, Parts(st.parts));
    }
  }

  lemma {:induction false} TPackAllParas(st: TState, ps: seq<string>, maxTokens: nat, encode: string -> seq<int>)
    ensures TParasOf(TPackAll(st, ps, maxTokens, encode).done) + TPackAll(st, ps, maxTokens, encode).parts
         == TParasOf(st.done) + st.parts + ps
    decreases |ps|
  {
    if |ps| > 0 {
      TStepParas(st, ps[0], maxTokens, encode);
      TPackAllParas(TStep(st, ps[0], maxTokens, encode), ps[1..], maxTokens, encode);
      assert [ps[0]] + ps[1..] == ps;
    }
  }

  lemma {:induction false} TPackAllOk(st: TState, ps: seq<string>, maxTokens: nat, encode: string -> seq<int>)
    requires TStateOk(st, maxTokens, encode)
    requires forall q | q in ps :: !Blank(q, PySpace)
    ensures TStateOk(TPackAll(st, ps, maxTokens, encode), maxTokens, encode)
    decreases |ps|
  {
    if |ps| > 0 {
      assert ps[0] in ps;
      assert forall q | q in ps[1..] :: q in ps;
      TStepOk(st, ps[0], maxTokens, encode);
      TPackAllOk(TStep(st, ps[0], maxTokens, encode), ps[1..], maxTokens, encode);
    }
  }

  /** The packing's guarantees: paragraphs in order, none lost; packed parts
      within the budget; windowed paragraphs over it; a new chunk starts only
      when the next paragraph would take the pending parts over the budget. */
  lemma TGroupsProperties(ps: seq<string>, maxTokens: nat, encode: string -> seq<int>)
    requires forall q | q in ps :: !Blank(q, PySpace)
    ensures TParasOf(TGroups(ps, maxTokens, encode)) == ps
    ensures forall i | 0 <= i < |TGroups(ps, maxTokens, encode)| :: TGroupOk(TGroups(ps, maxTokens, encode)[i], maxTokens, encode)
    ensures TGreedy(TGroups(ps, maxTokens, encode), maxTokens, encode)
  {
    var init := TState([], []);
    assert TParasOf(init.done) + init.parts + ps == ps;
    TPackAllOk(init, ps, maxTokens, encode);
    TPackAllParas(init, ps, maxTokens, encode);
    var st := TPackAll(init, ps, maxTokens, encode);
    TFlushOk(st, maxTokens, encode);
    if st.parts != [] {
      TParasOfSnoc(st.done, Parts(st.parts));
    }
    assert TParasOf(TFlush(st).done) == TParasOf(st.done) + st.parts;
  }

  /** The decoded windows, stripped, the empty ones dropped. */
  function WindowChunks(ws: seq<seq<int>>, decode: seq<int> -> string): seq<string>
    decreases |ws|
  {
    if |ws| == 0 then []
    else
      var d := Trim(decode(ws[0]), PySpace);
      (if d == "" then [] else [d]) + WindowChunks(ws[1..], decode)
  }

  /** Windows that decode to nothing but white space are dropped. */
  lemma {:induction false} WindowChunksNonEmpty(ws: seq<seq<int>>, decode: seq<int> -> string)
    ensures forall c | c in WindowChunks(ws, decode) :: c != ""
    decreases |ws|
  {
    if |ws| > 0 {
      WindowChunksNonEmpty(ws[1..], decode);
    }
  }

  /** The token windows of a paragraph: `tokens[i : i + max]` for i = 0,
      max, 2 * max, ..., which put back together give its tokens; there are
      ceil(n / max) of them, all of `max` tokens but the last. */
  lemma WindowsProperties(p: string, maxTokens: nat, encode: string -> seq<int>)
    requires maxTokens > 0
    ensures Flatten(Slices(encode(p), maxTokens)) == encode(p)
    ensures forall i | 0 <= i < |Slices(encode(p), maxTokens)| - 1 :: |Slices(encode(p), maxTokens)[i]| == maxTokens
    ensures forall i | 0 <= i < |Slices(encode(p), maxTokens)| :: 0 < |Slices(encode(p), maxTokens)[i]| <= maxTokens
    ensures |encode(p)| > 0 ==>
      (|Slices(encode(p), maxTokens)| - 1) * maxTokens < |encode(p)| <= |Slices(encode(p), maxTokens)| * maxTokens
  {
    SlicesReassemble(encode(p), maxTokens);
    SlicesWidths(encode(p), maxTokens);
    SlicesCount(encode(p), maxTokens);
  }

  function TRenderGroup(g: TGroup, maxTokens: nat, encode: string -> seq<int>, decode: seq<int> -> string): seq<string>
    requires maxTokens > 0
  {
    match g
    case Parts(ps) => [Trim(Join(ps, "\n"), PySpace)]
    case Windows(p) => WindowChunks(Slices(encode(p), maxTokens), decode)
  }

  function TRender(gs: seq<TGroup>, maxTokens: nat, encode: string -> seq<int>, decode: seq<int> -> string): seq<string>
    requires maxTokens > 0
    decreases |gs|
  {
    if |gs| == 0 then [] else TRender(gs[..|gs| - 1], maxTokens, encode, decode) + TRenderGroup(gs[|gs| - 1], maxTokens, encode, decode)
  }

  lemma TRenderSnoc(gs: seq<TGroup>, g: TGroup, maxTokens: nat, encode: string -> seq<int>, decode: seq<int> -> string)
    requires maxTokens > 0
    ensures TRender(gs + [g], maxTokens, encode, decode) == TRender(gs, maxTokens, encode, decode) + TRenderGroup(g, maxTokens, encode, decode)
  {
    assert (gs + [g])[..|gs|] == gs;
  }

  /** `[c for c in chunks if c]` */
  function NonEmpty(cs: seq<string>): (r: seq<string>)
    ensures forall c | c in r :: c != ""
    decreases |cs|
  {
    if |cs| == 0 then [] else (if cs[0] == "" then [] else [cs[0]]) + NonEmpty(cs[1..])
  }

  lemma {:induction false} NonEmptyKeepsAll(cs: seq<string>)
    requires forall c | c in cs :: c != ""
    ensures NonEmpty(cs) == cs
    decreases |cs|
  {
    if |cs| > 0 {
      assert cs[0] in cs;
      assert forall c | c in cs[1..] :: c in cs;
      NonEmptyKeepsAll(cs[1..]);
      assert [cs[0]] + cs[1..] == cs;
    }
  }

  /** The chunks of a text under a token budget. */
  function TokenChunks(text: string, maxTokens: nat, encode: string -> seq<int>, decode: seq<int> -> string): seq<string>
    requires maxTokens > 0
  {
    NonEmpty(TRender(TGroups(InputParagraphs(text), maxTokens, encode), maxTokens, encode, decode))
  }

  /** No rendered chunk is empty, so the final filter keeps every chunk. */
  lemma {:induction false} TRenderNonEmpty(gs: seq<TGroup>, maxTokens: nat, encode: string -> seq<int>, decode: seq<int> -> string)
    requires maxTokens > 0
    requires forall i | 0 <= i < |gs| :: TGroupOk(gs[i], maxTokens, encode)
    ensures forall c | c in TRender(gs, maxTokens, encode, decode) :: c != ""
    decreases |gs|
  {
    if |gs| > 0 {
      var n := |gs|;
      TRenderNonEmpty(gs[..n - 1], maxTokens, encode, decode);
      match gs[n - 1]
      case Parts(ps) =>
        assert Blank("\n", PySpace) by { assert PySpace('\n'); }
        JoinNotBlank(ps, "\n", PySpace);
        TrimEmpty(Join(ps, "\n"), PySpace);
      case Windows(p) => WindowChunksNonEmpty(Slices(encode(p), maxTokens), decode);
    }
  }

  lemma TokenChunksFilterNoOp(text: string, maxTokens: nat, encode: string -> seq<int>, decode: seq<int> -> string)
    requires maxTokens > 0
    ensures TokenChunks(text, maxTokens, encode, decode)
         == TRender(TGroups(InputParagraphs(text), maxTokens, encode), maxTokens, encode, decode)
  {
    var ps := InputParagraphs(text);
    TGroupsProperties(ps, maxTokens, encode);
    TRenderNonEmpty(TGroups(ps, maxTokens, encode), maxTokens, encode, decode);
    NonEmptyKeepsAll(TRender(TGroups(ps, maxTokens, encode), maxTokens, encode, decode));
  }

  /** Grouped chunks hold every non-white-space character of their parts. */
  lemma PartsDense(ps: seq<string>)
    ensures Dense(Flatten([Trim(Join(ps, "\n"), PySpace)]), PySpace) == Dense(Flatten(ps), PySpace)
  {
    var j := Join(ps, "\n");
    FlattenOne(Trim(j, PySpace));
    DenseTrim(j, PySpace);
    assert Blank("\n", PySpace) by { assert PySpace('\n'); }
    DenseJoin(ps, "\n", PySpace);
  }

  lemma {:induction false} TRenderDense(gs: seq<TGroup>, maxTokens: nat, encode: string -> seq<int>, decode: seq<int> -> string)
    requires maxTokens > 0
    requires forall i | 0 <= i < |gs| :: gs[i].Parts?
    ensures Dense(Flatten(TRender(gs, maxTokens, encode, decode)), PySpace) == Dense(Flatten(TParasOf(gs)), PySpace)
    decreases |gs|
  {
    if |gs| == 0 {
      assert Flatten<char>([]) == [];
    } else {
      var n := |gs|;
      TRenderDense(gs[..n - 1], maxTokens, encode, decode);
      DenseFlattenAppend(TRender(gs[..n - 1], maxTokens, encode, decode), TRenderGroup(gs[n - 1], maxTokens, encode, decode), PySpace);
      DenseFlattenAppend(TParasOf(gs[..n - 1]), TGroupParas(gs[n - 1]), PySpace);
      PartsDense(gs[n - 1].parts);
    }
  }

  /** When no paragraph exceeds the budget, the chunks hold every
      non-white-space character of the text, in order. */
  lemma TokenChunksDense(text: string, maxTokens: nat, encode: string -> seq<int>, decode: seq<int> -> string)
    requires maxTokens > 0
    requires forall p | p in InputParagraphs(text) :: |encode(p)| <= maxTokens
    ensures Dense(Flatten(TokenChunks(text, maxTokens, encode, decode)), PySpace) == Dense(text, PySpace)
  {
    var ps := InputParagraphs(text);
    InputParagraphsProperties(text);
    TGroupsProperties(ps, maxTokens, encode);
    var gs := TGroups(ps, maxTokens, encode);
    forall i | 0 <= i < |gs| ensures gs[i].Parts? {
      if gs[i].Windows? {
        assert gs[i].para in TParasOf(gs) by { TParasOfMember(gs, i); }
      }
    }
    TokenChunksFilterNoOp(text, maxTokens, encode, decode);
    TRenderDense(gs, maxTokens, encode, decode);
  }

  lemma {:induction false} TParasOfMember(gs: seq<TGroup>, i: nat)
    requires i < |gs| && gs[i].Windows?
    ensures gs[i].para in TParasOf(gs)
    decreases |gs|
  {
    var n := |gs|;
    if i < n - 1 {
      TParasOfMember(gs[..n - 1], i);
    }
  }

  /** A request field: absent from the JSON body, present with the value the
      handler needs, or present but unusable (`int()` raising on
      `max_tokens`, a `text` that is not a string). */
  datatype Field<T> = Absent | Present(value: T) | Unusable

  datatype ChunkRequest = ChunkRequest(text: Field<string>, maxTokens: Field<int>)

  /** 400 with a message, 500 from an exception, or 200 with the fields. */
  datatype ChunkResponse =
    | BadRequest(error: string)
    | ServerError
    | Chunked(chunks: seq<string>, chunkCount: int, maxTokensSetting: int, actualTotalTokens: int)

  function Status(r: ChunkResponse): int
  {
    match r
    case BadRequest(_) => 400
    case ServerError => 500
    case Chunked(_, _, _, _) => 200
  }

  /** `sum(len(encode(c)) for c in chunks)` */
  function TokenTotal(cs: seq<string>, encode: string -> seq<int>): nat
  {
    TokenSum(cs, encode)
  }

  function ChunkResponseOf(req: ChunkRequest, encode: string -> seq<int>, decode: seq<int> -> string): ChunkResponse
  {
    if req.text.Absent? || req.maxTokens.Absent? then BadRequest("Missing required parameters")
    else if req.maxTokens.Unusable? then ServerError
    else if req.maxTokens.value <= 0 then BadRequest("max_tokens must be positive")
    else if req.text.Unusable? then ServerError
    else
      var chunks := TokenChunks(req.text.value, req.maxTokens.value, encode, decode);
      Chunked(chunks, |chunks|, req.maxTokens.value, TokenTotal(chunks, encode))
  }

  /** The request is rejected with 400 exactly when a parameter is missing or
      the budget is not positive, and then nothing is chunked; a 200 answer
      carries non-empty chunks, their count, the budget it was given and the
      re-encoded token total. */
  lemma ChunkResponseProperties(req: ChunkRequest, encode: string -> seq<int>, decode: seq<int> -> string)
    ensures var r := ChunkResponseOf(req, encode, decode);
      && (Status(r) == 400 <==>
            req.text.Absent? || req.maxTokens.Absent? || (req.maxTokens.Present? && req.maxTokens.value <= 0))
      && (Status(r) == 200 <==> req.text.Present? && req.maxTokens.Present? && req.maxTokens.value > 0)
      && (r.Chunked? ==>
            && r.chunkCount == |r.chunks|
            && r.maxTokensSetting == req.maxTokens.value
            && r.actualTotalTokens == TokenSum(r.chunks, encode)
            && (forall c | c in r.chunks :: c != "")
            && r.chunks == TRender(TGroups(InputParagraphs(req.text.value), req.maxTokens.value, encode),
                                   req.maxTokens.value, encode, decode))
  {
    if req.text.Present? && req.maxTokens.Present? && req.maxTokens.value > 0 {
      TokenChunksFilterNoOp(req.text.value, req.maxTokens.value, encode, decode);
    }
  }

  /** An entry of the `/tokenize` preview: a token id or the `'...'` marker. */
  datatype PreviewItem = Id(id: int) | Ellipsis

  function Ids(ids: seq<int>): (r: seq<PreviewItem>)
    ensures |r| == |ids| && forall i | 0 <= i < |ids| :: r[i] == Id(ids[i])
  {
    seq(|ids|, i requires 0 <= i < |ids| => Id(ids[i]))
  }

  /** 400 with the missing-text message, 500 from the tokenizer's exception,
      or 200 with the count and the preview. */
  datatype TokenizeResponse =
    | MissingText(error: string)
    | TokenizeError
    | Tokenized(tokenCount: int, tokens: seq<PreviewItem>)

  const MissingTextMessage := "Missing text parameter"

  function TokenizeStatus(r: TokenizeResponse): int
  {
    match r
    case MissingText(_) => 400
    case TokenizeError => 500
    case Tokenized(_, _) => 200
  }

  /** `/tokenize`: `encodeWithSpecial` is `tokenizer.encode(text)`, with the
      tokenizer's special tokens. */
  function Tokenize(text: Field<string>, encodeWithSpecial: string -> seq<int>): TokenizeResponse
  {
    match text
    case Absent => MissingText(MissingTextMessage)
    case Unusable => TokenizeError
    case Present(t) =>
      var ids := encodeWithSpecial(t);
      var n := |ids|;
      Tokenized(n, Ids(ids[..Min(10, n)]) + (if n <= 10 then [] else [Ellipsis]) + (if n <= 20 then [] else Ids(ids[n - 10..])))
  }

  /** A missing text is answered 400 with the page's message, a text the
      tokenizer cannot take 500, and any other text 200. The count is the
      number of ids; the preview is all of them when there are at most 10,
      the first 10 and the marker when there are at most 20, and the first
      10, the marker and the last 10 otherwise. */
  lemma TokenizeProperties(text: Field<string>, encodeWithSpecial: string -> seq<int>)
    ensures text.Absent? <==> Tokenize(text, encodeWithSpecial) == MissingText(MissingTextMessage)
    ensures text.Unusable? <==> Tokenize(text, encodeWithSpecial).TokenizeError?
    ensures TokenizeStatus(Tokenize(text, encodeWithSpecial))
         == (if text.Absent? then 400 else if text.Unusable? then 500 else 200)
    ensures text.Present? ==>
      var ids := encodeWithSpecial(text.value);
      var r := Tokenize(text, encodeWithSpecial);
      && r.Tokenized? && r.tokenCount == |ids|
      && |r.tokens| == (if |ids| <= 10 then |ids| else if |ids| <= 20 then 11 else 21)
      && (forall i | 0 <= i < Min(10, |ids|) :: r.tokens[i] == Id(ids[i]))
      && (|ids| > 10 ==> r.tokens[10] == Ellipsis)
      && (|ids| > 20 ==> forall i | 11 <= i < 21 :: r.tokens[i] == Id(ids[|ids| - 21 + i]))
  {
  }
}
