/** `chunk_text` of the tokenizer server, with the loops the handler runs:
    the `for` over paragraphs that appends to `chunks_list` and the `while`
    over a large paragraph's token windows. */
module TokenChunker {
  import opened Seqs
  import opened Text
  import opened TokenChunkerSpec

  /** The tokens from `idx` on; empty once `idx` has passed the end. */
  function From(tokens: seq<int>, idx: nat): seq<int>
  {
    if idx >= |tokens| then [] else tokens[idx..]
  }

  /** One turn of the window loop: the window at `idx`, then the windows
      from `next = idx + max` on. */
  lemma WindowStep(out: seq<string>, tokens: seq<int>, idx: nat, next: nat, maxTokens: nat, decode: seq<int> -> string)
    requires maxTokens > 0 && idx < |tokens| && next == idx + maxTokens
    ensures var d := Trim(decode(tokens[idx..Min(next, |tokens|)]), PySpace);
      out + WindowChunks(Slices(From(tokens, idx), maxTokens), decode)
        == (if d == "" then out else out + [d]) + WindowChunks(Slices(From(tokens, next), maxTokens), decode)
  {
    var w := tokens[idx..Min(next, |tokens|)];
    var later := Slices(From(tokens, next), maxTokens);
    var d := Trim(decode(w), PySpace);
    var e: seq<string> := if d == "" then [] else [d];
    WindowsFrom(tokens, idx, next, maxTokens);
    WindowChunksCons(w, later, decode);
    AppendAssoc(out, e, WindowChunks(later, decode));
    assert out + e == if d == "" then out else out + [d];
  }

  /** The windows from `idx` on: the one at `idx`, then those from
      `next = idx + max` on. */
  lemma WindowsFrom(tokens: seq<int>, idx: nat, next: nat, maxTokens: nat)
    requires maxTokens > 0 && idx < |tokens| && next == idx + maxTokens
    ensures Slices(From(tokens, idx), maxTokens)
         == [tokens[idx..Min(next, |tokens|)]] + Slices(From(tokens, next), maxTokens)
  {
    var rest := From(tokens, idx);
    var k := Min(maxTokens, |rest|);
    assert tokens[idx..Min(next, |tokens|)] == rest[..k];
    assert From(tokens, next) == rest[k..];
  }

  lemma WindowChunksCons(w: seq<int>, later: seq<seq<int>>, decode: seq<int> -> string)
    ensures var d := Trim(decode(w), PySpace);
      WindowChunks([w] + later, decode) == (if d == "" then [] else [d]) + WindowChunks(later, decode)
  {
    assert ([w] + later)[0] == w && ([w] + later)[1..] == later;
  }

  /** The `while idx < len(paragraph_tokens)` loop: each window
      `tokens[idx : idx + max]` is decoded and stripped, and kept when not
      empty. */
  method EmitWindows(tokens: seq<int>, maxTokens: nat, decode: seq<int> -> string) returns (out: seq<string>)
    requires maxTokens > 0
    ensures out == WindowChunks(Slices(tokens, maxTokens), decode)
  {
    out := [];
    var idx: nat := 0;
    ghost var all := WindowChunks(Slices(tokens, maxTokens), decode);
    WindowsStart(tokens, maxTokens, decode);
    while idx < |tokens|
      invariant out + WindowChunks(Slices(From(tokens, idx), maxTokens), decode) == all
      decreases |tokens| - idx
    {
      var next: nat := idx + maxTokens;
      var window := tokens[idx..Min(next, |tokens|)];
      var decoded := Trim(decode(window), PySpace);
      WindowStep(out, tokens, idx, next, maxTokens, decode);
      if decoded != "" {
        out := out + [decoded];
      }
      idx := next;
    }
    WindowsEnd(out, tokens, idx, maxTokens, decode);
  }

  lemma WindowsStart(tokens: seq<int>, maxTokens: nat, decode: seq<int> -> string)
    requires maxTokens > 0
    ensures [] + WindowChunks(Slices(From(tokens, 0), maxTokens), decode) == WindowChunks(Slices(tokens, maxTokens), decode)
  {
    assert From(tokens, 0) == tokens;
  }

  lemma WindowsEnd(out: seq<string>, tokens: seq<int>, idx: nat, maxTokens: nat, decode: seq<int> -> string)
    requires maxTokens > 0 && idx >= |tokens|
    ensures out + WindowChunks(Slices(From(tokens, idx), maxTokens), decode) == out
  {
    assert From(tokens, idx) == [];
    assert out + [] == out;
  }

  /** The packing loop over the paragraphs, then the flush of the last
      parts. `count` is `current_chunk_token_count`. */
  method PackParagraphs(paragraphs: seq<string>, maxTokens: nat, encode: string -> seq<int>, decode: seq<int> -> string)
    returns (chunksList: seq<string>)
    requires maxTokens > 0
    ensures chunksList == TRender(TGroups(paragraphs, maxTokens, encode), maxTokens, encode, decode)
  {
    chunksList := [];
    var parts: seq<string> := [];
    var count := 0;
    ghost var st := TState([], []);
    for i := 0 to |paragraphs|
      invariant parts == st.parts && count == TokenSum(parts, encode) && count <= maxTokens
      invariant chunksList == TRender(st.done, maxTokens, encode, decode)
      invariant TFlush(TPackAll(st, paragraphs[i..], maxTokens, encode)).done == TGroups(paragraphs, maxTokens, encode)
    {
      var p := paragraphs[i];
      assert paragraphs[i..][1..] == paragraphs[i + 1..];
      var tokens := encode(p);
      ghost var st' := TStep(st, p, maxTokens, encode);
      if |tokens| > maxTokens {
        if |parts| > 0 {
          TRenderSnoc(st.done, Parts(parts), maxTokens, encode, decode);
          chunksList := chunksList + [Trim(Join(parts, "\n"), PySpace)];
          parts := [];
          count := 0;
        }
        var windows := EmitWindows(tokens, maxTokens, decode);
        TRenderSnoc(TFlush(st).done, Windows(p), maxTokens, encode, decode);
        chunksList := chunksList + windows;
      } else if |parts| > 0 && count + |tokens| > maxTokens {
        TRenderSnoc(st.done, Parts(parts), maxTokens, encode, decode);
        chunksList := chunksList + [Trim(Join(parts, "\n"), PySpace)];
        parts := [p];
        count := |tokens|;
        TokenSumSnoc([], p, encode);
        assert [] + [p] == [p];
      } else {
        TokenSumSnoc(parts, p, encode);
        parts := parts + [p];
        count := count + |tokens|;
      }
      st := st';
    }
    if |parts| > 0 {
      TRenderSnoc(st.done, Parts(parts), maxTokens, encode, decode);
      chunksList := chunksList + [Trim(Join(parts, "\n"), PySpace)];
    }
  }

  /** The `/chunk` handler: validation, then paragraphs, packing, the final
      filter and the response fields. */
  method ChunkText(req: ChunkRequest, encode: string -> seq<int>, decode: seq<int> -> string) returns (resp: ChunkResponse)
    ensures resp == ChunkResponseOf(req, encode, decode)
  {
    if req.text.Absent? || req.maxTokens.Absent? {
      return BadRequest("Missing required parameters");
    }
    if req.maxTokens.Unusable? {
      return ServerError;
    }
    var maxTokens := req.maxTokens.value;
    if maxTokens <= 0 {
      return BadRequest("max_tokens must be positive");
    }
    if req.text.Unusable? {
      return ServerError;
    }
    var paragraphs := InputParagraphs(req.text.value);
    var chunksList := PackParagraphs(paragraphs, maxTokens, encode, decode);
    chunksList := NonEmpty(chunksList);
    var total := TokenTotal(chunksList, encode);
    resp := Chunked(chunksList, |chunksList|, maxTokens, total);
  }
}
