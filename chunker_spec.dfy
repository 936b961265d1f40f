/** The character-budget fallback of the chunk viewer, as functions: how the
    text is cut into lines and paragraphs, how paragraphs are packed into
    groups, and how groups become chunks. The imperative code in
    `chunker.dfy` is proved to compute exactly these. */
module ChunkerSpec {
  import opened Seqs
  import opened Text

  /** `text.split(/\r?\n/)`: the pieces between newlines, each losing the
      carriage return that preceded its newline (the last piece is not
      followed by a newline and keeps it). */
  function Lines(text: string): (r: seq<string>)
    ensures |r| == |SplitOn(text, '\n')|
  {
    var pieces := SplitOn(text, '\n');
    seq(|pieces|, i requires 0 <= i < |pieces| => if i < |pieces| - 1 then DropCR(pieces[i]) else pieces[i])
  }

  function DropCR(s: string): string
  {
    if |s| > 0 && s[|s| - 1] == '\r' then s[..|s| - 1] else s
  }

  /** Cutting into lines removes only newlines and carriage returns. */
  lemma LinesDense(text: string)
    ensures Dense(Flatten(Lines(text)), JsSpace) == Dense(text, JsSpace)
  {
    var pieces := SplitOn(text, '\n');
    var lines := Lines(text);
    forall i | 0 <= i < |lines| ensures Dense(lines[i], JsSpace) == Dense(pieces[i], JsSpace) {
      var s := pieces[i];
      if i < |pieces| - 1 && |s| > 0 && s[|s| - 1] == '\r' {
        assert s == s[..|s| - 1] + ['\r'];
        DenseAppend(s[..|s| - 1], ['\r'], JsSpace);
      }
    }
    DenseFlattenPointwise(lines, pieces, JsSpace);
    DenseJoin(pieces, "\n", JsSpace);
    SplitOnJoin(text, '\n');
  }

  /** The paragraph a non-empty line buffer becomes: its lines joined by "\n". */
  function Emit(buffer: seq<string>): seq<string>
  {
    if buffer == [] then [] else [Join(buffer, "\n")]
  }

  /** Paragraphs of the remaining lines, given the lines already buffered:
      a blank line closes the buffered paragraph, any other line is buffered,
      and the end of the text closes the last one. */
  function ParagraphsFrom(lines: seq<string>, buffer: seq<string>): seq<string>
    decreases |lines|
  {
    if |lines| == 0 then Emit(buffer)
    else if Blank(lines[0], JsSpace) then Emit(buffer) + ParagraphsFrom(lines[1..], [])
    else ParagraphsFrom(lines[1..], buffer + [lines[0]])
  }

  function Paragraphs(lines: seq<string>): seq<string>
  {
    ParagraphsFrom(lines, [])
  }

  /** Every paragraph holds a character that is not white space. */
  lemma {:induction false} ParagraphsNotBlank(lines: seq<string>, buffer: seq<string>)
    requires forall q | q in buffer :: !Blank(q, JsSpace)
    ensures forall p | p in ParagraphsFrom(lines, buffer) :: !Blank(p, JsSpace)
    decreases |lines|
  {
    if buffer != [] {
      JoinNotBlank(buffer, "\n", JsSpace);
    }
    if |lines| > 0 {
      if Blank(lines[0], JsSpace) {
        ParagraphsNotBlank(lines[1..], []);
      } else {
        ParagraphsNotBlank(lines[1..], buffer + [lines[0]]);
      }
    }
  }

  lemma EmitDense(buffer: seq<string>)
    ensures Dense(Flatten(Emit(buffer)), JsSpace) == Dense(Flatten(buffer), JsSpace)
  {
    if buffer != [] {
      assert Flatten([Join(buffer, "\n")]) == Join(buffer, "\n");
      DenseJoin(buffer, "\n", JsSpace);
    }
  }

  /** Grouping into paragraphs drops only white space: blank lines and the
      line breaks between lines. */
  lemma {:induction false} ParagraphsDense(lines: seq<string>, buffer: seq<string>)
    ensures Dense(Flatten(ParagraphsFrom(lines, buffer)), JsSpace)
         == Dense(Flatten(buffer), JsSpace) + Dense(Flatten(lines), JsSpace)
    decreases |lines|
  {
    EmitDense(buffer);
    if |lines| == 0 {
      assert Flatten(lines) == [];
    } else {
      var l, rest := lines[0], lines[1..];
      assert lines == [l] + rest;
      DenseFlattenCons(l, rest, JsSpace);
      if Blank(l, JsSpace) {
        DenseBlank(l, JsSpace);
        ParagraphsDense(rest, []);
        DenseFlattenAppend(Emit(buffer), ParagraphsFrom(rest, []), JsSpace);
        assert Flatten<char>([]) == [];
      } else {
        ParagraphsDense(rest, buffer + [l]);
        DenseFlattenSnoc(buffer, l, JsSpace);
      }
    }
  }

  /** Lines that are all non-blank form one paragraph: lines inside a
      paragraph are never separated. */
  lemma {:induction false} ParagraphsOfRun(lines: seq<string>, buffer: seq<string>)
    requires forall i | 0 <= i < |lines| :: !Blank(lines[i], JsSpace)
    ensures ParagraphsFrom(lines, buffer) == Emit(buffer + lines)
    decreases |lines|
  {
    if |lines| == 0 {
      assert buffer + lines == buffer;
    } else {
      ParagraphsOfRun(lines[1..], buffer + [lines[0]]);
      assert buffer + [lines[0]] + lines[1..] == buffer + lines;
    }
  }

  /** A blank line ends the paragraph before it and starts afresh. */
  lemma {:induction false} ParagraphsBreak(a: seq<string>, blank: string, b: seq<string>, buffer: seq<string>)
    requires Blank(blank, JsSpace)
    ensures ParagraphsFrom(a + [blank] + b, buffer) == ParagraphsFrom(a, buffer) + Paragraphs(b)
    decreases |a|
  {
    if |a| == 0 {
      assert a + [blank] + b == [blank] + b;
      assert ([blank] + b)[1..] == b;
    } else {
      assert (a + [blank] + b)[1..] == a[1..] + [blank] + b;
      if Blank(a[0], JsSpace) {
        ParagraphsBreak(a[1..], blank, b, []);
      } else {
        ParagraphsBreak(a[1..], blank, b, buffer + [a[0]]);
      }
    }
  }

  /** A run of blank lines acts as a single break. */
  lemma BlankRunIsOneBreak(a: seq<string>, blank1: string, blank2: string, b: seq<string>)
    requires Blank(blank1, JsSpace) && Blank(blank2, JsSpace)
    ensures Paragraphs(a + [blank1, blank2] + b) == Paragraphs(a + [blank1] + b)
  {
    assert a + [blank1, blank2] + b == a + [blank1] + ([blank2] + b);
    ParagraphsBreak(a, blank1, [blank2] + b, []);
    ParagraphsBreak(a, blank1, b, []);
    assert ([blank2] + b)[1..] == b;
  }

  /** What a group of paragraphs becomes: paragraphs packed together into one
      chunk, or one paragraph above the budget cut into slices. */
  datatype Group = Packed(paras: seq<string>) | Split(para: string)

  /** The packer's state: the paragraphs of the chunk being built, and the
      groups already closed. */
  datatype PackState = PackState(pending: seq<string>, done: seq<Group>)

  /** Closing the chunk being built, if there is one. */
  function Flush(st: PackState): PackState
  {
    if st.pending == [] then st else PackState([], st.done + [Packed(st.pending)])
  }

  /** One paragraph: it joins the chunk being built when that chunk is
      non-empty and the two, with the "\n\n" between them, stay within the
      budget; otherwise the chunk is closed and the paragraph starts the
      next one, or, if it is larger than the budget on its own, is split. */
  function Step(st: PackState, p: string, maxChars: nat): PackState
  {
    if st.pending != [] && |Join(st.pending, "\n\n")| + 2 + |p| <= maxChars then
      PackState(st.pending + [p], st.done)
    else if |p| <= maxChars then PackState([p], Flush(st).done)
    else PackState([], Flush(st).done + [Split(p)])
  }

  function PackAll(st: PackState, ps: seq<string>, maxChars: nat): PackState
    decreases |ps|
  {
    if |ps| == 0 then st else PackAll(Step(st, ps[0], maxChars), ps[1..], maxChars)
  }

  lemma {:induction false} PackAllAppend(st: PackState, a: seq<string>, b: seq<string>, maxChars: nat)
    ensures PackAll(st, a + b, maxChars) == PackAll(PackAll(st, a, maxChars), b, maxChars)
    decreases |a|
  {
    if |a| == 0 {
      assert a + b == b;
    } else {
      assert (a + b)[1..] == a[1..] + b;
      PackAllAppend(Step(st, a[0], maxChars), a[1..], b, maxChars);
    }
  }

  /** A blank line hands the buffered paragraph, if any, to the packer. */
  lemma PackBlankLine(st: PackState, line: string, rest: seq<string>, buffer: seq<string>, maxChars: nat)
    requires Blank(line, JsSpace)
    ensures PackAll(st, ParagraphsFrom([line] + rest, buffer), maxChars)
         == PackAll(if buffer == [] then st else Step(st, Join(buffer, "\n"), maxChars), ParagraphsFrom(rest, []), maxChars)
  {
    assert ([line] + rest)[1..] == rest;
    PackAllAppend(st, Emit(buffer), ParagraphsFrom(rest, []), maxChars);
    if buffer != [] {
      assert [Join(buffer, "\n")][1..] == [];
    }
  }

  /** Any other line is buffered. */
  lemma BufferLine(line: string, rest: seq<string>, buffer: seq<string>)
    requires !Blank(line, JsSpace)
    ensures ParagraphsFrom([line] + rest, buffer) == ParagraphsFrom(rest, buffer + [line])
  {
    assert ([line] + rest)[1..] == rest;
  }

  /** The groups of a paragraph sequence under a budget. */
  function Groups(ps: seq<string>, maxChars: nat): seq<Group>
  {
    Flush(PackAll(PackState([], []), ps, maxChars)).done
  }

  /** The paragraphs of a group sequence, in order. */
  function ParasOf(gs: seq<Group>): seq<string>
    decreases |gs|
  {
    if |gs| == 0 then []
    else ParasOf(gs[..|gs| - 1]) + GroupParas(gs[|gs| - 1])
  }

  function GroupParas(g: Group): seq<string>
  {
    match g
    case Packed(ps) => ps
    case Split(p) => [p]
  }

  lemma ParasOfSnoc(gs: seq<Group>, g: Group)
    ensures ParasOf(gs + [g]) == ParasOf(gs) + GroupParas(g)
  {
    assert (gs + [g])[..|gs|] == gs;
  }

  function FirstPara(g: Group): string
  {
    match g
    case Packed(ps) => if ps == [] then "" else ps[0]
    case Split(p) => p
  }

  /** A packed group is non-empty, made of non-empty paragraphs and within the
      budget; a split paragraph is larger than the budget. */
  ghost predicate GroupOk(g: Group, maxChars: nat)
  {
    match g
    case Packed(ps) => ps != [] && (forall q | q in ps :: q != "") && |Join(ps, "\n\n")| <= maxChars
    case Split(p) => |p| > maxChars
  }

  /** Greedy packing: a packed chunk was closed only because the next
      paragraph would not have fitted in it. */
  ghost predicate Greedy(gs: seq<Group>, maxChars: nat)
  {
    forall i | 0 <= i < |gs| - 1 ::
      gs[i].Packed? ==> |Join(gs[i].paras, "\n\n")| + 2 + |FirstPara(gs[i + 1])| > maxChars
  }

  ghost predicate StateOk(st: PackState, maxChars: nat)
  {
    && (forall i | 0 <= i < |st.done| :: GroupOk(st.done[i], maxChars))
    && Greedy(st.done, maxChars)
    && (forall q | q in st.pending :: q != "")
    && |Join(st.pending, "\n\n")| <= maxChars
    && (st.done != [] && st.done[|st.done| - 1].Packed? ==>
          st.pending != [] && |Join(st.done[|st.done| - 1].paras, "\n\n")| + 2 + |st.pending[0]| > maxChars)
  }

  /** Closing the chunk being built keeps the groups well formed and greedy. */
  lemma FlushOk(st: PackState, maxChars: nat)
    requires StateOk(st, maxChars)
    ensures forall i | 0 <= i < |Flush(st).done| :: GroupOk(Flush(st).done[i], maxChars)
    ensures Greedy(Flush(st).done, maxChars)
  {
    if st.pending != [] {
      var d := st.done + [Packed(st.pending)];
      assert forall i | 0 <= i < |st.done| :: d[i] == st.done[i];
    }
  }

  lemma StepOk(st: PackState, p: string, maxChars: nat)
    requires StateOk(st, maxChars) && p != ""
    ensures StateOk(Step(st, p, maxChars), maxChars)
  {
    if st.pending != [] && |Join(st.pending, "\n\n")| + 2 + |p| <= maxChars {
      StepOkAdd(st, p, maxChars);
    } else {
      StepOkClose(st, p, maxChars);
    }
  }

  /** The paragraph joins the chunk being built. */
  lemma StepOkAdd(st: PackState, p: string, maxChars: nat)
    requires StateOk(st, maxChars) && p != ""
    requires st.pending != [] && |Join(st.pending, "\n\n")| + 2 + |p| <= maxChars
    ensures StateOk(PackState(st.pending + [p], st.done), maxChars)
  {
    JoinAppend(st.pending, p, "\n\n");
    assert (st.pending + [p])[0] == st.pending[0];
  }

  /** The chunk being built is closed; the paragraph starts the next one,
      or is split when it is too long on its own. */
  lemma StepOkClose(st: PackState, p: string, maxChars: nat)
    requires StateOk(st, maxChars) && p != ""
    requires !(st.pending != [] && |Join(st.pending, "\n\n")| + 2 + |p| <= maxChars)
    ensures |p| <= maxChars ==> StateOk(PackState([p], Flush(st).done), maxChars)
    ensures |p| > maxChars ==> StateOk(PackState([], Flush(st).done + [Split(p)]), maxChars)
  {
    FlushOk(st, maxChars);
    var f := Flush(st);
    assert f.done != [] && f.done[|f.done| - 1].Packed? ==>
      |Join(f.done[|f.done| - 1].paras, "\n\n")| + 2 + |p| > maxChars;
    if |p| > maxChars {
      var d := f.done + [Split(p)];
      assert forall i | 0 <= i < |f.done| :: d[i] == f.done[i];
    }
  }

  lemma StepParas(st: PackState, p: string, maxChars: nat)
    ensures ParasOf(Step(st, p, maxChars).done) + Step(st, p, maxChars).pending == ParasOf(st.done) + st.pending + [p]
  {
    if st.pending != [] && |Join(st.pending, "\n\n")| + 2 + |p| <= maxChars {
    } else if st.pending == [] {
      if |p| > maxChars { ParasOfSnoc(st.done, Split(p)); }
    } else {
      ParasOfSnoc(st.done, Packed(st.pending));
      if |p| > maxChars { ParasOfSnoc(st.done + [Packed(st.pending)], Split(p)); }
    }
  }

  lemma {:induction false} PackAllOk(st: PackState, ps: seq<string>, maxChars: nat)
    requires StateOk(st, maxChars)
    requires forall q | q in ps :: q != ""
    ensures StateOk(PackAll(st, ps, maxChars), maxChars)
    ensures ParasOf(PackAll(st, ps, maxChars).done) + PackAll(st, ps, maxChars).pending
         == ParasOf(st.done) + st.pending + ps
  {
    PackAllStateOk(st, ps, maxChars);
    PackAllParas(st, ps, maxChars);
  }

  lemma {:induction false} PackAllStateOk(st: PackState, ps: seq<string>, maxChars: nat)
    requires StateOk(st, maxChars)
    requires forall q | q in ps :: q != ""
    ensures StateOk(PackAll(st, ps, maxChars), maxChars)
    decreases |ps|
  {
    if |ps| > 0 {
      var p, rest := ps[0], ps[1..];
      assert p in ps;
      assert forall q | q in rest :: q in ps;
      StepOk(st, p, maxChars);
      PackAllStateOk(Step(st, p, maxChars), rest, maxChars);
    }
  }

  lemma {:induction false} PackAllParas(st: PackState, ps: seq<string>, maxChars: nat)
    ensures ParasOf(PackAll(st, ps, maxChars).done) + PackAll(st, ps, maxChars).pending
         == ParasOf(st.done) + st.pending + ps
    decreases |ps|
  {
    if |ps| == 0 {
      assert ParasOf(st.done) + st.pending + ps == ParasOf(st.done) + st.pending;
    } else {
      var p, rest := ps[0], ps[1..];
      var st' := Step(st, p, maxChars);
      StepParas(st, p, maxChars);
      PackAllParas(st', rest, maxChars);
      var before := ParasOf(st.done) + st.pending;
      var last := PackAll(st', rest, maxChars);
      calc {
        ParasOf(last.done) + last.pending;
        ParasOf(st'.done) + st'.pending + rest;
        before + [p] + rest;
        { AppendAssoc(before, [p], rest); assert [p] + rest == ps; }
        before + ps;
      }
    }
  }

  /** The packing's guarantees: the groups hold the paragraphs in order, none
      lost and none cut across two groups; packed groups fit the budget and
      split paragraphs exceed it; and a chunk is closed only when the next
      paragraph would not fit. */
  lemma GroupsProperties(ps: seq<string>, maxChars: nat)
    requires forall q | q in ps :: q != ""
    ensures ParasOf(Groups(ps, maxChars)) == ps
    ensures forall i | 0 <= i < |Groups(ps, maxChars)| :: GroupOk(Groups(ps, maxChars)[i], maxChars)
    ensures Greedy(Groups(ps, maxChars), maxChars)
  {
    var init := PackState([], []);
    assert ParasOf(init.done) + init.pending + ps == ps;
    PackAllOk(init, ps, maxChars);
    var st := PackAll(init, ps, maxChars);
    FlushOk(st, maxChars);
    if st.pending != [] {
      ParasOfSnoc(st.done, Packed(st.pending));
    }
    assert ParasOf(Flush(st).done) == ParasOf(st.done) + st.pending;
  }

  /** `substring` slices, each trimmed as it is pushed. */
  function TrimEach(ss: seq<string>): (r: seq<string>)
    ensures |r| == |ss|
    ensures forall i | 0 <= i < |ss| :: r[i] == Trim(ss[i], JsSpace)
    decreases |ss|
  {
    if |ss| == 0 then [] else [Trim(ss[0], JsSpace)] + TrimEach(ss[1..])
  }

  /** The chunks one group becomes. */
  function RenderGroup(g: Group, maxChars: nat): seq<string>
    requires maxChars > 0
  {
    match g
    case Packed(ps) => [Trim(Join(ps, "\n\n"), JsSpace)]
    case Split(p) => TrimEach(Slices(p, maxChars))
  }

  function Render(gs: seq<Group>, maxChars: nat): seq<string>
    requires maxChars > 0
    decreases |gs|
  {
    if |gs| == 0 then [] else Render(gs[..|gs| - 1], maxChars) + RenderGroup(gs[|gs| - 1], maxChars)
  }

  lemma RenderSnoc(gs: seq<Group>, g: Group, maxChars: nat)
    requires maxChars > 0
    ensures Render(gs + [g], maxChars) == Render(gs, maxChars) + RenderGroup(g, maxChars)
  {
    assert (gs + [g])[..|gs|] == gs;
  }

  /** Every chunk is within the budget. */
  lemma {:induction false} RenderBound(gs: seq<Group>, maxChars: nat)
    requires maxChars > 0
    requires forall i | 0 <= i < |gs| :: GroupOk(gs[i], maxChars)
    ensures forall c | c in Render(gs, maxChars) :: |c| <= maxChars
    decreases |gs|
  {
    if |gs| > 0 {
      var n := |gs|;
      RenderBound(gs[..n - 1], maxChars);
      match gs[n - 1]
      case Packed(ps) =>
      case Split(p) => SlicesWidths(p, maxChars);
    }
  }

  lemma PackedDense(ps: seq<string>)
    ensures Dense(Flatten([Trim(Join(ps, "\n\n"), JsSpace)]), JsSpace) == Dense(Flatten(ps), JsSpace)
  {
    var j := Join(ps, "\n\n");
    var t := Trim(j, JsSpace);
    FlattenOne(t);
    DenseTrim(j, JsSpace);
    assert Blank("\n\n", JsSpace) by { assert JsSpace('\n'); }
    DenseJoin(ps, "\n\n", JsSpace);
  }

  lemma SplitDense(p: string, maxChars: nat)
    requires maxChars > 0
    ensures Dense(Flatten(TrimEach(Slices(p, maxChars))), JsSpace) == Dense(Flatten([p]), JsSpace)
  {
    assert Flatten([p]) == p;
    var sl := Slices(p, maxChars);
    var tr := TrimEach(sl);
    forall i | 0 <= i < |sl| ensures Dense(tr[i], JsSpace) == Dense(sl[i], JsSpace) {
      DenseTrim(sl[i], JsSpace);
    }
    DenseFlattenPointwise(tr, sl, JsSpace);
    SlicesReassemble(p, maxChars);
  }

  /** Rendering one group keeps every non-white-space character, in order. */
  lemma RenderGroupDense(g: Group, maxChars: nat)
    requires maxChars > 0
    ensures Dense(Flatten(RenderGroup(g, maxChars)), JsSpace) == Dense(Flatten(GroupParas(g)), JsSpace)
  {
    match g
    case Packed(ps) => PackedDense(ps);
    case Split(p) => SplitDense(p, maxChars);
  }

  /** Rendering keeps every non-white-space character, in order. */
  lemma {:induction false} RenderDense(gs: seq<Group>, maxChars: nat)
    requires maxChars > 0
    ensures Dense(Flatten(Render(gs, maxChars)), JsSpace) == Dense(Flatten(ParasOf(gs)), JsSpace)
    decreases |gs|
  {
    if |gs| == 0 {
      assert Flatten<char>([]) == [];
    } else {
      var n := |gs|;
      RenderDense(gs[..n - 1], maxChars);
      DenseFlattenAppend(Render(gs[..n - 1], maxChars), RenderGroup(gs[n - 1], maxChars), JsSpace);
      DenseFlattenAppend(ParasOf(gs[..n - 1]), GroupParas(gs[n - 1]), JsSpace);
      RenderGroupDense(gs[n - 1], maxChars);
    }
  }

  /** The chunks of the fallback, before empty ones are filtered out. */
  function ChunksOf(text: string, maxChars: nat): seq<string>
    requires maxChars > 0
  {
    Render(Groups(Paragraphs(Lines(text)), maxChars), maxChars)
  }

  /** `chunks.filter(c => c.trim().length > 0)` */
  function FilterNonBlank(cs: seq<string>): (r: seq<string>)
    ensures forall c | c in r :: !Blank(c, JsSpace)
    ensures forall c | c in r :: c in cs
    ensures forall c | c in cs && !Blank(c, JsSpace) :: c in r
    decreases |cs|
  {
    if |cs| == 0 then []
    else
      assert cs == cs[..|cs| - 1] + [cs[|cs| - 1]];
      var r := FilterNonBlank(cs[..|cs| - 1]);
      if Blank(cs[|cs| - 1], JsSpace) then r else r + [cs[|cs| - 1]]
  }

  /** Only blank chunks are filtered out, so no non-white-space character is lost. */
  lemma {:induction false} FilterNonBlankDense(cs: seq<string>)
    ensures Dense(Flatten(FilterNonBlank(cs)), JsSpace) == Dense(Flatten(cs), JsSpace)
    decreases |cs|
  {
    if |cs| > 0 {
      var n := |cs|;
      var last := cs[n - 1];
      var r := FilterNonBlank(cs[..n - 1]);
      FilterNonBlankDense(cs[..n - 1]);
      DenseAppend(Flatten(cs[..n - 1]), last, JsSpace);
      if Blank(last, JsSpace) {
        DenseBlank(last, JsSpace);
      } else {
        assert (r + [last])[..|r|] == r;
        DenseAppend(Flatten(r), last, JsSpace);
      }
    }
  }

  /** Filtering keeps a list whose chunks are all non-blank as it is. */
  lemma {:induction false} FilterKeepsAll(cs: seq<string>)
    requires forall i | 0 <= i < |cs| :: !Blank(cs[i], JsSpace)
    ensures FilterNonBlank(cs) == cs
    decreases |cs|
  {
    if |cs| > 0 {
      FilterKeepsAll(cs[..|cs| - 1]);
      assert cs[..|cs| - 1] + [cs[|cs| - 1]] == cs;
    }
  }

  /** The fallback's chunks: within the budget, and together they hold every
      non-white-space character of the text, in order. */
  lemma ChunksOfProperties(text: string, maxChars: nat)
    requires maxChars > 0
    ensures forall c | c in ChunksOf(text, maxChars) :: |c| <= maxChars
    ensures Dense(Flatten(ChunksOf(text, maxChars)), JsSpace) == Dense(text, JsSpace)
  {
    var ps := Paragraphs(Lines(text));
    ParagraphsNotBlank(Lines(text), []);
    assert forall q | q in ps :: q != "" by {
      forall q | q in ps ensures q != "" {
        assert !Blank(q, JsSpace);
      }
    }
    GroupsProperties(ps, maxChars);
    RenderBound(Groups(ps, maxChars), maxChars);
    RenderDense(Groups(ps, maxChars), maxChars);
    ParagraphsDense(Lines(text), []);
    assert Flatten<string>([]) == [];
    LinesDense(text);
  }

  /** The fallback's chunks after the filter: within the budget, holding the
      text's non-white-space characters in order, and none exactly when the
      text is blank. */
  lemma FilteredChunksProperties(text: string, maxChars: nat)
    requires maxChars > 0
    ensures var r := FilterNonBlank(ChunksOf(text, maxChars));
      && (forall c | c in r :: |c| <= maxChars)
      && Dense(Flatten(r), JsSpace) == Dense(text, JsSpace)
      && (r == [] <==> Blank(text, JsSpace))
  {
    var chunks := ChunksOf(text, maxChars);
    var r := FilterNonBlank(chunks);
    ChunksOfProperties(text, maxChars);
    FilterNonBlankDense(chunks);
    DenseBlank(text, JsSpace);
    if r == [] {
      assert Flatten(r) == [];
    } else {
      DenseFlattenNonBlank(r);
    }
  }

  /** Chunks that are not blank leave something in `Dense`. */
  lemma DenseFlattenNonBlank(cs: seq<string>)
    requires cs != [] && forall c | c in cs :: !Blank(c, JsSpace)
    ensures Dense(Flatten(cs), JsSpace) != ""
  {
    var c := cs[0];
    assert cs == [c] + cs[1..];
    DenseFlattenCons(c, cs[1..], JsSpace);
    DenseBlank(c, JsSpace);
  }
}
