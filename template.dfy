/** The placeholder substitution of the translation page (script.js,
    `handleTranslation`): six global replacements of `{name}` placeholders
    in the user's prompt template, and a structured view of a template as
    literal text and placeholder slots under which that chain of
    replacements is exactly "fill every slot with its field". */
module Template {
  import opened Seqs

  // ---------------------------------------------------------------------------
  // The six placeholders
  // ---------------------------------------------------------------------------

  /** The form fields a template may refer to, in the order the page
      replaces them. */
  datatype Field = SourceLanguage | TargetLanguage | FandomContext | Notes | SourceText | Summary

  /** The field values the page substitutes. */
  datatype Fields = Fields(sourceLanguage: string, targetLanguage: string, fandomContext: string,
                           notes: string, text: string, summary: string)

  function Name(fl: Field): string
  {
    match fl
    case SourceLanguage => "source_language"
    case TargetLanguage => "target_language"
    case FandomContext => "fandom_context"
    case Notes => "notes"
    case SourceText => "source_text"
    case Summary => "previous_chapter_summary"
  }

  /** The position of a field's replacement in the chain. */
  function Rank(fl: Field): (r: nat)
    ensures r < 6
  {
    match fl
    case SourceLanguage => 0
    case TargetLanguage => 1
    case FandomContext => 2
    case Notes => 3
    case SourceText => 4
    case Summary => 5
  }

  function Value(fl: Field, f: Fields): string
  {
    match fl
    case SourceLanguage => f.sourceLanguage
    case TargetLanguage => f.targetLanguage
    case FandomContext => f.fandomContext
    case Notes => f.notes
    case SourceText => f.text
    case Summary => f.summary
  }

  function Brace(name: string): string
  {
    "{" + name + "}"
  }

  function Placeholder(fl: Field): string
  {
    Brace(Name(fl))
  }

  const SourceTextPlaceholder := Placeholder(SourceText)

  // ---------------------------------------------------------------------------
  // The substitution as the page performs it
  // ---------------------------------------------------------------------------

  /** The six global replacements, applied one after the other in this order;
      each later replacement also sees what the earlier ones inserted. */
  function Substitute(template: string, sourceLanguage: string, targetLanguage: string,
                      fandomContext: string, notes: string, text: string, summary: string): string
  {
    var s1 := ReplaceAll(template, Placeholder(SourceLanguage), sourceLanguage);
    var s2 := ReplaceAll(s1, Placeholder(TargetLanguage), targetLanguage);
    var s3 := ReplaceAll(s2, Placeholder(FandomContext), fandomContext);
    var s4 := ReplaceAll(s3, Placeholder(Notes), notes);
    var s5 := ReplaceAll(s4, Placeholder(SourceText), text);
    ReplaceAll(s5, Placeholder(Summary), summary)
  }

  /** A template that mentions none of the six placeholders is sent as it is,
      whatever the field values. */
  lemma SubstituteNoPlaceholder(template: string, sourceLanguage: string, targetLanguage: string,
                                fandomContext: string, notes: string, text: string, summary: string)
    requires forall fl: Field :: !Contains(template, Placeholder(fl))
    ensures Substitute(template, sourceLanguage, targetLanguage, fandomContext, notes, text, summary)
         == template
  {
    ReplaceAllAbsent(template, Placeholder(SourceLanguage), sourceLanguage);
    ReplaceAllAbsent(template, Placeholder(TargetLanguage), targetLanguage);
    ReplaceAllAbsent(template, Placeholder(FandomContext), fandomContext);
    ReplaceAllAbsent(template, Placeholder(Notes), notes);
    ReplaceAllAbsent(template, Placeholder(SourceText), text);
    ReplaceAllAbsent(template, Placeholder(Summary), summary);
  }

  // ---------------------------------------------------------------------------
  // The shape of a placeholder
  // ---------------------------------------------------------------------------

  predicate NoBraces(s: string)
  {
    '{' !in s && '}' !in s
  }

  /** Brace-delimited, with no brace inside. */
  predicate Braced(p: string)
  {
    && |p| >= 2 && p[0] == '{' && p[|p| - 1] == '}'
    && forall i | 0 < i < |p| - 1 :: p[i] != '{' && p[i] != '}'
  }

  lemma BracedOf(name: string)
    requires NoBraces(name)
    ensures Braced(Brace(name))
  {
    var p := Brace(name);
    forall i | 0 < i < |p| - 1 ensures p[i] != '{' && p[i] != '}' {
      assert p[i] == name[i - 1];
      assert name[i - 1] in name;
    }
  }

  /** No name has a brace in it (one literal per lemma keeps each proof small). */
  lemma NameFree(fl: Field)
    ensures NoBraces(Name(fl))
  {
    match fl
    case SourceLanguage => SourceLanguageNameFree();
    case TargetLanguage => TargetLanguageNameFree();
    case FandomContext => FandomContextNameFree();
    case Notes => NotesNameFree();
    case SourceText => SourceTextNameFree();
    case Summary => SummaryNameFree();
  }

  lemma SourceLanguageNameFree() ensures NoBraces("source_language") {}
  lemma TargetLanguageNameFree() ensures NoBraces("target_language") {}
  lemma FandomContextNameFree() ensures NoBraces("fandom_context") {}
  lemma NotesNameFree() ensures NoBraces("notes") {}
  lemma SourceTextNameFree() ensures NoBraces("source_text") {}
  lemma SummaryNameFree() ensures NoBraces("previous_chapter_summary") {}

  lemma PlaceholderBraced(fl: Field)
    ensures Braced(Placeholder(fl))
  {
    NameFree(fl);
    BracedOf(Name(fl));
  }

  lemma NameInjective(fl: Field, g: Field)
    requires Name(fl) == Name(g)
    ensures fl == g
  {
  }

  /** Different fields have different placeholders. */
  lemma PlaceholderInjective(fl: Field, g: Field)
    requires Placeholder(fl) == Placeholder(g)
    ensures fl == g
  {
    var a, b := Placeholder(fl), Placeholder(g);
    assert a[1..|a| - 1] == Name(fl);
    assert b[1..|b| - 1] == Name(g);
    NameInjective(fl, g);
  }

  /** Of two brace-delimited words, one is a prefix of the other only when
      they are equal: the closing brace ends both. */
  lemma BracedPrefix(p: string, q: string)
    requires Braced(p) && Braced(q) && IsPrefix(p, q)
    ensures p == q
  {
  }

  // ---------------------------------------------------------------------------
  // Text no replacement can touch
  // ---------------------------------------------------------------------------

  /** Neither of `x` and `p` is a prefix of the other: whatever follows `x`,
      `p` does not start there. */
  predicate Apart(x: string, p: string)
  {
    !IsPrefix(p, x) && !IsPrefix(x, p)
  }

  /** `p` starts nowhere inside `s`, whatever text follows it. */
  predicate ApartFrom(s: string, p: string)
  {
    forall k | 0 <= k < |s| :: Apart(s[k..], p)
  }

  /** No placeholder starts inside `s`, whatever text follows it. */
  predicate Inert(s: string)
  {
    forall fl: Field :: ApartFrom(s, Placeholder(fl))
  }

  lemma PrefixOfAppend(p: string, x: string, rest: string)
    requires IsPrefix(p, x + rest)
    ensures IsPrefix(p, x) || IsPrefix(x, p)
  {
    if |p| <= |x| {
      assert (x + rest)[..|p|] == x[..|p|];
    } else {
      assert p[..|x|] == (x + rest)[..|p|][..|x|];
    }
  }

  /** Text without an opening brace is inert: every placeholder starts with
      one. */
  lemma NoOpenInert(s: string)
    requires forall i | 0 <= i < |s| :: s[i] != '{'
    ensures Inert(s)
  {
    forall fl: Field ensures ApartFrom(s, Placeholder(fl)) {
      PlaceholderBraced(fl);
      forall k | 0 <= k < |s| ensures Apart(s[k..], Placeholder(fl)) {
        assert s[k..][0] == s[k];
      }
    }
  }

  lemma BraceInjective(a: string, b: string)
    requires Brace(a) == Brace(b)
    ensures a == b
  {
    assert Brace(a)[1..|Brace(a)| - 1] == a;
    assert Brace(b)[1..|Brace(b)| - 1] == b;
  }

  /** A brace-delimited word that is not one of the six names, such as
      `{foo}`, is inert. */
  lemma UnknownInert(w: string)
    requires NoBraces(w) && forall fl: Field :: Name(fl) != w
    ensures Inert(Brace(w))
  {
    var b := Brace(w);
    BracedOf(w);
    forall fl: Field ensures ApartFrom(b, Placeholder(fl)) {
      var p := Placeholder(fl);
      PlaceholderBraced(fl);
      forall k | 0 <= k < |b| ensures Apart(b[k..], p) {
        if k == 0 {
          assert b[k..] == b;
          if IsPrefix(p, b) {
            BracedPrefix(p, b);
            BraceInjective(Name(fl), w);
          }
          if IsPrefix(b, p) {
            BracedPrefix(b, p);
            BraceInjective(w, Name(fl));
          }
        } else {
          assert b[k..][0] == b[k];
        }
      }
    }
  }

  lemma ApartTail(s: string, p: string)
    requires ApartFrom(s, p) && s != []
    ensures ApartFrom(s[1..], p)
  {
    forall k | 0 <= k < |s[1..]| ensures Apart(s[1..][k..], p) {
      assert s[1..][k..] == s[k + 1..];
    }
  }

  lemma ApartFront(s: string, rest: string, p: string)
    requires ApartFrom(s, p) && s != []
    ensures !IsPrefix(p, s + rest)
  {
    assert Apart(s[0..], p);
    assert s[0..] == s;
    if IsPrefix(p, s + rest) {
      PrefixOfAppend(p, s, rest);
    }
  }

  /** Replacing `p` leaves text in front, inside which `p` cannot start, as
      it is. */
  lemma {:induction false} ReplaceApart(s: string, rest: string, p: string, v: string)
    requires p != [] && ApartFrom(s, p)
    ensures ReplaceAll(s + rest, p, v) == s + ReplaceAll(rest, p, v)
    decreases |s|
  {
    if s == [] {
      assert s + rest == rest;
    } else {
      ApartFront(s, rest, p);
      assert (s + rest)[1..] == s[1..] + rest;
      ApartTail(s, p);
      ReplaceApart(s[1..], rest, p, v);
      assert [s[0]] + s[1..] == s;
    }
  }

  /** Replacing a placeholder leaves inert text in front as it is. */
  lemma ReplaceInert(s: string, rest: string, fl: Field, v: string)
    requires Inert(s)
    ensures ReplaceAll(s + rest, Placeholder(fl), v) == s + ReplaceAll(rest, Placeholder(fl), v)
  {
    ReplaceApart(s, rest, Placeholder(fl), v);
  }

  /** The pattern itself becomes the value. */
  lemma ReplaceFront(p: string, rest: string, v: string)
    requires p != []
    ensures ReplaceAll(p + rest, p, v) == v + ReplaceAll(rest, p, v)
  {
    assert (p + rest)[..|p|] == p;
    assert (p + rest)[|p|..] == rest;
  }

  /** The placeholder being replaced becomes the value. */
  lemma ReplaceSame(rest: string, fl: Field, v: string)
    ensures ReplaceAll(Placeholder(fl) + rest, Placeholder(fl), v) == v + ReplaceAll(rest, Placeholder(fl), v)
  {
    ReplaceFront(Placeholder(fl), rest, v);
  }

  /** One field's placeholder does not start where another's does. */
  lemma OtherFront(g: Field, rest: string, fl: Field)
    requires g != fl
    ensures !IsPrefix(Placeholder(fl), Placeholder(g) + rest)
  {
    var p, q := Placeholder(fl), Placeholder(g);
    PlaceholderBraced(fl);
    PlaceholderBraced(g);
    if IsPrefix(p, q + rest) {
      PrefixOfAppend(p, q, rest);
      if IsPrefix(p, q) {
        BracedPrefix(p, q);
      } else {
        BracedPrefix(q, p);
      }
      PlaceholderInjective(fl, g);
    }
  }

  /** After its opening brace, a placeholder is inert. */
  lemma PlaceholderTailInert(g: Field)
    ensures Inert(Placeholder(g)[1..])
  {
    var q := Placeholder(g);
    PlaceholderBraced(g);
    assert forall i | 0 <= i < |q[1..]| :: q[1..][i] == q[i + 1];
    NoOpenInert(q[1..]);
  }

  /** Text that `p` does not start at, and after whose first character `p`
      cannot start, is left as it is. */
  lemma ReplaceBehind(q: string, rest: string, p: string, v: string)
    requires p != [] && q != []
    requires !IsPrefix(p, q + rest) && ApartFrom(q[1..], p)
    ensures ReplaceAll(q + rest, p, v) == q + ReplaceAll(rest, p, v)
  {
    var t := q + rest;
    assert t[1..] == q[1..] + rest;
    assert ReplaceAll(t, p, v) == [t[0]] + ReplaceAll(t[1..], p, v);
    ReplaceApart(q[1..], rest, p, v);
    assert [q[0]] + q[1..] == q;
  }

  /** Another field's placeholder is left as it is. */
  lemma ReplaceOther(g: Field, rest: string, fl: Field, v: string)
    requires g != fl
    ensures ReplaceAll(Placeholder(g) + rest, Placeholder(fl), v) == Placeholder(g) + ReplaceAll(rest, Placeholder(fl), v)
  {
    var p, q := Placeholder(fl), Placeholder(g);
    OtherFront(g, rest, fl);
    PlaceholderTailInert(g);
    assert ApartFrom(q[1..], p);
    ReplaceBehind(q, rest, p, v);
  }

  // ---------------------------------------------------------------------------
  // Templates as literal text and slots
  // ---------------------------------------------------------------------------

  datatype Piece = Literal(text: string) | Slot(field: Field)

  /** Literal text that no replacement can touch. */
  predicate WellFormed(ps: seq<Piece>)
  {
    forall i | 0 <= i < |ps| :: ps[i].Literal? ==> Inert(ps[i].text)
  }

  /** Field values that no later replacement can touch. */
  predicate FieldsInert(f: Fields)
  {
    forall fl: Field :: Inert(Value(fl, f))
  }

  function PieceText(pc: Piece): string
  {
    match pc
    case Literal(t) => t
    case Slot(fl) => Placeholder(fl)
  }

  function PieceValue(pc: Piece, f: Fields): string
  {
    match pc
    case Literal(t) => t
    case Slot(fl) => Value(fl, f)
  }

  /** The template text: each slot written as its placeholder. */
  function Render(ps: seq<Piece>): string
    decreases |ps|
  {
    if ps == [] then [] else PieceText(ps[0]) + Render(ps[1..])
  }

  /** The intended prompt: each slot replaced by its field's value. */
  function Filled(ps: seq<Piece>, f: Fields): string
    decreases |ps|
  {
    if ps == [] then [] else PieceValue(ps[0], f) + Filled(ps[1..], f)
  }

  /** The text after the first `j` replacements of the chain. */
  function Stage(ps: seq<Piece>, f: Fields, j: nat): string
    decreases |ps|
  {
    if ps == [] then []
    else StagePiece(ps[0], f, j) + Stage(ps[1..], f, j)
  }

  function StagePiece(pc: Piece, f: Fields, j: nat): string
  {
    match pc
    case Literal(t) => t
    case Slot(fl) => if Rank(fl) < j then Value(fl, f) else Placeholder(fl)
  }

  lemma {:induction false} StageStart(ps: seq<Piece>, f: Fields)
    ensures Stage(ps, f, 0) == Render(ps)
    decreases |ps|
  {
    if ps != [] {
      StageStart(ps[1..], f);
    }
  }

  lemma {:induction false} StageEnd(ps: seq<Piece>, f: Fields)
    ensures Stage(ps, f, 6) == Filled(ps, f)
    decreases |ps|
  {
    if ps != [] {
      StageEnd(ps[1..], f);
    }
  }

  /** One replacement of the chain fills exactly the slots of its field. */
  lemma {:induction false} StageStep(ps: seq<Piece>, f: Fields, fl: Field, j: nat, next: nat)
    requires WellFormed(ps) && FieldsInert(f)
    requires j == Rank(fl) && next == j + 1
    ensures ReplaceAll(Stage(ps, f, j), Placeholder(fl), Value(fl, f)) == Stage(ps, f, next)
    decreases |ps|
  {
    if ps != [] {
      var v := Value(fl, f);
      assert WellFormed(ps[1..]) by {
        forall i | 0 <= i < |ps[1..]| ensures ps[1..][i].Literal? ==> Inert(ps[1..][i].text) {
          assert ps[1..][i] == ps[i + 1];
        }
      }
      StageStep(ps[1..], f, fl, j, next);
      var rest := Stage(ps[1..], f, j);
      match ps[0]
      case Literal(t) =>
        ReplaceInert(t, rest, fl, v);
      case Slot(g) =>
        if Rank(g) < j {
          ReplaceInert(Value(g, f), rest, fl, v);
        } else if g == fl {
          ReplaceSame(rest, fl, v);
        } else {
          ReplaceOther(g, rest, fl, v);
        }
    }
  }

  /** The page's chain of replacements fills every slot with its field's
      value and keeps the literal text, as long as neither the literal text
      nor a value can start a placeholder. */
  lemma SubstituteFills(ps: seq<Piece>, f: Fields)
    requires WellFormed(ps) && FieldsInert(f)
    ensures Substitute(Render(ps), f.sourceLanguage, f.targetLanguage, f.fandomContext, f.notes, f.text, f.summary)
         == Filled(ps, f)
  {
    StageStart(ps, f);
    var s1 := ReplaceAll(Render(ps), Placeholder(SourceLanguage), f.sourceLanguage);
    StageStep(ps, f, SourceLanguage, 0, 1);
    var s2 := ReplaceAll(s1, Placeholder(TargetLanguage), f.targetLanguage);
    StageStep(ps, f, TargetLanguage, 1, 2);
    var s3 := ReplaceAll(s2, Placeholder(FandomContext), f.fandomContext);
    StageStep(ps, f, FandomContext, 2, 3);
    var s4 := ReplaceAll(s3, Placeholder(Notes), f.notes);
    StageStep(ps, f, Notes, 3, 4);
    var s5 := ReplaceAll(s4, Placeholder(SourceText), f.text);
    StageStep(ps, f, SourceText, 4, 5);
    StageStep(ps, f, Summary, 5, 6);
    StageEnd(ps, f);
  }

  lemma {:induction false} RenderAppend(ps: seq<Piece>, qs: seq<Piece>)
    ensures Render(ps + qs) == Render(ps) + Render(qs)
    decreases |ps|
  {
    if ps == [] {
      assert ps + qs == qs;
    } else {
      assert (ps + qs)[0] == ps[0];
      assert (ps + qs)[1..] == ps[1..] + qs;
      RenderAppend(ps[1..], qs);
    }
  }

  lemma {:induction false} FilledAppend(ps: seq<Piece>, qs: seq<Piece>, f: Fields)
    ensures Filled(ps + qs, f) == Filled(ps, f) + Filled(qs, f)
    decreases |ps|
  {
    if ps == [] {
      assert ps + qs == qs;
    } else {
      var all := ps + qs;
      assert all[0] == ps[0] && all[1..] == ps[1..] + qs;
      FilledAppend(ps[1..], qs, f);
      assert Filled(all, f) == PieceValue(ps[0], f) + Filled(ps[1..] + qs, f);
    }
  }

  /** `{source_text}` between two inert texts becomes the source text. */
  lemma SubstituteSourceText(a: string, b: string, f: Fields)
    requires Inert(a) && Inert(b) && FieldsInert(f)
    ensures Substitute(a + SourceTextPlaceholder + b, f.sourceLanguage, f.targetLanguage, f.fandomContext,
                       f.notes, f.text, f.summary)
         == a + f.text + b
  {
    var ps := [Literal(a), Slot(SourceText), Literal(b)];
    assert Render(ps[2..]) == b;
    assert Filled(ps[2..], f) == b;
    assert Render(ps) == a + SourceTextPlaceholder + b;
    assert Filled(ps, f) == a + f.text + b;
    SubstituteFills(ps, f);
  }

  /** A brace-delimited word that is not one of the six placeholders, such as
      `{foo}`, is kept where it stands, inside any template whose other slots
      are filled. */
  lemma SubstituteUnknownPlaceholder(ps: seq<Piece>, w: string, qs: seq<Piece>, f: Fields)
    requires WellFormed(ps) && WellFormed(qs) && FieldsInert(f)
    requires NoBraces(w) && forall fl: Field :: Name(fl) != w
    ensures Substitute(Render(ps) + Brace(w) + Render(qs), f.sourceLanguage, f.targetLanguage, f.fandomContext,
                       f.notes, f.text, f.summary)
         == Filled(ps, f) + Brace(w) + Filled(qs, f)
  {
    var unknown := [Literal(Brace(w))];
    UnknownInert(w);
    WellFormedAppend(ps, unknown);
    WellFormedAppend(ps + unknown, qs);
    RenderAppend(ps, unknown);
    RenderAppend(ps + unknown, qs);
    FilledAppend(ps, unknown, f);
    FilledAppend(ps + unknown, qs, f);
    assert Render(unknown) == Brace(w) && Filled(unknown, f) == Brace(w) by {
      assert unknown[1..] == [];
    }
    SubstituteFills(ps + unknown + qs, f);
  }

  lemma WellFormedAppend(ps: seq<Piece>, qs: seq<Piece>)
    requires WellFormed(ps) && WellFormed(qs)
    ensures WellFormed(ps + qs)
  {
    forall i | 0 <= i < |ps + qs| ensures (ps + qs)[i].Literal? ==> Inert((ps + qs)[i].text) {
      if i >= |ps| {
        assert (ps + qs)[i] == qs[i - |ps|];
      }
    }
  }

  /** The placeholder of every slot occurs in the template, and its value in
      the filled text. */
  lemma {:induction false} SlotContained(ps: seq<Piece>, i: nat, f: Fields)
    requires i < |ps| && ps[i].Slot?
    ensures Contains(Render(ps), Placeholder(ps[i].field))
    ensures Contains(Filled(ps, f), Value(ps[i].field, f))
    decreases i
  {
    var fl := ps[i].field;
    if i == 0 {
      ContainsPrefix(Placeholder(fl), Render(ps[1..]));
      ContainsPrefix(Value(fl, f), Filled(ps[1..], f));
    } else {
      assert ps[1..][i - 1] == ps[i];
      SlotContained(ps[1..], i - 1, f);
      ContainsRight(PieceText(ps[0]), Render(ps[1..]), Placeholder(fl));
      ContainsRight(PieceValue(ps[0], f), Filled(ps[1..], f), Value(fl, f));
    }
  }

  /** A template with a `{source_text}` slot mentions the placeholder, and
      its substitution is the filled template, which contains the text. */
  lemma SourceSlotFilled(ps: seq<Piece>, f: Fields)
    requires WellFormed(ps) && FieldsInert(f) && Slot(SourceText) in ps
    ensures Contains(Render(ps), SourceTextPlaceholder)
    ensures Substitute(Render(ps), f.sourceLanguage, f.targetLanguage, f.fandomContext, f.notes, f.text, f.summary)
         == Filled(ps, f)
    ensures Contains(Filled(ps, f), f.text)
  {
    var i :| 0 <= i < |ps| && ps[i] == Slot(SourceText);
    SlotContained(ps, i, f);
    SubstituteFills(ps, f);
  }
}
