/** The template of the `s` command as written, and what `s` makes of a line with it. */
module Templates {
  import opened Options
  import opened Bytes
  import opened Program
  import opened MatchSpec
  import opened MatchFacts
  import opened Stepper
  import opened Pattern
  import opened Meaning
  import opened Substitution
  import opened PatternSearch

  /** A character, one behind a backslash, `&`, or `\digit`. */
  datatype Part = Literal(c: byte) | Escaped(c: byte) | Whole | Group(n: byte)

  predicate ValidPart(p: Part, groups: nat) {
    match p
    case Literal(c) => c != 0 && c != BACKSLASH && c != AMPERSAND
    case Escaped(c) => c != 0 && !(ONE <= c <= NINE)
    case Whole => true
    case Group(n) => 1 <= n <= 9 && n <= groups
  }

  predicate ValidParts(parts: seq<Part>, groups: nat) {
    forall k :: 0 <= k < |parts| ==> ValidPart(parts[k], groups)
  }

  // ----- how it is written -----

  function ShowPart(p: Part): (t: seq<byte>)
    ensures t != []
  {
    match p
    case Literal(c) => [c]
    case Escaped(c) => [BACKSLASH, c]
    case Whole => [AMPERSAND]
    case Group(n) => [BACKSLASH, ZERO + if n <= 9 then n else 9]
  }

  function ShowParts(parts: seq<Part>): seq<byte> {
    if parts == [] then [] else ShowPart(parts[0]) + ShowParts(parts[1..])
  }

  // ----- what it stands for -----

  /** whole is the text of the match, texts are those of its groups, counted from 0. */
  function PartText(p: Part, whole: seq<byte>, texts: map<nat, seq<byte>>): seq<byte>
    requires p.Group? ==> p.n > 0 && p.n - 1 in texts
  {
    match p
    case Literal(c) => [c]
    case Escaped(c) => [c]
    case Whole => whole
    case Group(n) => texts[n - 1]
  }

  predicate Known(parts: seq<Part>, texts: map<nat, seq<byte>>) {
    forall k :: 0 <= k < |parts| && parts[k].Group? ==> parts[k].n > 0 && parts[k].n - 1 in texts
  }

  function PartsText(parts: seq<Part>, whole: seq<byte>, texts: map<nat, seq<byte>>): seq<byte>
    requires Known(parts, texts)
  {
    if parts == [] then [] else PartText(parts[0], whole, texts) + PartsText(parts[1..], whole, texts)
  }

  /** The stretches of the line between the ends that a match reports for its groups. */
  function TextsOf(line: seq<byte>, m: Match, groups: nat): map<nat, seq<byte>>
    requires MatchOf(m, line, groups)
  {
    map n: nat | n < groups :: line[m.spans.starts[n]..m.spans.ends[n]]
  }

  lemma CapturedTexts(line: seq<byte>, m: Match, groups: nat, c: map<nat, seq<byte>>)
    requires MatchOf(m, line, groups)
    ensures Captures(line, m.spans, groups, c) <==> c == TextsOf(line, m, groups)
  {
  }

  lemma PartsKnown(parts: seq<Part>, groups: nat, texts: map<nat, seq<byte>>)
    requires ValidParts(parts, groups) && forall n: nat :: n < groups ==> n in texts
    ensures Known(parts, texts)
  {
  }

  // ----- the text of the template expands to what its parts stand for -----

  /** The text of a part in front of a template. */
  lemma PartFirst(p: Part, rest: seq<byte>, groups: nat)
    requires ValidPart(p, groups) && ValidTemplate(rest, groups)
    ensures var t, text := ShowPart(p), ShowPart(p) + rest;
            && ValidTemplate(text, groups) && Width(text, groups) == |t| && text[|t|..] == rest
            && text[0] == t[0] && (|t| == 2 ==> text[1] == t[1])
  {
    var t, text := ShowPart(p), ShowPart(p) + rest;
    assert text[|t|..] == rest && text[0] == t[0] && (|t| == 2 ==> text[1] == t[1]);
  }

  /** The first part of a template is its first element. */
  lemma FirstPart(parts: seq<Part>, line: seq<byte>, m: Match, groups: nat)
    requires ValidParts(parts, groups) && parts != [] && MatchOf(m, line, groups)
    requires ValidTemplate(ShowParts(parts[1..]), groups)
    ensures ValidTemplate(ShowParts(parts), groups)
    ensures parts[0].Group? ==> parts[0].n > 0 && parts[0].n - 1 in TextsOf(line, m, groups)
    ensures Head(ShowParts(parts), line, m, groups)
            == PartText(parts[0], line[m.start..m.end], TextsOf(line, m, groups))
    ensures ShowParts(parts)[Width(ShowParts(parts), groups)..] == ShowParts(parts[1..])
  {
    hide ValidTemplate, Width;
    PartFirst(parts[0], ShowParts(parts[1..]), groups);
  }

  /**
   * A template as written puts in the place of a match: characters themselves, also those behind a backslash, the
   * match for `&`, and for `\digit` the stretch between the ends reported for that group.
   */
  lemma {:induction false} TemplateExpands(parts: seq<Part>, line: seq<byte>, m: Match, groups: nat)
    requires ValidParts(parts, groups) && MatchOf(m, line, groups)
    ensures ValidTemplate(ShowParts(parts), groups) && Known(parts, TextsOf(line, m, groups))
    ensures Expand(ShowParts(parts), line, m, groups)
            == PartsText(parts, line[m.start..m.end], TextsOf(line, m, groups))
    decreases |parts|
  {
    hide Expand, Head, PartText;
    PartsKnown(parts, groups, TextsOf(line, m, groups));
    if parts == [] {
      NothingToExpand(line, m, groups);
    } else {
      TemplateExpands(parts[1..], line, m, groups);
      FirstPart(parts, line, m, groups);
      ExpandOnce(ShowParts(parts), line, m, groups);
    }
  }

  /** Every template that `s` can be given is one of these. */
  lemma {:induction false} EveryTemplate(rhs: seq<byte>, groups: nat) returns (parts: seq<Part>)
    requires ValidTemplate(rhs, groups)
    ensures ValidParts(parts, groups) && ShowParts(parts) == rhs
    decreases |rhs|
  {
    if rhs == [] {
      parts := [];
    } else {
      var p :=
        if rhs[0] == AMPERSAND then Whole
        else if rhs[0] != BACKSLASH then Literal(rhs[0])
        else if ONE <= rhs[1] <= NINE then Group(rhs[1] - ZERO)
        else Escaped(rhs[1]);
      var w := |ShowPart(p)|;
      var rest := EveryTemplate(rhs[w..], groups);
      parts := [p] + rest;
      assert parts[1..] == rest && ShowPart(p) == rhs[..w] && rhs == rhs[..w] + rhs[w..];
    }
  }

  // ----- the line after `s` -----

  /** From position from on: the gaps, what the parts stand for in the matches replaced, the others, and the tail. */
  ghost function Edited(line: seq<byte>, from: nat, ms: seq<Match>, parts: seq<Part>, groups: nat, flag: nat,
                        k: nat): seq<byte>
    requires Ordered(line, from, ms, groups) && ValidParts(parts, groups)
    decreases |ms|
  {
    if ms == [] then line[from..]
    else
      var m, whole := ms[0], line[ms[0].start..ms[0].end];
      var texts := TextsOf(line, m, groups);
      PartsKnown(parts, groups, texts);
      line[from..m.start]
      + (if flag == 0 || flag >= GLOBAL || flag == k + 1 then PartsText(parts, whole, texts) else whole)
      + Edited(line, m.end, ms[1..], parts, groups, flag, k + 1)
  }

  lemma {:induction false} RebuildIsEdited(line: seq<byte>, from: nat, ms: seq<Match>, parts: seq<Part>, groups: nat,
                                           flag: nat, k: nat)
    requires Ordered(line, from, ms, groups) && ValidParts(parts, groups)
    ensures ValidTemplate(ShowParts(parts), groups)
    ensures Rebuild(line, from, ms, ShowParts(parts), groups, flag, k)
            == Edited(line, from, ms, parts, groups, flag, k)
    decreases |ms|
  {
    hide Expand, ShowParts, PartsText, ValidTemplate, Rebuild, Turn;
    TemplateValid(parts, groups);
    if ms == [] {
      NothingToRebuild(line, from, ShowParts(parts), groups, flag, k);
    } else {
      RebuildOnce(line, from, ms, ShowParts(parts), groups, flag, k);
      TurnIs(line, from, ms[0], ShowParts(parts), groups, flag, k + 1);
      TemplateExpands(parts, line, ms[0], groups);
      RebuildIsEdited(line, ms[0].end, ms[1..], parts, groups, flag, k + 1);
      Joins(line, from, ms[0].start, ms[0].end);
    }
  }

  lemma {:induction false} TemplateValid(parts: seq<Part>, groups: nat)
    requires ValidParts(parts, groups)
    ensures ValidTemplate(ShowParts(parts), groups)
    decreases |parts|
  {
    if parts != [] {
      TemplateValid(parts[1..], groups);
      var rest, t := ShowParts(parts[1..]), ShowPart(parts[0]);
      assert (t + rest)[|t|..] == rest && (t + rest)[0] == t[0] && (|t| == 2 ==> (t + rest)[1] == t[1]);
    }
  }

  /**
   * `s` with a template makes a line into the gaps between its matches, the text of the template's parts for each match
   * that the flag says, and the tail.
   */
  lemma SubstitutedIsEdited(e: Expr, line: seq<byte>, parts: seq<Part>, flag: nat)
    requires ValidExpr(e) && ValidParts(parts, Groups(e.prog)) && (flag == 0 || e.circf || Consumes(e.prog))
    ensures ValidTemplate(ShowParts(parts), Groups(e.prog))
    ensures Ordered(line, 0, Substitution.Matches(e, line, flag), Groups(e.prog))
    ensures Substituted(e, line, ShowParts(parts), flag)
            == Edited(line, 0, Substitution.Matches(e, line, flag), parts, Groups(e.prog), flag, 0)
  {
    hide Rebuild, Edited, Ordered, Substitution.Matches, ValidTemplate, ShowParts;
    MatchesOrdered(e, line, flag);
    RebuildIsEdited(line, 0, Substitution.Matches(e, line, flag), parts, Groups(e.prog), flag, 0);
  }

  /** result is the line with line[i..j], the first text in the pattern's language, replaced by what the parts say. */
  ghost predicate FirstEdited(r: Regex, parts: seq<Part>, line: seq<byte>, i: nat, j: nat, c: map<nat, seq<byte>>,
                              result: seq<byte>)
  {
    && MatchesAt(r, line, i, j, c) && (r.anchored ==> i == 0) && (forall k: nat :: k < i ==> !Begins(r, line, k))
    && Known(parts, c) && result == line[..i] + PartsText(parts, line[i..j], c) + line[j..]
  }

  /**
   * `s/pattern/template/`, from the texts on: the first text of the line in the pattern's language is replaced by what
   * the template says, with the texts its groups stand for in it; without one the line stays as it is.
   */
  lemma FirstReplaced(r: Regex, eof: byte, parts: seq<Part>, line: seq<byte>)
    requires Valid(r, eof) && ClosedReferences(r.pieces, [], 0) && ValidParts(parts, Groups(Code(r, eof)))
    ensures var e := Expr(r.anchored, Code(r, eof));
            && ValidExpr(e) && ValidTemplate(ShowParts(parts), Groups(e.prog))
            && var result := Substituted(e, line, ShowParts(parts), 0);
               if forall k: nat :: k <= |line| ==> !Begins(r, line, k) then result == line
               else
                 exists i: nat, j: nat, c: map<nat, seq<byte>> :: FirstEdited(r, parts, line, i, j, c, result)
  {
    hide *;
    var e := Expr(r.anchored, Code(r, eof));
    PatternIsExpr(r, eof);
    FindsFirstText(r, eof, line);
    SubstitutedIsEdited(e, line, parts, 0);
    var m := FirstMatch(e, line);
    FirstOnly(e, line);
    if m.Match? {
      EditedOnce(line, m, parts, Groups(e.prog));
      var c := FirstIsEdited(r, line, m, parts, Groups(e.prog));
    } else {
      NothingFound(r, line, m, Groups(e.prog));
      NothingEdited(line, parts, Groups(e.prog));
    }
  }

  lemma FirstOnly(e: Expr, line: seq<byte>)
    requires ValidExpr(e)
    ensures var m := FirstMatch(e, line);
            && Substitution.Matches(e, line, 0) == (if m.Match? then [m] else [])
            && (m.Match? ==> MatchOf(m, line, Groups(e.prog)))
  {
    MatchInside(e.circf, e.prog, line, 0, None, NO_SPANS);
  }

  lemma FirstIsEdited(r: Regex, line: seq<byte>, m: Match, parts: seq<Part>, groups: nat)
    returns (c: map<nat, seq<byte>>)
    requires FirstText(r, line, m, groups) && MatchOf(m, line, groups) && ValidParts(parts, groups)
    ensures Known(parts, TextsOf(line, m, groups)) && c == TextsOf(line, m, groups)
    ensures FirstEdited(r, parts, line, m.start, m.end, c,
                        line[..m.start] + PartsText(parts, line[m.start..m.end], c) + line[m.end..])
    ensures m.start <= |line| && Begins(r, line, m.start)
  {
    hide MatchesAt, PartsText, Captures, MatchOf;
    MatchBounds(line, m, groups);
    c :| MatchesAt(r, line, m.start, m.end, c) && Captures(line, m.spans, groups, c);
    CapturedTexts(line, m, groups, c);
    PartsKnown(parts, groups, c);
  }

  lemma MatchBounds(line: seq<byte>, m: Match, groups: nat)
    requires MatchOf(m, line, groups)
    ensures m.Match? && m.start <= m.end <= |line| && forall n: nat :: n < groups ==> n in TextsOf(line, m, groups)
  {
  }

  lemma NothingFound(r: Regex, line: seq<byte>, m: Match, groups: nat)
    requires FirstText(r, line, m, groups) && m.NoMatch?
    ensures forall k: nat :: k <= |line| ==> !Begins(r, line, k)
  {
  }

  lemma PatternIsExpr(r: Regex, eof: byte)
    requires Valid(r, eof) && ClosedReferences(r.pieces, [], 0)
    ensures ValidExpr(Expr(r.anchored, Code(r, eof)))
  {
    InstructionsWellFormed(r.pieces, Nothing, [], 0, eof, r.dollar);
  }

  lemma EditedOnce(line: seq<byte>, m: Match, parts: seq<Part>, groups: nat)
    requires MatchOf(m, line, groups) && ValidParts(parts, groups)
    ensures Ordered(line, 0, [m], groups) && Known(parts, TextsOf(line, m, groups))
    ensures Edited(line, 0, [m], parts, groups, 0, 0)
            == line[..m.start] + PartsText(parts, line[m.start..m.end], TextsOf(line, m, groups)) + line[m.end..]
  {
    hide PartsText;
    assert [m][1..] == [];
    assert line[0..m.start] == line[..m.start];
    PartsKnown(parts, groups, TextsOf(line, m, groups));
  }

  lemma NothingEdited(line: seq<byte>, parts: seq<Part>, groups: nat)
    requires ValidParts(parts, groups)
    ensures Ordered(line, 0, [], groups) && Edited(line, 0, [], parts, groups, 0, 0) == line
  {
  }
}
