/**
 * How `Phi3Service.correct_text` reads the model's reply
 * (ai-services/phi3-service/app/services/phi3_service.py): the corrected
 * text after `CORRECTED:`, one correction per dash line of the
 * `CORRECTIONS:` section, and the explanation after `EXPLANATION:`.
 */
module CorrectionParser {
  import opened Wrappers
  import opened Text

  const CorrectedMarker: string := "CORRECTED:"
  const CorrectionsMarker: string := "CORRECTIONS:"
  const ExplanationMarker: string := "EXPLANATION:"

  /** The dictionary `correct_text` returns. */
  datatype Correction = Correction(
    originalText: string,
    correctedText: string,
    corrections: seq<string>,
    explanation: Option<string>)

  /** `response.split(marker)[1]`: the text between the first and the second occurrence of `marker`. */
  function Section(response: string, marker: string): (r: string)
    requires marker != [] && Contains(response, marker)
    ensures Free(r, marker)
  {
    Split(response, marker)[1]
  }

  /** A line of the corrections section that counts: once stripped, it starts with a dash. */
  predicate IsBullet(line: string) {
    StartsWith(Strip(line), "-")
  }

  /** The correction a dash line carries: what follows the dash, stripped. */
  function BulletText(line: string): (r: string)
    requires IsBullet(line)
    ensures Trimmed(r)
  {
    Strip(Strip(line)[1..])
  }

  /** The corrections of a list of lines, one per dash line, in line order. */
  function BulletEntries(lines: seq<string>): (r: seq<string>)
    ensures |r| <= |lines|
    ensures forall k :: 0 <= k < |r| ==> Trimmed(r[k])
  {
    if lines == [] then []
    else
      var last := lines[|lines| - 1];
      BulletEntries(lines[..|lines| - 1]) + (if IsBullet(last) then [BulletText(last)] else [])
  }

  /** The positions of the lines `f` holds of, in increasing order. */
  ghost function Positions(lines: seq<string>, f: string -> bool): seq<nat>
  {
    if lines == [] then []
    else
      var n := |lines| - 1;
      Positions(lines[..n], f) + (if f(lines[n]) then [n] else [])
  }

  /** The positions of the dash lines. */
  ghost function BulletIndices(lines: seq<string>): seq<nat>
  {
    Positions(lines, IsBullet)
  }

  /**
   * One correction per dash line and nothing else: the k-th correction is
   * the text of the k-th dash line, the dash lines are taken in order, and
   * none is skipped.
   */
  lemma BulletEntriesAreDashLines(lines: seq<string>)
    ensures |BulletEntries(lines)| == |BulletIndices(lines)|
    ensures forall k :: 0 <= k < |BulletIndices(lines)| ==>
              var j := BulletIndices(lines)[k];
              j < |lines| && IsBullet(lines[j]) && BulletEntries(lines)[k] == BulletText(lines[j])
    ensures forall k, l :: 0 <= k < l < |BulletIndices(lines)| ==> BulletIndices(lines)[k] < BulletIndices(lines)[l]
    ensures forall j :: 0 <= j < |lines| && IsBullet(lines[j]) ==> j in BulletIndices(lines)
  {
    BulletEntriesMatch(lines);
    PositionsIncrease(lines, IsBullet);
    PositionsComplete(lines, IsBullet);
  }

  lemma {:induction false} BulletEntriesMatch(lines: seq<string>)
    ensures |BulletEntries(lines)| == |BulletIndices(lines)|
    ensures forall k :: 0 <= k < |BulletIndices(lines)| ==>
              var j := BulletIndices(lines)[k];
              j < |lines| && IsBullet(lines[j]) && BulletEntries(lines)[k] == BulletText(lines[j])
  {
    if lines != [] {
      var n := |lines| - 1;
      var init := lines[..n];
      BulletEntriesMatch(init);
      var idx0 := BulletIndices(init);
      var r0 := BulletEntries(init);
      var idx := BulletIndices(lines);
      var r := BulletEntries(lines);
      assert idx == idx0 + (if IsBullet(lines[n]) then [n] else []);
      assert r == r0 + (if IsBullet(lines[n]) then [BulletText(lines[n])] else []);
      forall k | 0 <= k < |idx|
        ensures idx[k] < |lines| && IsBullet(lines[idx[k]]) && r[k] == BulletText(lines[idx[k]])
      {
        if k < |idx0| {
          assert idx[k] == idx0[k] && r[k] == r0[k];
          assert lines[idx0[k]] == init[idx0[k]];
        }
      }
    }
  }

  lemma {:induction false} PositionsIncrease(lines: seq<string>, f: string -> bool)
    ensures forall k :: 0 <= k < |Positions(lines, f)| ==> Positions(lines, f)[k] < |lines|
    ensures forall k, l :: 0 <= k < l < |Positions(lines, f)| ==> Positions(lines, f)[k] < Positions(lines, f)[l]
  {
    if lines != [] {
      var n := |lines| - 1;
      var init := lines[..n];
      PositionsIncrease(init, f);
      var idx0 := Positions(init, f);
      var idx := Positions(lines, f);
      if f(lines[n]) {
        assert idx == idx0 + [n];
        forall k | 0 <= k < |idx| ensures idx[k] < |lines| {
          if k < |idx0| { assert idx[k] == idx0[k]; }
        }
        forall k, l | 0 <= k < l < |idx| ensures idx[k] < idx[l] {
          assert idx[k] == idx0[k];
          if l < |idx0| { assert idx[l] == idx0[l]; }
        }
      } else {
        assert idx == idx0;
      }
    }
  }

  lemma {:induction false} PositionsComplete(lines: seq<string>, f: string -> bool)
    ensures forall j :: 0 <= j < |lines| && f(lines[j]) ==> j in Positions(lines, f)
  {
    if lines != [] {
      var n := |lines| - 1;
      var init := lines[..n];
      PositionsComplete(init, f);
      var idx0 := Positions(init, f);
      var idx := Positions(lines, f);
      assert forall j :: j in idx0 ==> j in idx;
      forall j | 0 <= j < |lines| && f(lines[j]) ensures j in idx {
        if j < n {
          assert init[j] == lines[j];
        }
      }
    }
  }

  /** The `for line in corr_part.split("\n")` loop that collects the corrections. */
  method CollectCorrections(lines: seq<string>) returns (corrections: seq<string>)
    ensures corrections == BulletEntries(lines)
  {
    corrections := [];
    var i := 0;
    while i < |lines|
      invariant 0 <= i <= |lines|
      invariant corrections == BulletEntries(lines[..i])
    {
      var line := Strip(lines[i]);
      EntriesSnoc(lines[..i], lines[i]);
      assert lines[..i + 1] == lines[..i] + [lines[i]];
      if StartsWith(line, "-") {
        corrections := corrections + [Strip(line[1..])];
      }
      i := i + 1;
    }
    assert lines[..|lines|] == lines;
  }

  lemma EntriesSnoc(init: seq<string>, line: string)
    ensures BulletEntries(init + [line])
            == BulletEntries(init) + (if IsBullet(line) then [BulletText(line)] else [])
  {
    assert (init + [line])[..|init|] == init;
  }

  /**
   * The lines of the corrections section: after `CORRECTIONS:`, cut at
   * `EXPLANATION:`, stripped, split at newlines. None without the marker;
   * otherwise newline-free lines that join back into the stripped section.
   */
  function CorrectionLines(response: string): (r: seq<string>)
    ensures !Contains(response, CorrectionsMarker) ==> r == []
    ensures Contains(response, CorrectionsMarker) ==>
              && |r| >= 1
              && Join(r, "\n") == Strip(Before(Section(response, CorrectionsMarker), ExplanationMarker))
              && forall k :: 0 <= k < |r| ==> Free(r[k], "\n")
  {
    if Contains(response, CorrectionsMarker) then
      var block := Strip(Split(Section(response, CorrectionsMarker), ExplanationMarker)[0]);
      JoinSplit(block, "\n");
      SplitPiecesFree(block, "\n");
      Split(block, "\n")
    else []
  }

  /** Indentation and trailing blanks around a line change neither whether it is a dash line nor its correction. */
  lemma BulletIgnoresPadding(a: string, line: string, b: string)
    requires AllSpace(a) && AllSpace(b)
    ensures IsBullet(a + line + b) == IsBullet(line)
    ensures IsBullet(line) ==> BulletText(a + line + b) == BulletText(line)
  {
    StripPadded(a, line, b);
  }

  /**
   * The parsing half of `correct_text`. The corrected text falls back to
   * the original text and the explanation to "" when their markers are
   * missing; the explanation is dropped when none was asked for.
   */
  function ParseReply(text: string, response: string, provideExplanation: bool): (r: Correction)
    ensures r.originalText == text
    ensures !Contains(response, CorrectedMarker) ==> r.correctedText == text
    ensures Contains(response, CorrectedMarker) ==> Trimmed(r.correctedText)
    ensures !Contains(response, CorrectionsMarker) ==> r.corrections == []
    ensures forall k :: 0 <= k < |r.corrections| ==> Trimmed(r.corrections[k])
    ensures !provideExplanation <==> r.explanation.None?
    ensures provideExplanation && !Contains(response, ExplanationMarker) ==> r.explanation == Some("")
    ensures r.explanation.Some? ==> Trimmed(r.explanation.value)
  {
    var corrected :=
      if Contains(response, CorrectedMarker) then
        Strip(Split(Section(response, CorrectedMarker), CorrectionsMarker)[0])
      else text;
    var explanation :=
      if Contains(response, ExplanationMarker) then Strip(Section(response, ExplanationMarker)) else "";
    Correction(text, corrected, BulletEntries(CorrectionLines(response)),
               if provideExplanation then Some(explanation) else None)
  }

  /** The parsing steps of `correct_text` as written: each field starts at its fallback and is overwritten when its marker occurs. */
  method ReadCorrection(text: string, response: string, provideExplanation: bool) returns (c: Correction)
    ensures c == ParseReply(text, response, provideExplanation)
  {
    var correctedText := text;
    var explanation := "";
    if Contains(response, CorrectedMarker) {
      correctedText := Strip(Split(Section(response, CorrectedMarker), CorrectionsMarker)[0]);
    }
    var corrections := CollectCorrections(CorrectionLines(response));
    if Contains(response, ExplanationMarker) {
      explanation := Strip(Section(response, ExplanationMarker));
    }
    c := Correction(text, correctedText, corrections, if provideExplanation then Some(explanation) else None);
  }

  // ---------------------------------------------------------------------
  // The reply format the correction prompt asks for, and the proof that the
  // parser reads back what a reply in that format says.
  // ---------------------------------------------------------------------

  function BulletLines(mistakes: seq<string>): (lines: seq<string>)
    ensures |lines| == |mistakes|
    ensures forall k :: 0 <= k < |lines| ==> lines[k] == "- " + mistakes[k]
  {
    seq(|mistakes|, k requires 0 <= k < |mistakes| => "- " + mistakes[k])
  }

  /** The corrections block: one "- item" line per correction, each ended by a newline. */
  function BulletBlock(mistakes: seq<string>): string
  {
    if mistakes == [] then "" else Join(BulletLines(mistakes), "\n") + "\n"
  }

  /**
   * A reply laid out with the markers `cm`, `km` and `em`: "cm <text>",
   * "km", one "- <item>" line per correction, then "em <text>".
   */
  function Layout(cm: string, km: string, em: string, corrected: string, mistakes: seq<string>, explanation: string): string
  {
    cm + " " + corrected + "\n" + km + "\n" + BulletBlock(mistakes) + em + " " + explanation
  }

  /** A reply laid out as the prompt of `correct_text` requests. */
  function FormatReply(corrected: string, mistakes: seq<string>, explanation: string): string
  {
    Layout(CorrectedMarker, CorrectionsMarker, ExplanationMarker, corrected, mistakes, explanation)
  }

  /** A marker: at least two characters, none of them a blank, a newline or a dash. */
  ghost predicate IsMarker(m: string) {
    |m| >= 2 && ' ' !in m && '\n' !in m && '-' !in m
  }

  /** Three markers, none of which occurs inside another. */
  ghost predicate Markers(cm: string, km: string, em: string) {
    && IsMarker(cm) && IsMarker(km) && IsMarker(em)
    && Free(cm, km) && Free(cm, em) && Free(km, cm) && Free(km, em) && Free(em, cm) && Free(em, km)
  }

  /** A field of a laid-out reply: no surrounding blanks and no marker inside. */
  ghost predicate Field(s: string, cm: string, km: string, em: string) {
    Trimmed(s) && Free(s, cm) && Free(s, km) && Free(s, em)
  }

  /** A field of a well-formed reply. */
  ghost predicate Plain(s: string) {
    Field(s, CorrectedMarker, CorrectionsMarker, ExplanationMarker)
  }

  /**
   * Round trip: parsing a reply in the requested format gives back the
   * corrected text, the corrections and the explanation it was built from,
   * provided the corrected text and the corrections are single-line, the
   * corrections non-empty, and no field is padded or holds a marker.
   */
  lemma ParseFormatted(text: string, corrected: string, mistakes: seq<string>, explanation: string,
                       provideExplanation: bool)
    requires Plain(corrected) && '\n' !in corrected
    requires forall k :: 0 <= k < |mistakes| ==> Plain(mistakes[k]) && '\n' !in mistakes[k] && mistakes[k] != []
    requires Plain(explanation)
    ensures ParseReply(text, FormatReply(corrected, mistakes, explanation), provideExplanation)
            == Correction(text, corrected, mistakes, if provideExplanation then Some(explanation) else None)
  {
    MarkerFacts();
    LayoutCorrected(CorrectedMarker, CorrectionsMarker, ExplanationMarker, corrected, mistakes, explanation);
    LayoutCorrections(CorrectedMarker, CorrectionsMarker, ExplanationMarker, corrected, mistakes, explanation);
    LayoutExplanation(CorrectedMarker, CorrectionsMarker, ExplanationMarker, corrected, mistakes, explanation);
  }

  /** The three markers the prompt names satisfy `Markers`. */
  lemma MarkerFacts()
    ensures Markers(CorrectedMarker, CorrectionsMarker, ExplanationMarker)
  {
    FreeByLength(CorrectedMarker, CorrectionsMarker);
    FreeByLength(CorrectedMarker, ExplanationMarker);
    FreeByMissingChar(CorrectionsMarker, CorrectedMarker, 'D');
    FreeByMissingChar(ExplanationMarker, CorrectedMarker, 'D');
    FreeByMissingChar(CorrectionsMarker, ExplanationMarker, 'X');
    FreeByMissingChar(ExplanationMarker, CorrectionsMarker, 'R');
  }

  lemma FreeByMissingChar(s: string, p: string, c: char)
    requires c in p && c !in s
    ensures Free(s, p)
  {
  }

  /** A marker at the very start: the section after it is the rest, when the marker does not recur. */
  lemma SectionOfLeading(p: string, w: string)
    requires p != [] && Free(w, p)
    ensures Contains(p + w, p) && Section(p + w, p) == w
  {
    var s := p + w;
    assert s[0..|p|] == p;
    IndexOfIs(s, p, Some(0));
    assert s[|p|..] == w;
    IndexOfIs(w, p, None);
  }

  /** A marker that opens the line after `x`: the section after it is the rest, when it does not recur. */
  lemma SectionOfLater(x: string, ch: char, p: string, w: string)
    requires p != [] && ch !in p && Free(x, p) && Free(w, p)
    ensures Contains(x + [ch] + (p + w), p) && Section(x + [ch] + (p + w), p) == w
  {
    var s := x + [ch] + (p + w);
    assert (p + w)[0..|p|] == p;
    IndexOfIs(p + w, p, Some(0));
    IndexOfAround(x, ch, p + w, p);
    assert s[|x| + 1 + |p|..] == w;
    IndexOfIs(w, p, None);
  }

  /** A marker that opens the line after `x`: what comes before it is `x` and the line break. */
  lemma BeforeLater(x: string, ch: char, p: string, w: string)
    requires p != [] && ch !in p && Free(x, p)
    ensures Split(x + [ch] + (p + w), p)[0] == x + [ch]
  {
    var s := x + [ch] + (p + w);
    assert (p + w)[0..|p|] == p;
    IndexOfIs(p + w, p, Some(0));
    IndexOfAround(x, ch, p + w, p);
    assert s[..|x| + 1] == x + [ch];
  }

  lemma FreeCons(ch: char, y: string, p: string)
    requires p != [] && Free(y, p) && ch !in p
    ensures Free([ch] + y, p)
  {
    FreeByLength([], p);
    FreeAround([], ch, y, p);
    assert [] + [ch] + y == [ch] + y;
  }

  lemma FreeAroundRight(x: string, ch: char, y: string, p: string)
    requires Free(x, p) && Free(y, p) && ch !in p
    ensures Free(x + ([ch] + y), p)
  {
    FreeAround(x, ch, y, p);
    assert x + [ch] + y == x + ([ch] + y);
  }

  /** The groupings of a laid-out reply the three field lemmas read it by. */
  lemma LayoutShapes(cm: string, c: string, km: string, b: string, b0: string, em: string, e: string)
    ensures var s := cm + " " + c + "\n" + km + "\n" + b + em + " " + e;
            var tail := b + em + " " + e;
            && s == cm + ((" " + c) + "\n" + (km + ("\n" + tail)))
            && s == (cm + " " + c) + "\n" + (km + ("\n" + tail))
            && (b == [] ==> "\n" + tail == [] + "\n" + (em + (" " + e)))
            && (b == [] ==> s == (cm + " " + c + "\n" + km) + "\n" + (em + (" " + e)))
            && (b == b0 + "\n" ==> "\n" + tail == ("\n" + b0) + "\n" + (em + (" " + e)))
            && (b == b0 + "\n" ==> s == (cm + " " + c + "\n" + km + "\n" + b0) + "\n" + (em + (" " + e)))
  {
  }

  /** The corrected text is read back from the first line of a laid-out reply. */
  lemma LayoutCorrected(cm: string, km: string, em: string, corrected: string, mistakes: seq<string>, explanation: string)
    requires Markers(cm, km, em)
    requires Field(corrected, cm, km, em) && '\n' !in corrected
    requires forall k :: 0 <= k < |mistakes| ==> Field(mistakes[k], cm, km, em)
    requires Field(explanation, cm, km, em)
    ensures var reply := Layout(cm, km, em, corrected, mistakes, explanation);
            && Contains(reply, cm)
            && Strip(Split(Section(reply, cm), km)[0]) == corrected
  {
    var tail := BulletBlock(mistakes) + em + " " + explanation;
    LayoutSectionAfterCorrected(cm, km, em, corrected, mistakes, explanation);
    // The corrected line ends where `km` begins.
    FreeCons(' ', corrected, km);
    BeforeLater(" " + corrected, '\n', km, "\n" + tail);
    assert AllSpace(" ") && AllSpace("\n");
    StripPadded(" ", corrected, "\n");
    StripTrimmed(corrected);
  }

  /** No second `cm` follows the first, so the section after it runs to the end of the reply. */
  lemma LayoutSectionAfterCorrected(cm: string, km: string, em: string, corrected: string, mistakes: seq<string>,
                                    explanation: string)
    requires Markers(cm, km, em)
    requires Field(corrected, cm, km, em)
    requires forall k :: 0 <= k < |mistakes| ==> Field(mistakes[k], cm, km, em)
    requires Field(explanation, cm, km, em)
    ensures var reply := Layout(cm, km, em, corrected, mistakes, explanation);
            var tail := BulletBlock(mistakes) + em + " " + explanation;
            && Contains(reply, cm)
            && Section(reply, cm) == " " + corrected + "\n" + (km + ("\n" + tail))
  {
    var tail := BulletBlock(mistakes) + em + " " + explanation;
    LayoutShapes(cm, corrected, km, BulletBlock(mistakes), [], em, explanation);
    var head := " " + corrected;
    var rest := km + ("\n" + tail);
    FreeTail(mistakes, explanation, em, cm);
    FreeCons('\n', tail, cm);
    FreeAroundRight(km, '\n', tail, cm);
    FreeCons(' ', corrected, cm);
    FreeAround(head, '\n', rest, cm);
    SectionOfLeading(cm, head + "\n" + rest);
  }

  /** The corrections are read back from the dash lines of a laid-out reply. */
  lemma LayoutCorrections(cm: string, km: string, em: string, corrected: string, mistakes: seq<string>, explanation: string)
    requires Markers(cm, km, em)
    requires Field(corrected, cm, km, em)
    requires forall k :: 0 <= k < |mistakes| ==> Field(mistakes[k], cm, km, em) && '\n' !in mistakes[k] && mistakes[k] != []
    requires Field(explanation, cm, km, em)
    ensures var reply := Layout(cm, km, em, corrected, mistakes, explanation);
            && Contains(reply, km)
            && BulletEntries(Split(Strip(Split(Section(reply, km), em)[0]), "\n")) == mistakes
  {
    var b0 := if mistakes == [] then [] else Join(BulletLines(mistakes), "\n");
    var tail := BulletBlock(mistakes) + em + " " + explanation;
    LayoutShapes(cm, corrected, km, BulletBlock(mistakes), b0, em, explanation);
    var head := cm + " " + corrected;
    FreeAround(cm, ' ', corrected, km);
    FreeTail(mistakes, explanation, em, km);
    FreeCons('\n', tail, km);
    SectionOfLater(head, '\n', km, "\n" + tail);
    // The block runs up to the line break before `em`.
    if mistakes == [] {
      NoEntriesOfEmptyBlock(em, explanation);
    } else {
      EntriesOfBlock(mistakes, b0, cm, km, em, explanation);
    }
  }

  lemma NoEntriesOfEmptyBlock(em: string, explanation: string)
    requires IsMarker(em)
    ensures BulletEntries(Split(Strip(Split([] + "\n" + (em + (" " + explanation)), em)[0]), "\n")) == []
  {
    FreeByLength([], em);
    BeforeLater([], '\n', em, " " + explanation);
    assert AllSpace("\n");
    assert Strip("\n") == [];
    assert Split([], "\n") == [[]];
    assert !IsBullet([]);
  }

  lemma EntriesOfBlock(mistakes: seq<string>, b0: string, cm: string, km: string, em: string, explanation: string)
    requires Markers(cm, km, em)
    requires mistakes != [] && b0 == Join(BulletLines(mistakes), "\n")
    requires forall k :: 0 <= k < |mistakes| ==> Field(mistakes[k], cm, km, em) && '\n' !in mistakes[k] && mistakes[k] != []
    ensures BulletEntries(Split(Strip(Split(("\n" + b0) + "\n" + (em + (" " + explanation)), em)[0]), "\n")) == mistakes
  {
    BlockOfSection(mistakes, b0, cm, km, em, explanation);
    var lines := BulletLines(mistakes);
    forall k | 0 <= k < |lines| ensures '\n' !in lines[k] {
      assert lines[k] == "- " + mistakes[k];
    }
    SplitJoin(lines, '\n');
    EntriesOfBulletLines(mistakes);
  }

  lemma BlockOfSection(mistakes: seq<string>, b0: string, cm: string, km: string, em: string, explanation: string)
    requires Markers(cm, km, em)
    requires mistakes != [] && b0 == Join(BulletLines(mistakes), "\n")
    requires forall k :: 0 <= k < |mistakes| ==> Field(mistakes[k], cm, km, em) && mistakes[k] != []
    ensures Strip(Split(("\n" + b0) + "\n" + (em + (" " + explanation)), em)[0]) == b0
  {
    FreeLines(mistakes, em);
    FreeCons('\n', b0, em);
    BeforeLater("\n" + b0, '\n', em, " " + explanation);
    assert AllSpace("\n");
    StripPadded("\n", b0, "\n");
    BlockTrimmed(mistakes);
    StripTrimmed(b0);
  }

  /** The explanation is read back from the last line of a laid-out reply. */
  lemma LayoutExplanation(cm: string, km: string, em: string, corrected: string, mistakes: seq<string>, explanation: string)
    requires Markers(cm, km, em)
    requires Field(corrected, cm, km, em)
    requires forall k :: 0 <= k < |mistakes| ==> Field(mistakes[k], cm, km, em)
    requires Field(explanation, cm, km, em)
    ensures var reply := Layout(cm, km, em, corrected, mistakes, explanation);
            && Contains(reply, em)
            && Strip(Section(reply, em)) == explanation
  {
    var b0 := if mistakes == [] then [] else Join(BulletLines(mistakes), "\n");
    LayoutShapes(cm, corrected, km, BulletBlock(mistakes), b0, em, explanation);
    var head := cm + " " + corrected;
    FreeAround(cm, ' ', corrected, em);
    FreeAround(head, '\n', km, em);
    var upTo := head + "\n" + km;
    if mistakes != [] {
      FreeLines(mistakes, em);
      FreeAround(upTo, '\n', b0, em);
      upTo := upTo + "\n" + b0;
    }
    FreeCons(' ', explanation, em);
    SectionOfLater(upTo, '\n', em, " " + explanation);
    assert AllSpace(" ") && AllSpace([]);
    assert " " + explanation + [] == " " + explanation;
    StripPadded(" ", explanation, []);
    StripTrimmed(explanation);
  }

  /** A marker other than `em` occurs neither in the corrections block nor in the `em` line after it. */
  lemma FreeTail(mistakes: seq<string>, explanation: string, em: string, p: string)
    requires IsMarker(p) && Free(em, p)
    requires forall k :: 0 <= k < |mistakes| ==> Free(mistakes[k], p)
    requires Free(explanation, p)
    ensures Free(BulletBlock(mistakes) + em + " " + explanation, p)
  {
    var last := em + " " + explanation;
    FreeAround(em, ' ', explanation, p);
    if mistakes == [] {
      assert BulletBlock(mistakes) + em + " " + explanation == last;
    } else {
      FreeLines(mistakes, p);
      FreeAround(Join(BulletLines(mistakes), "\n"), '\n', last, p);
      assert BulletBlock(mistakes) + em + " " + explanation
             == Join(BulletLines(mistakes), "\n") + ['\n'] + last;
    }
  }

  /** A marker occurs nowhere in the joined dash lines. */
  lemma FreeLines(mistakes: seq<string>, p: string)
    requires |mistakes| >= 1 && IsMarker(p)
    requires forall k :: 0 <= k < |mistakes| ==> Free(mistakes[k], p)
    ensures Free(Join(BulletLines(mistakes), "\n"), p)
  {
    var lines := BulletLines(mistakes);
    forall k | 0 <= k < |lines| ensures Free(lines[k], p) {
      FreeByLength("-", p);
      assert lines[k] == "-" + [' '] + mistakes[k];
      FreeAround("-", ' ', mistakes[k], p);
    }
    FreeJoin(lines, '\n', p);
  }

  lemma {:induction false} FreeJoin(parts: seq<string>, ch: char, p: string)
    requires |parts| >= 1 && ch !in p
    requires forall k :: 0 <= k < |parts| ==> Free(parts[k], p)
    ensures Free(Join(parts, [ch]), p)
    decreases |parts|
  {
    if |parts| > 1 {
      FreeJoin(parts[1..], ch, p);
      FreeAround(parts[0], ch, Join(parts[1..], [ch]), p);
    }
  }

  /** The joined dash lines start with a dash and end with the last correction's last character. */
  lemma BlockTrimmed(mistakes: seq<string>)
    requires |mistakes| >= 1
    requires forall k :: 0 <= k < |mistakes| ==> Trimmed(mistakes[k]) && mistakes[k] != []
    ensures Trimmed(Join(BulletLines(mistakes), "\n"))
  {
    var lines := BulletLines(mistakes);
    var n := |mistakes| - 1;
    JoinEnds(lines, "\n");
    assert lines[n][|lines[n]| - 1] == mistakes[n][|mistakes[n]| - 1];
  }

  lemma JoinEnds(parts: seq<string>, sep: string)
    requires |parts| >= 1 && parts[0] != [] && parts[|parts| - 1] != []
    ensures var j := Join(parts, sep);
            j != [] && j[0] == parts[0][0] && j[|j| - 1] == parts[|parts| - 1][|parts[|parts| - 1]| - 1]
  {
    JoinEndsLast(parts, sep);
  }

  lemma {:induction false} JoinEndsLast(parts: seq<string>, sep: string)
    requires |parts| >= 1 && parts[|parts| - 1] != []
    ensures var j := Join(parts, sep);
            j != [] && j[|j| - 1] == parts[|parts| - 1][|parts[|parts| - 1]| - 1]
    decreases |parts|
  {
    if |parts| > 1 {
      JoinEndsLast(parts[1..], sep);
    }
  }

  /** Each dash line built from a correction is read back as that correction. */
  lemma {:induction false} EntriesOfBulletLines(mistakes: seq<string>)
    requires forall k :: 0 <= k < |mistakes| ==> Trimmed(mistakes[k]) && mistakes[k] != []
    ensures BulletEntries(BulletLines(mistakes)) == mistakes
    decreases |mistakes|
  {
    if mistakes != [] {
      var n := |mistakes| - 1;
      var init, m := mistakes[..n], mistakes[n];
      assert mistakes == init + [m];
      EntriesOfBulletLines(init);
      BulletLinesSnoc(init, m);
      EntriesAfterDashLine(BulletLines(init), m);
    }
  }

  lemma BulletLinesSnoc(init: seq<string>, m: string)
    ensures BulletLines(init + [m]) == BulletLines(init) + ["- " + m]
  {
    var all := init + [m];
    assert forall k :: 0 <= k < |init| ==> all[k] == init[k];
  }

  lemma EntriesAfterDashLine(lines: seq<string>, m: string)
    requires Trimmed(m) && m != []
    ensures BulletEntries(lines + ["- " + m]) == BulletEntries(lines) + [m]
  {
    EntriesSnoc(lines, "- " + m);
    BulletTextOfLine(m);
  }

  lemma BulletTextOfLine(m: string)
    requires Trimmed(m) && m != []
    ensures IsBullet("- " + m) && BulletText("- " + m) == m
  {
    var line := "- " + m;
    DashLineTrimmed(m);
    StripTrimmed(line);
    assert StartsWith(line, "-");
    StripAfterDash(m);
    assert line[1..] == " " + m;
  }

  lemma DashLineTrimmed(m: string)
    requires Trimmed(m) && m != []
    ensures Trimmed("- " + m)
  {
    var line := "- " + m;
    assert line[0] == '-';
    assert line[|line| - 1] == m[|m| - 1];
  }

  lemma StripAfterDash(m: string)
    requires Trimmed(m)
    ensures Strip(" " + m) == m
  {
    assert AllSpace(" ") && AllSpace([]);
    assert " " + m + [] == " " + m;
    StripPadded(" ", m, []);
    StripTrimmed(m);
  }
}
