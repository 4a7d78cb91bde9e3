/**
 * The text side of the watermark remover (src/utils/watermarkRemover.js): the
 * two pattern tables, `cleanFilename`, `cleanTextContent`, `isSystemGenerated`,
 * `cleanAuthorName`, `extractAuthorFromTitle` and the author priority of
 * `extractCleanMetadata`.
 */
module WatermarkText {

  import opened Wrappers
  import opened Strings
  import opened Regex

  /** A pattern of the tables, with its `i` flag; the tables' patterns all carry `g`. */
  datatype Pattern = Pattern(re: Re, ic: bool)

  /** `[a-zA-Z]` */
  const Letters: Class := Class(IsAsciiLetter, false)

  /** `[a-zA-Z0-9.-]` */
  const HostClass: Class := Class(c => IsAsciiLetter(c) || IsDigit(c) || c == '.' || c == '-', false)

  /** `\d` */
  const Digit: Re := AnyOf(Class(IsDigit, false))

  /** A literal phrase with the `gi` flags. */
  function Phrase(w: string): Pattern {
    Pattern(Str(w), true)
  }

  /** `[a-zA-Z0-9.-]+` followed by a literal ending such as `\.com`. */
  function HostEnding(ending: string): Pattern {
    Pattern(Cat(Plus(AnyOf(HostClass)), Str(ending)), true)
  }

  /** `open .* watermark .* close`, greedy or lazy. */
  function Bracketed(open: char, close: char, greedy: bool): Pattern {
    var any := Star(AnyOf(DotClass), greedy);
    Pattern(Concat([Lit(open), any, Str("watermark"), any, Lit(close)]), true)
  }

  /** The `watermarkPatterns` table, in order; each match is deleted. */
  const WatermarkPatterns: seq<Pattern> := [
    Phrase("watermark"), Phrase("sample"), Phrase("preview"), Phrase("demo"), Phrase("trial"),
    Phrase("evaluation"), Phrase("copyright"),
    Pattern(Lit('©'), false), Pattern(Lit('®'), false), Pattern(Lit('™'), false),
    // www\.[a-zA-Z0-9.-]+\.[a-zA-Z]{2,}
    Pattern(Concat([Str("www."), Plus(AnyOf(HostClass)), Lit('.'), AnyOf(Letters), AnyOf(Letters), Star(AnyOf(Letters), true)]), true),
    // https?:\/\/[a-zA-Z0-9.-]+
    Pattern(Concat([Str("http"), Opt(Lit('s')), Str("://"), Plus(AnyOf(HostClass))]), true),
    HostEnding(".com"), HostEnding(".org"), HostEnding(".net"),
    Phrase("this is a sample"), Phrase("for preview only"), Phrase("not for distribution"),
    Phrase("confidential"), Phrase("draft"), Phrase("internal use"), Phrase("property of"),
    Phrase("scribd"), Phrase("slideshare"), Phrase("academia.edu"), Phrase("researchgate"),
    Phrase("pdfdrive"), Phrase("libgen"), Phrase("z-library"), Phrase("zlibrary"),
    Phrase("springer"), Phrase("elsevier"), Phrase("wiley"), Phrase("pearson"),
    // mcgraw.?hill
    Pattern(Concat([Str("mcgraw"), Opt(AnyOf(DotClass)), Str("hill")]), true),
    Bracketed('[', ']', true), Bracketed('(', ')', true), Bracketed('{', '}', true),
    // -\s*watermark and watermark\s*-
    Pattern(Concat([Lit('-'), Star(Space, true), Str("watermark")]), true),
    Pattern(Concat([Str("watermark"), Star(Space, true), Lit('-')]), true)
  ]

  /** `[-\s]` */
  const DashOrSpace: Class := Class(c => c == '-' || IsSpace(c), false)

  /** `\s*-\s*` */
  const SpacedDash: Re := Concat([Star(Space, true), Lit('-'), Star(Space, true)])

  /** The `filenamePatterns` table, in order; each match becomes a space. */
  const FilenamePatterns: seq<Pattern> := [
    Phrase("_watermark"), Phrase("_sample"), Phrase("_preview"), Phrase("_demo"), Phrase("_trial"),
    Bracketed('[', ']', false), Bracketed('(', ')', false), Bracketed('{', '}', false),
    // \s*-\s*www\.[a-zA-Z0-9.-]+ and \s*-\s*[a-zA-Z0-9.-]+\.com
    Pattern(Concat([SpacedDash, Str("www."), Plus(AnyOf(HostClass))]), true),
    Pattern(Concat([SpacedDash, Plus(AnyOf(HostClass)), Str(".com")]), true),
    // \s*v\d+ and \s*version\s*\d+
    Pattern(Concat([Star(Space, true), Lit('v'), Plus(Digit)]), true),
    Pattern(Concat([Star(Space, true), Str("version"), Star(Space, true), Plus(Digit)]), true),
    // \s*-\s*-\s*
    Pattern(Concat([SpacedDash, Lit('-'), Star(Space, true)]), false),
    // \s{2,}
    Pattern(Concat([Space, Space, Star(Space, true)]), false),
    // ^[-\s]+|[-\s]+$
    Pattern(Alt(Cat(Bol, Plus(AnyOf(DashOrSpace))), Cat(Plus(AnyOf(DashOrSpace)), Eol)), false)
  ]

  /** The `forEach` over a table: each pattern in turn, every match replaced with `t`. */
  function Applied(ps: seq<Pattern>, s: string, t: string): string
    decreases |ps|
  {
    if ps == [] then s
    else
      var p := ps[|ps| - 1];
      ReplaceAll(p.re, Applied(ps[..|ps| - 1], s, t), Text(t), p.ic)
  }

  /** No pass of the table brings in a character that neither the string nor the replacement holds. */
  lemma {:induction false} AppliedKeepsOut(ps: seq<Pattern>, s: string, t: string, c: char)
    requires c !in s && c !in t
    ensures c !in Applied(ps, s, t)
    decreases |ps|
  {
    if ps != [] {
      var p := ps[|ps| - 1];
      AppliedKeepsOut(ps[..|ps| - 1], s, t, c);
      ReplaceAllKeepsOut(p.re, Applied(ps[..|ps| - 1], s, t), t, p.ic, c);
    }
  }

  /** After a one-character pattern of the table, the characters it accepts are gone for good. */
  lemma {:induction false} AppliedRemoves(ps: seq<Pattern>, j: nat, s: string, t: string, c: char)
    requires j < |ps| && OneChar(ps[j].re) && Hits(ps[j].re, c, ps[j].ic) && c !in t
    ensures c !in Applied(ps, s, t)
    decreases |ps|
  {
    var p := ps[|ps| - 1];
    var before := Applied(ps[..|ps| - 1], s, t);
    if j == |ps| - 1 {
      ReplaceAllOneChar(p.re, before, Text(t), p.ic);
      EachCharRemoves(p.re, before, t, p.ic, c);
    } else {
      assert ps[..|ps| - 1][j] == ps[j];
      AppliedRemoves(ps[..|ps| - 1], j, s, t, c);
      ReplaceAllKeepsOut(p.re, before, t, p.ic, c);
    }
  }

  lemma AppliedStep(ps: seq<Pattern>, k: nat, s: string, t: string)
    requires k < |ps|
    ensures Applied(ps[..k + 1], s, t) == ReplaceAll(ps[k].re, Applied(ps[..k], s, t), Text(t), ps[k].ic)
  {
    assert ps[..k + 1][..k] == ps[..k];
  }

  lemma AppliedAll(ps: seq<Pattern>, s: string, t: string)
    ensures Applied(ps[..|ps|], s, t) == Applied(ps, s, t)
  {
    assert ps[..|ps|] == ps;
  }

  // ---------------------------------------------------------------------------
  // cleanTextContent

  /** `\n\s*\n` */
  const BlankLines: Re := Concat([Lit('\n'), Star(Space, true), Lit('\n')])

  /** What `cleanTextContent` returns. */
  function CleanText(text: string): string {
    if text == [] then text
    else
      var stripped := Applied(WatermarkPatterns, text, "");
      Trim(ReplaceAll(BlankLines, ReplaceAll(Plus(Space), stripped, Text(" "), false), Text("\n"), false))
  }

  /** A string with no line feed holds no match of `\n\s*\n`. */
  lemma BlankLinesNowhere(s: string)
    requires '\n' !in s
    ensures ReplaceAll(BlankLines, s, Text("\n"), false) == s
  {
    var rest := Concat([Star(Space, true), Lit('\n')]);
    forall k | 0 <= k <= |s| ensures !MatchesAt(BlankLines, s, k, false) {
      OneCharStep(Lit('\n'), rest, s, k, false);
    }
    ReplaceAllNoMatch(BlankLines, s, Text("\n"), false);
  }

  /** The whitespace collapse, with the `\n\s*\n` pass that then finds nothing to do. */
  lemma CollapseStep(s: string)
    ensures var c := ReplaceAll(Plus(Space), s, Text(" "), false);
      && c == CollapseSpaces(s)
      && ReplaceAll(BlankLines, c, Text("\n"), false) == c
  {
    var c := ReplaceAll(Plus(Space), s, Text(" "), false);
    ReplaceAllSpaces(s);
    CollapseSpacesSingleSpaced(s);
    assert '\n' !in c;
    BlankLinesNowhere(c);
  }

  /** `cleanTextContent` leaves a trimmed string whose only whitespace is single spaces. */
  lemma CleanTextNormalized(text: string)
    requires text != []
    ensures Normalized(CleanText(text))
  {
    CollapseStep(Applied(WatermarkPatterns, text, ""));
    CollapseTrimNormalized(Applied(WatermarkPatterns, text, ""));
  }

  /** The table deletes every copyright, registered and trade mark sign. */
  lemma MarksStripped(text: string, c: char)
    requires c == '©' || c == '®' || c == '™'
    ensures c !in Applied(WatermarkPatterns, text, "")
  {
    var j := if c == '©' then 7 else if c == '®' then 8 else 9;
    assert WatermarkPatterns[j] == Pattern(Lit(c), false);
    AppliedRemoves(WatermarkPatterns, j, text, "", c);
  }

  /** `cleanTextContent` leaves no copyright, registered or trade mark sign. */
  lemma CleanTextNoMarks(text: string, c: char)
    requires c == '©' || c == '®' || c == '™'
    ensures c !in CleanText(text)
  {
    if text != [] {
      var stripped := Applied(WatermarkPatterns, text, "");
      MarksStripped(text, c);
      CollapseStep(stripped);
      CollapseSpacesChars(stripped, c);
      TrimKeepsOut(CollapseSpaces(stripped), c);
    }
  }

  /** `cleanTextContent(text)`: the table's passes, then the whitespace clean-up. */
  method CleanTextContent(text: string) returns (cleaned: string)
    ensures cleaned == CleanText(text)
    ensures text == [] ==> cleaned == text
    ensures text != [] ==> Normalized(cleaned)
    ensures '©' !in cleaned && '®' !in cleaned && '™' !in cleaned
  {
    CleanTextNoMarks(text, '©');
    CleanTextNoMarks(text, '®');
    CleanTextNoMarks(text, '™');
    if text == [] {
      return text;
    }
    CleanTextNormalized(text);
    cleaned := text;
    for k := 0 to |WatermarkPatterns|
      invariant cleaned == Applied(WatermarkPatterns[..k], text, "")
    {
      AppliedStep(WatermarkPatterns, k, text, "");
      var p := WatermarkPatterns[k];
      cleaned := ReplaceAll(p.re, cleaned, Text(""), p.ic);
    }
    AppliedAll(WatermarkPatterns, text, "");
    cleaned := ReplaceAll(Plus(Space), cleaned, Text(" "), false);
    cleaned := ReplaceAll(BlankLines, cleaned, Text("\n"), false);
    cleaned := Trim(cleaned);
  }

  // ---------------------------------------------------------------------------
  // cleanFilename

  /** The name ends in `.pdf`, in any mix of cases. */
  predicate HasPdfExtension(name: string) {
    && |name| >= 4
    && name[|name| - 4] == '.'
    && name[|name| - 3] in "pP" && name[|name| - 2] in "dD" && name[|name| - 1] in "fF"
  }

  /** `toLowerCase().endsWith('.pdf')`, and then `slice(0, -4)`. */
  function StripPdf(name: string): string {
    if EndsWith(LowerString(name), ".pdf") then name[..|name| - 4] else name
  }

  /** Exactly four characters go, and only when the name ends in `.pdf` in any case. */
  lemma StripPdfExactly(name: string)
    ensures HasPdfExtension(name) ==> StripPdf(name) == name[..|name| - 4]
    ensures !HasPdfExtension(name) ==> StripPdf(name) == name
  {
    var lower := LowerString(name);
    var n := |name|;
    if n >= 4 {
      assert lower[n - 4..] == [Lower(name[n - 4]), Lower(name[n - 3]), Lower(name[n - 2]), Lower(name[n - 1])];
    }
  }

  /** `[-_]` */
  const DashUnderscore: Re := AnyOf(OneOf("-_"))

  /** What `cleanFilename` returns. */
  function CleanName(filename: string): string {
    ReplaceAll(WordStartRe, TidyName(filename), ToUpper, false)
  }

  lemma DashesGone(s: string, c: char)
    requires c == '-' || c == '_'
    ensures c !in Trim(CollapseSpaces(ReplaceAll(DashUnderscore, s, Text(" "), false)))
  {
    var words := ReplaceAll(DashUnderscore, s, Text(" "), false);
    ReplaceAllOneChar(DashUnderscore, s, Text(" "), false);
    EachCharRemoves(DashUnderscore, s, " ", false, c);
    CollapseSpacesChars(words, c);
    TrimKeepsOut(CollapseSpaces(words), c);
  }

  /** The string `cleanFilename` capitalises: the table's passes, dashes and underscores turned into spaces, whitespace tidied. */
  function TidyName(filename: string): (tidy: string)
    ensures '-' !in tidy && '_' !in tidy && Normalized(tidy)
  {
    var words := ReplaceAll(DashUnderscore, Applied(FilenamePatterns, StripPdf(filename), " "), Text(" "), false);
    ReplaceAllSpaces(words);
    DashesGone(Applied(FilenamePatterns, StripPdf(filename), " "), '-');
    DashesGone(Applied(FilenamePatterns, StripPdf(filename), " "), '_');
    CollapseTrimNormalized(words);
    Trim(ReplaceAll(Plus(Space), words, Text(" "), false))
  }

  /** Upper-casing the word starts keeps the string normalized, brings in no dash or underscore, and leaves no word start in lower case. */
  lemma CapitalizedShape(tidy: string)
    requires '-' !in tidy && '_' !in tidy && Normalized(tidy)
    ensures var r := CapitalizeWordStarts(tidy);
      && '-' !in r && '_' !in r && Normalized(r)
      && forall k :: 0 <= k < |r| && WordStart(r, k) ==> !IsAsciiLower(r[k])
  {
    var r := CapitalizeWordStarts(tidy);
    StartUpperKeepsOut(tidy, '-');
    StartUpperKeepsOut(tidy, '_');
    StartUpperKeepsNormalized(tidy);
    forall k | 0 <= k < |r| && WordStart(r, k) ensures !IsAsciiLower(r[k]) {
      if k > 0 {
        assert r[k - 1] == StartUpper(tidy, k - 1);
      }
    }
  }

  /**
   * The result of `cleanFilename` holds no dash or underscore, is trimmed, has single
   * spaces only, and every run of word characters starts with no lower-case letter.
   */
  lemma CleanNameShape(filename: string)
    ensures var r := CleanName(filename);
      && '-' !in r && '_' !in r && Normalized(r)
      && forall k :: 0 <= k < |r| && WordStart(r, k) ==> !IsAsciiLower(r[k])
  {
    var tidy := TidyName(filename);
    ReplaceAllWordStarts(tidy);
    CapitalizedShape(tidy);
  }

  /** `cleanFilename(filename)`. */
  method CleanFilename(filename: string) returns (cleaned: string)
    ensures cleaned == CleanName(filename)
    ensures '-' !in cleaned && '_' !in cleaned && Normalized(cleaned)
    ensures forall k :: 0 <= k < |cleaned| && WordStart(cleaned, k) ==> !IsAsciiLower(cleaned[k])
  {
    CleanNameShape(filename);
    cleaned := filename;
    if EndsWith(LowerString(cleaned), ".pdf") {
      cleaned := cleaned[..|cleaned| - 4];
    }
    assert cleaned == StripPdf(filename);
    ghost var stem := cleaned;
    for k := 0 to |FilenamePatterns|
      invariant cleaned == Applied(FilenamePatterns[..k], stem, " ")
    {
      AppliedStep(FilenamePatterns, k, stem, " ");
      var p := FilenamePatterns[k];
      cleaned := ReplaceAll(p.re, cleaned, Text(" "), p.ic);
    }
    AppliedAll(FilenamePatterns, stem, " ");
    assert cleaned == Applied(FilenamePatterns, StripPdf(filename), " ");
    cleaned := ReplaceAll(DashUnderscore, cleaned, Text(" "), false);
    cleaned := Trim(ReplaceAll(Plus(Space), cleaned, Text(" "), false));
    assert cleaned == TidyName(filename);
    cleaned := ReplaceAll(WordStartRe, cleaned, ToUpper, false);
  }
}
