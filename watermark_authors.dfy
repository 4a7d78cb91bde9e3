/**
 * Author names in the watermark remover (src/utils/watermarkRemover.js):
 * `isSystemGenerated`, `cleanAuthorName`, `extractAuthorFromTitle`, and the
 * selection `extractCleanMetadata` makes over a PDF's document information.
 */
module WatermarkAuthors {

  import opened Wrappers
  import opened Strings
  import opened Regex
  import opened WatermarkText

  // ---------------------------------------------------------------------------
  // isSystemGenerated

  /** The names `isSystemGenerated` rejects when they make up the whole trimmed string, in any case. */
  const SystemNames: seq<string> := [
    "user", "admin", "administrator", "owner", "default", "system", "computer", "pc", "laptop",
    "desktop", "windows", "microsoft", "adobe", "acrobat", "reader", "unknown", "anonymous"
  ]

  /** `/^name$/i` */
  function WholeName(name: string): Pattern {
    Pattern(Cat(Bol, Cat(Str(name), Eol)), true)
  }

  /** `/^\s*$/` */
  const BlankPattern: Pattern := Pattern(Cat(Bol, Cat(Star(Space, true), Eol)), false)

  /** `/^[a-zA-Z]:\\/` */
  const WindowsPattern: Pattern := Pattern(Cat(Bol, Cat(AnyOf(Letters), Cat(Lit(':'), Lit('\\')))), false)

  /** `/^\/[a-zA-Z]/` */
  const UnixPattern: Pattern := Pattern(Cat(Bol, Cat(Lit('/'), AnyOf(Letters))), false)

  /** The `systemPatterns` list, in order. */
  const SystemPatterns: seq<Pattern> := [
    WholeName("user"), WholeName("admin"), WholeName("administrator"), WholeName("owner"),
    WholeName("default"), WholeName("system"), WholeName("computer"), WholeName("pc"),
    WholeName("laptop"), WholeName("desktop"), WholeName("windows"), WholeName("microsoft"),
    WholeName("adobe"), WholeName("acrobat"), WholeName("reader"), WholeName("unknown"),
    WholeName("anonymous"), BlankPattern, WindowsPattern, UnixPattern
  ]

  /** `ps.some(p => p.test(t))` */
  predicate SomeTest(ps: seq<Pattern>, t: string) {
    exists k :: 0 <= k < |ps| && Test(ps[k].re, t, ps[k].ic)
  }

  /** `isSystemGenerated(author)`: some pattern of the list accepts the trimmed name. */
  predicate IsSystemGenerated(author: string) {
    SomeTest(SystemPatterns, Trim(author))
  }

  /** The string is one of the listed names, ignoring ASCII case. */
  predicate IsSystemName(t: string) {
    exists k :: 0 <= k < |SystemNames| && SameIgnoringCase(t, SystemNames[k])
  }

  /** A letter, a colon and a backslash: the start of a Windows path. */
  predicate IsWindowsPath(t: string) {
    |t| >= 3 && IsAsciiLetter(t[0]) && t[1] == ':' && t[2] == '\\'
  }

  /** A slash and a letter: the start of a Unix path. */
  predicate IsUnixPath(t: string) {
    |t| >= 2 && t[0] == '/' && IsAsciiLetter(t[1])
  }

  lemma WindowsTest(t: string)
    ensures Test(WindowsPattern.re, t, false) <==> IsWindowsPath(t)
  {
    var rest := Cat(Lit(':'), Lit('\\'));
    AnchoredTest(Cat(AnyOf(Letters), rest), t, false);
    OneCharStep(AnyOf(Letters), rest, t, 0, false);
    if 1 <= |t| {
      OneCharStep(Lit(':'), Lit('\\'), t, 1, false);
    }
  }

  lemma UnixTest(t: string)
    ensures Test(UnixPattern.re, t, false) <==> IsUnixPath(t)
  {
    AnchoredTest(Cat(Lit('/'), AnyOf(Letters)), t, false);
    OneCharStep(Lit('/'), AnyOf(Letters), t, 0, false);
  }

  lemma BlankTrimmedTest(t: string)
    requires IsTrimmed(t)
    ensures Test(BlankPattern.re, t, false) <==> t == []
  {
    BlankTest(t, false);
    if t != [] {
      assert !IsSpace(t[0]);
    }
  }

  /** `some` over two lists one after the other. */
  lemma SomeTestAppend(ps: seq<Pattern>, qs: seq<Pattern>, t: string)
    ensures SomeTest(ps + qs, t) <==> SomeTest(ps, t) || SomeTest(qs, t)
  {
    var all := ps + qs;
    if SomeTest(all, t) {
      var k :| 0 <= k < |all| && Test(all[k].re, t, all[k].ic);
      if k >= |ps| {
        assert qs[k - |ps|] == all[k];
      }
    }
    if SomeTest(qs, t) {
      var k :| 0 <= k < |qs| && Test(qs[k].re, t, qs[k].ic);
      assert all[|ps| + k] == qs[k];
      assert Test(all[|ps| + k].re, t, all[|ps| + k].ic);
    }
    if SomeTest(ps, t) {
      var k :| 0 <= k < |ps| && Test(ps[k].re, t, ps[k].ic);
      assert all[k] == ps[k];
      assert Test(all[k].re, t, all[k].ic);
    }
  }

  /** The first seventeen patterns are the whole-name patterns of the listed names. */
  lemma SystemPatternsNames()
    ensures |SystemPatterns| == |SystemNames| + 3
    ensures SystemPatterns[..|SystemNames|] == seq(|SystemNames|, k requires 0 <= k < |SystemNames| => WholeName(SystemNames[k]))
    ensures SystemPatterns[|SystemNames|..] == [BlankPattern, WindowsPattern, UnixPattern]
  {
  }

  /** Whole-name patterns accept exactly the names they list, in any case. */
  lemma WholeNamesTest(names: seq<string>, t: string)
    ensures var ps := seq(|names|, k requires 0 <= k < |names| => WholeName(names[k]));
      SomeTest(ps, t) <==> exists k :: 0 <= k < |names| && SameIgnoringCase(t, names[k])
  {
    var ps := seq(|names|, k requires 0 <= k < |names| => WholeName(names[k]));
    forall k | 0 <= k < |names| ensures Test(ps[k].re, t, true) <==> SameIgnoringCase(t, names[k]) {
      WholeWordTest(names[k], t, true);
    }
    if SomeTest(ps, t) {
      var k :| 0 <= k < |ps| && Test(ps[k].re, t, ps[k].ic);
      assert SameIgnoringCase(t, names[k]);
    }
    if exists k :: 0 <= k < |names| && SameIgnoringCase(t, names[k]) {
      var k :| 0 <= k < |names| && SameIgnoringCase(t, names[k]);
      assert Test(ps[k].re, t, ps[k].ic);
    }
  }

  /** On a trimmed string the last three patterns accept the empty string and the two kinds of path. */
  lemma PathPatternsTest(t: string)
    requires IsTrimmed(t)
    ensures SomeTest([BlankPattern, WindowsPattern, UnixPattern], t) <==> t == [] || IsWindowsPath(t) || IsUnixPath(t)
  {
    var ps := [BlankPattern, WindowsPattern, UnixPattern];
    BlankTrimmedTest(t);
    WindowsTest(t);
    UnixTest(t);
    if SomeTest(ps, t) {
      var k :| 0 <= k < |ps| && Test(ps[k].re, t, ps[k].ic);
      assert k == 0 || k == 1 || k == 2;
    }
    if t == [] {
      assert Test(ps[0].re, t, ps[0].ic);
    } else if IsWindowsPath(t) {
      assert Test(ps[1].re, t, ps[1].ic);
    } else if IsUnixPath(t) {
      assert Test(ps[2].re, t, ps[2].ic);
    }
  }

  /**
   * `isSystemGenerated` holds exactly when the trimmed string is one of the listed
   * names in any case, is empty, or starts like a Windows or a Unix path. Only whole
   * names count: a name that merely contains one of them is accepted.
   */
  lemma SystemGeneratedExactly(author: string)
    ensures var t := Trim(author);
      IsSystemGenerated(author) <==> IsSystemName(t) || t == [] || IsWindowsPath(t) || IsUnixPath(t)
  {
    var t := Trim(author);
    var n := |SystemNames|;
    SystemPatternsNames();
    assert SystemPatterns == SystemPatterns[..n] + SystemPatterns[n..];
    SomeTestAppend(SystemPatterns[..n], SystemPatterns[n..], t);
    WholeNamesTest(SystemNames, t);
    PathPatternsTest(t);
  }

  /** `Adobe Acrobat` is none of the listed names: only `administrator` has its length. */
  lemma AdobeAcrobatNotListed()
    ensures !IsSystemName("Adobe Acrobat")
  {
    var t := "Adobe Acrobat";
    forall k | 0 <= k < |SystemNames|
      ensures !SameIgnoringCase(t, SystemNames[k])
    {
      if |SystemNames[k]| == |t| {
        assert SystemNames[k] == "administrator";
        assert Upper(t[2]) != Upper(SystemNames[k][2]);
      }
    }
  }

  /**
   * Only whole names are rejected: `Adobe Acrobat` is accepted as an author
   * although both of its words are listed.
   */
  lemma AdobeAcrobatAccepted()
    ensures !IsSystemGenerated("Adobe Acrobat")
  {
    TrimTrimmed("Adobe Acrobat");
    SystemGeneratedExactly("Adobe Acrobat");
    AdobeAcrobatNotListed();
  }

  /** A listed name on its own is rejected in any case. */
  lemma AdobeRejected()
    ensures IsSystemGenerated("ADOBE")
  {
    TrimTrimmed("ADOBE");
    SystemGeneratedExactly("ADOBE");
    AdobeListed();
  }

  /** `ADOBE` is the listed `adobe` in upper case. */
  lemma AdobeListed()
    ensures IsSystemName("ADOBE")
  {
    var t, n := "ADOBE", SystemNames[12];
    assert n == "adobe";
    forall k | 0 <= k < |t|
      ensures Upper(t[k]) == Upper(n[k])
    {
    }
    assert SameIgnoringCase(t, n);
  }

  // ---------------------------------------------------------------------------
  // cleanAuthorName

  /** `^(by|author:?|written by|created by)\s*` */
  const AuthorPrefix: Re := Cat(Bol, Cat(PrefixWords, Star(Space, true)))

  /** `by|author:?|written by|created by` */
  const PrefixWords: Re := Alt(Str("by"), Alt(Cat(Str("author"), Opt(Lit(':'))), Alt(Str("written by"), Str("created by"))))

  /** `\s*(author|writer|creator)$` */
  const AuthorSuffix: Re := Cat(Star(Space, true), Cat(SuffixWords, Eol))

  /** `author|writer|creator` */
  const SuffixWords: Re := Alt(Str("author"), Alt(Str("writer"), Str("creator")))

  /** `[<>]` */
  const AngleBrackets: Re := AnyOf(OneOf("<>"))

  /** `["']` */
  const Quotes: Re := AnyOf(OneOf("\"'"))

  /** `[._]` */
  const DotUnderscore: Re := AnyOf(OneOf("._"))

  /** The first part of `cleanAuthorName`: trim, drop the prefix and the suffix, the angle brackets and the quotes, trim again. */
  function StripAuthor(author: string): string {
    var c := ReplaceFirst(AuthorPrefix, Trim(author), Text(""), true);
    var c := ReplaceFirst(AuthorSuffix, c, Text(""), true);
    var c := ReplaceAll(AngleBrackets, c, Text(""), false);
    Trim(ReplaceAll(Quotes, c, Text(""), false))
  }

  /** The email step: when `/^([^@]+)@/` matches, its group with `.` and `_` turned into spaces. */
  function EmailName(c: string): string {
    if Contains(c, "@") then
      match Capture(Bol, EmailGroup, Lit('@'), c, false)
      case Some((st, en)) => ReplaceAll(DotUnderscore, c[st..en], Text(" "), false)
      case None => c
    else c
  }

  /** The last part of `cleanAuthorName`: capitalise every word, collapse the whitespace, trim. */
  function Finish(c: string): string {
    Trim(ReplaceAll(Plus(Space), ReplaceAll(WordRunRe, c, Capitalize, false), Text(" "), false))
  }

  /** `cleanAuthorName(author)`. */
  function CleanAuthorName(author: string): string {
    if author == [] then [] else Finish(EmailName(StripAuthor(author)))
  }

  /** The last part is `Trim(CollapseSpaces(CapitalizeWords(c)))`, and leaves a normalized string. */
  lemma FinishIs(c: string)
    ensures Finish(c) == Trim(CollapseSpaces(CapitalizeWords(c)))
    ensures Normalized(Finish(c))
  {
    ReplaceAllWordRuns(c);
    ReplaceAllSpaces(CapitalizeWords(c));
    CollapseTrimNormalized(CapitalizeWords(c));
  }

  /** `cleanAuthorName` leaves a trimmed name with single spaces only. */
  lemma CleanAuthorNameNormalized(author: string)
    ensures Normalized(CleanAuthorName(author))
  {
    if author != [] {
      FinishIs(EmailName(StripAuthor(author)));
    }
  }

  /** No markup character, angle bracket or quote. */
  predicate NoMarkup(s: string) {
    '<' !in s && '>' !in s && '"' !in s && '\'' !in s
  }

  /** Neither an angle bracket nor a quote survives the first part. */
  lemma StripAuthorNoMarkup(author: string)
    ensures NoMarkup(StripAuthor(author))
  {
    var a := ReplaceFirst(AuthorSuffix, ReplaceFirst(AuthorPrefix, Trim(author), Text(""), true), Text(""), true);
    var b := ReplaceAll(AngleBrackets, a, Text(""), false);
    var q := ReplaceAll(Quotes, b, Text(""), false);
    ReplaceAllOneChar(AngleBrackets, a, Text(""), false);
    ReplaceAllOneChar(Quotes, b, Text(""), false);
    EachCharRemoves(AngleBrackets, a, "", false, '<');
    EachCharRemoves(AngleBrackets, a, "", false, '>');
    ReplaceAllKeepsOut(Quotes, b, "", false, '<');
    ReplaceAllKeepsOut(Quotes, b, "", false, '>');
    EachCharRemoves(Quotes, b, "", false, '"');
    EachCharRemoves(Quotes, b, "", false, '\'');
    TrimKeepsOut(q, '<');
    TrimKeepsOut(q, '>');
    TrimKeepsOut(q, '"');
    TrimKeepsOut(q, '\'');
  }

  /** The email step brings in no character other than the space. */
  lemma EmailNameKeepsOut(s: string, c: char)
    requires c != ' ' && c !in s
    ensures c !in EmailName(s)
  {
    if Contains(s, "@") {
      match Capture(Bol, EmailGroup, Lit('@'), s, false)
      case Some((st, en)) =>
        assert c !in s[st..en];
        ReplaceAllKeepsOut(DotUnderscore, s[st..en], " ", false, c);
      case None =>
    }
  }

  /** The last part brings in no character other than letters and the space. */
  lemma FinishKeepsOut(e: string, c: char)
    requires c != ' ' && !IsAsciiLetter(c) && c !in e
    ensures c !in Finish(e)
  {
    FinishIs(e);
    WordCasedKeepsOut(e, c);
    CollapseSpacesChars(CapitalizeWords(e), c);
    TrimKeepsOut(CollapseSpaces(CapitalizeWords(e)), c);
  }

  /** The email step brings in no markup. */
  lemma EmailNameNoMarkup(s: string)
    requires NoMarkup(s)
    ensures NoMarkup(EmailName(s))
  {
    EmailNameKeepsOut(s, '<');
    EmailNameKeepsOut(s, '>');
    EmailNameKeepsOut(s, '"');
    EmailNameKeepsOut(s, '\'');
  }

  /** Capitalising the words brings in no markup. */
  lemma CapitalizeWordsNoMarkup(e: string)
    requires NoMarkup(e)
    ensures NoMarkup(CapitalizeWords(e))
  {
    WordCasedKeepsOut(e, '<');
    WordCasedKeepsOut(e, '>');
    WordCasedKeepsOut(e, '"');
    WordCasedKeepsOut(e, '\'');
  }

  /** Collapsing the whitespace brings in no markup. */
  lemma CollapseSpacesNoMarkup(e: string)
    requires NoMarkup(e)
    ensures NoMarkup(CollapseSpaces(e))
  {
    CollapseSpacesChars(e, '<');
    CollapseSpacesChars(e, '>');
    CollapseSpacesChars(e, '"');
    CollapseSpacesChars(e, '\'');
  }

  /** Trimming brings in no markup. */
  lemma TrimNoMarkup(e: string)
    requires NoMarkup(e)
    ensures NoMarkup(Trim(e))
  {
    TrimKeepsOut(e, '<');
    TrimKeepsOut(e, '>');
    TrimKeepsOut(e, '"');
    TrimKeepsOut(e, '\'');
  }

  /** The last part brings in no markup. */
  lemma FinishNoMarkup(e: string)
    requires NoMarkup(e)
    ensures NoMarkup(Finish(e))
  {
    FinishIs(e);
    CapitalizeWordsNoMarkup(e);
    CollapseSpacesNoMarkup(CapitalizeWords(e));
    TrimNoMarkup(CollapseSpaces(CapitalizeWords(e)));
  }

  /** The result of `cleanAuthorName` never holds an angle bracket or a quote. */
  lemma CleanAuthorNameNoMarkup(author: string)
    ensures NoMarkup(CleanAuthorName(author))
  {
    if author != [] {
      StripAuthorNoMarkup(author);
      EmailNameNoMarkup(StripAuthor(author));
      FinishNoMarkup(EmailName(StripAuthor(author)));
    }
  }

  // A name with a `By` prefix and a trailing dash, such as `By John Smith -`.

  /** `By` at the start is the first alternative of the prefix, ending after two characters. */
  lemma ByWordEnds(s: string)
    requires |s| >= 2 && Upper(s[0]) == 'B' && Upper(s[1]) == 'Y'
    ensures Ends(PrefixWords, s, 0, true) != [] && Ends(PrefixWords, s, 0, true)[0] == 2
  {
    assert SameIgnoringCase(s[0..2], "by");
  }

  /** After `By`, one space and then a non-space: `\s*` first takes the one space. */
  lemma OneSpaceEnds(s: string)
    requires |s| >= 4 && IsSpace(s[2]) && !IsSpace(s[3])
    ensures Ends(Star(Space, true), s, 2, true) != [] && Ends(Star(Space, true), s, 2, true)[0] == 3
  {
    StarClassEnds(SpaceClass, s, 2, true);
    assert RunEnd(SpaceClass, s, 3, true) == 3;
  }

  lemma ByPrefixEnds(s: string)
    requires |s| >= 4 && Upper(s[0]) == 'B' && Upper(s[1]) == 'Y' && IsSpace(s[2]) && !IsSpace(s[3])
    ensures Ends(Cat(PrefixWords, Star(Space, true)), s, 0, true) != []
    ensures Ends(Cat(PrefixWords, Star(Space, true)), s, 0, true)[0] == 3
  {
    ByWordEnds(s);
    OneSpaceEnds(s);
    var alts := Ends(PrefixWords, s, 0, true);
    assert CatEnds(Star(Space, true), s, alts, 0, true) == Ends(Star(Space, true), s, 2, true) + CatEnds(Star(Space, true), s, alts[1..], 0, true);
  }

  /** A leading `By ` (any case, one space) is dropped by the prefix replacement. */
  lemma ByPrefixDropped(s: string)
    requires |s| >= 4 && Upper(s[0]) == 'B' && Upper(s[1]) == 'Y' && IsSpace(s[2]) && !IsSpace(s[3])
    ensures ReplaceFirst(AuthorPrefix, s, Text(""), true) == s[3..]
  {
    AnchoredEnds(Cat(PrefixWords, Star(Space, true)), s, 0, true);
    ByPrefixEnds(s);
    SearchHere(AuthorPrefix, s, 0, true);
    assert s[..0] + "" + s[3..] == s[3..];
  }

  lemma SuffixWordLast(s: string, e: nat)
    requires e <= |s| && |s| in Ends(SuffixWords, s, e, true)
    ensures |s| > 0 && Upper(s[|s| - 1]) == 'R'
  {
    var a := Ends(Str("author"), s, e, true);
    var b := Ends(Str("writer"), s, e, true);
    var c := Ends(Str("creator"), s, e, true);
    assert Ends(SuffixWords, s, e, true) == a + (b + c);
    if |s| in a {
      StrAtEnd(s, e, "author");
    } else if |s| in b {
      StrAtEnd(s, e, "writer");
    } else {
      StrAtEnd(s, e, "creator");
    }
  }

  /** The suffix pattern matches only a string whose last character is `r` or `R`. */
  lemma SuffixEndsInR(s: string, k: nat)
    requires k <= |s| && MatchesAt(AuthorSuffix, s, k, true)
    ensures |s| > 0 && Upper(s[|s| - 1]) == 'R'
  {
    var es := Ends(Star(Space, true), s, k, true);
    CatEndsFrom(Cat(SuffixWords, Eol), s, es, k, true);
    var j :| 0 <= j < |es| && Ends(Cat(SuffixWords, Eol), s, es[j], true) != [];
    EolMatches(SuffixWords, s, es[j], true);
    SuffixWordLast(s, es[j]);
  }

  /** A string that does not end in `r` keeps its end: the suffix replacement changes nothing. */
  lemma SuffixKept(s: string)
    requires s == [] || Upper(s[|s| - 1]) != 'R'
    ensures ReplaceFirst(AuthorSuffix, s, Text(""), true) == s
  {
    forall k | 0 <= k <= |s|
      ensures !MatchesAt(AuthorSuffix, s, k, true)
    {
      if MatchesAt(AuthorSuffix, s, k, true) {
        SuffixEndsInR(s, k);
      }
    }
    SearchLeftmost(AuthorSuffix, s, 0, true);
  }

  /** Without angle brackets and quotes the two removals change nothing. */
  lemma MarkupRemovalKeeps(t: string)
    requires NoMarkup(t)
    ensures ReplaceAll(AngleBrackets, t, Text(""), false) == t
    ensures ReplaceAll(Quotes, t, Text(""), false) == t
  {
    ReplaceAllOneChar(AngleBrackets, t, Text(""), false);
    ReplaceAllOneChar(Quotes, t, Text(""), false);
    assert forall k :: 0 <= k < |t| ==> t[k] != '<' && t[k] != '>' && t[k] != '"' && t[k] != '\'';
    EachCharNone(AngleBrackets, t, Text(""), false);
    EachCharNone(Quotes, t, Text(""), false);
  }

  /** The prefix and suffix step of a trimmed name that starts with `By ` and does not end in `r`. */
  lemma AffixesBy(s: string)
    requires |s| >= 4 && IsTrimmed(s) && Upper(s[0]) == 'B' && Upper(s[1]) == 'Y' && IsSpace(s[2]) && !IsSpace(s[3])
    requires Upper(s[|s| - 1]) != 'R'
    ensures ReplaceFirst(AuthorSuffix, ReplaceFirst(AuthorPrefix, Trim(s), Text(""), true), Text(""), true) == s[3..]
  {
    TrimTrimmed(s);
    ByPrefixDropped(s);
    SuffixKept(s[3..]);
  }

  /**
   * A trimmed name that starts with `By ` and a non-space, does not end in `r`,
   * and holds no angle bracket or quote loses the `By ` and nothing else.
   */
  lemma StripAuthorBy(s: string)
    requires |s| >= 4 && IsTrimmed(s) && Upper(s[0]) == 'B' && Upper(s[1]) == 'Y' && IsSpace(s[2]) && !IsSpace(s[3])
    requires Upper(s[|s| - 1]) != 'R' && NoMarkup(s)
    ensures StripAuthor(s) == s[3..]
  {
    var t := s[3..];
    AffixesBy(s);
    assert NoMarkup(t) by {
      assert forall c :: c in t ==> c in s;
    }
    MarkupRemovalKeeps(t);
    TrimTrimmed(t);
  }

  /** Without an `@` the email step changes nothing. */
  lemma EmailNameWithoutAt(c: string)
    requires '@' !in c
    ensures EmailName(c) == c
  {
    ContainsChar(c, '@');
    assert "@" == ['@'];
  }

  /** A normalized name whose words are already capitalised comes out of the last steps as it is. */
  lemma FinishKeeps(c: string)
    requires Normalized(c) && CapitalizeWords(c) == c
    ensures Finish(c) == c
  {
    FinishIs(c);
    CollapseSingleSpaced(c);
    TrimTrimmed(c);
  }

  /**
   * A name after `By ` comes out whole when it is already normalized and
   * capitalised, holds no markup and no `@`, and does not end in `r`: only the
   * prefix goes, whatever else the name ends with.
   */
  lemma CleanAuthorNameAfterBy(name: string)
    requires name != [] && Normalized(name) && CapitalizeWords(name) == name
    requires NoMarkup(name) && '@' !in name && Upper(name[|name| - 1]) != 'R'
    ensures CleanAuthorName("By " + name) == name
  {
    ByNameStripped(name);
    EmailNameWithoutAt(name);
    FinishKeeps(name);
  }

  /** The first part of `cleanAuthorName` on `By ` and such a name leaves the name. */
  lemma ByNameStripped(name: string)
    requires name != [] && IsTrimmed(name) && NoMarkup(name) && Upper(name[|name| - 1]) != 'R'
    ensures StripAuthor("By " + name) == name
  {
    var s := "By " + name;
    assert s[3..] == name;
    assert s[0] == 'B' && s[1] == 'y' && s[2] == ' ' && s[3] == name[0] && s[|s| - 1] == name[|name| - 1];
    assert NoMarkup(s) by {
      assert forall c :: c in s ==> c in "By " || c in name;
    }
    StripAuthorBy(s);
  }

  /** The name `John Smith -` is normalized, and its words are already capitalised. */
  lemma JohnSmithDashShaped()
    ensures Normalized("John Smith -") && CapitalizeWords("John Smith -") == "John Smith -"
  {
  }

  /** The name `John Smith -` holds no markup and no `@`, and ends in a dash rather than an `r`. */
  lemma JohnSmithDashPlain()
    ensures NoMarkup("John Smith -") && '@' !in "John Smith -" && "John Smith -"[11] == '-'
  {
  }

  /** `cleanAuthorName("By John Smith -")` keeps the trailing ` -`. */
  lemma CleanAuthorNameKeepsDash(name: string)
    requires name == "John Smith -"
    ensures CleanAuthorName("By " + name) == name
  {
    JohnSmithDashShaped();
    JohnSmithDashPlain();
    CleanAuthorNameAfterBy(name);
  }

  /** The part before the first `@`, when there is an `@` and that part is not empty. */
  function LocalPart(c: string): Option<string> {
    match IndexOf(c, '@')
    case Some(i) => if i > 0 then Some(c[..i]) else None
    case None => None
  }

  /** The run of characters other than `@` at the start ends at the first `@`. */
  lemma RunToAt(c: string, i: nat)
    requires IndexOf(c, '@') == Some(i)
    ensures RunEnd(NotAtClass, c, 0, false) == i
  {
    var j := RunEnd(NotAtClass, c, 0, false);
    if j > i {
      RunEndInside(NotAtClass, c, 0, false, i);
    }
  }

  lemma {:induction false} DotsToSpaces(s: string)
    ensures EachChar(DotUnderscore, s, Text(" "), false) == ReplaceChars(s, {'.', '_'}, ' ')
  {
    if s != [] {
      DotsToSpaces(s[1..]);
      var r := ReplaceChars(s, {'.', '_'}, ' ');
      assert r == [r[0]] + ReplaceChars(s[1..], {'.', '_'}, ' ');
    }
  }

  /** The email step keeps the local part, with dots and underscores turned into spaces. */
  lemma EmailNameLocalPart(c: string)
    ensures EmailName(c) == match LocalPart(c)
      case Some(p) => ReplaceChars(p, {'.', '_'}, ' ')
      case None => c
  {
    ContainsChar(c, '@');
    assert "@" == ['@'];
    if '@' in c {
      var i := IndexOf(c, '@').value;
      RunToAt(c, i);
      EmailCapture(c);
      if i > 0 {
        ReplaceAllOneChar(DotUnderscore, c[..i], Text(" "), false);
        DotsToSpaces(c[..i]);
        assert c[0..i] == c[..i];
      }
    }
  }

  /**
   * When what is left after the first part has a non-empty local part before its
   * first `@`, the name is made from that local part alone, dots and underscores
   * turned into spaces.
   */
  lemma CleanAuthorNameEmail(author: string)
    requires author != [] && LocalPart(StripAuthor(author)).Some?
    ensures CleanAuthorName(author) == Finish(ReplaceChars(LocalPart(StripAuthor(author)).value, {'.', '_'}, ' '))
  {
    EmailNameLocalPart(StripAuthor(author));
  }

  // ---------------------------------------------------------------------------
  // extractAuthorFromTitle

  /** `[^-\n\r]` */
  const NameChar: Class := Class(c => c == '-' || c == '\n' || c == '\r', true)

  /** `[-–—]`: hyphen-minus, en dash, em dash. */
  const Dash: Re := AnyOf(OneOf("-–—"))

  /** `([^-\n\r]+?)`, the group of all four title patterns. */
  const NameGroup: Re := LazyPlus(AnyOf(NameChar))

  /** `(?:\s*[-–—]\s*|\s*$)` */
  const NameEnd: Re := Alt(Cat(Star(Space, true), Cat(Dash, Star(Space, true))), Cat(Star(Space, true), Eol))

  /** A title pattern: what comes before the group, and what must follow it. */
  datatype TitlePattern = TitlePattern(pre: Re, post: Re)

  /** The four patterns of `extractAuthorFromTitle`, in order, all with the `i` flag. */
  const TitlePatterns: seq<TitlePattern> := [
    TitlePattern(Cat(Str("by"), Plus(Space)), NameEnd),
    TitlePattern(Cat(Str("author"), Cat(Opt(Lit(':')), Star(Space, true))), NameEnd),
    TitlePattern(Cat(Str("written"), Cat(Plus(Space), Cat(Str("by"), Plus(Space)))), NameEnd),
    TitlePattern(Empty, Cat(Star(Space, true), Cat(Dash, Cat(Star(Space, true), Str("author")))))
  ]

  /** What one pattern proposes: the cleaned group, when it is neither empty nor system-generated. */
  function Candidate(p: TitlePattern, title: string): Option<string> {
    match Capture(p.pre, NameGroup, p.post, title, true)
    case Some((st, en)) =>
      var author := if st < en then CleanAuthorName(title[st..en]) else [];
      if author != [] && !IsSystemGenerated(author) then Some(author) else None
    case None => None
  }

  /** The first candidate of the patterns, or the empty string. */
  function FirstAuthor(ps: seq<TitlePattern>, title: string): string
    decreases |ps|
  {
    if ps == [] then []
    else match Candidate(ps[0], title)
      case Some(author) => author
      case None => FirstAuthor(ps[1..], title)
  }

  /** What `extractAuthorFromTitle(title)` returns. */
  function AuthorFromTitle(title: string): string {
    if title == [] then [] else FirstAuthor(TitlePatterns, title)
  }

  /** A candidate is a non-empty, normalized name that is not system-generated. */
  lemma CandidateAccepted(p: TitlePattern, title: string)
    ensures var c := Candidate(p, title);
      c.Some? ==> c.value != [] && !IsSystemGenerated(c.value) && Normalized(c.value)
  {
    match Capture(p.pre, NameGroup, p.post, title, true)
    case Some((st, en)) =>
      if st < en {
        CleanAuthorNameNormalized(title[st..en]);
      }
    case None =>
  }

  /** The result is empty exactly when no pattern proposes a candidate; otherwise it is acceptable. */
  lemma {:induction false} FirstAuthorAccepted(ps: seq<TitlePattern>, title: string)
    ensures var a := FirstAuthor(ps, title);
      && (a == [] <==> forall k :: 0 <= k < |ps| ==> Candidate(ps[k], title).None?)
      && (a != [] ==> !IsSystemGenerated(a) && Normalized(a))
    decreases |ps|
  {
    if ps != [] {
      var c := Candidate(ps[0], title);
      CandidateAccepted(ps[0], title);
      FirstAuthorAccepted(ps[1..], title);
      if c.Some? {
        assert FirstAuthor(ps, title) == c.value;
      } else {
        assert FirstAuthor(ps, title) == FirstAuthor(ps[1..], title);
        forall k | 0 < k < |ps| ensures Candidate(ps[k], title) == Candidate(ps[1..][k - 1], title) {
        }
      }
    }
  }

  /** Where the search over the patterns stands at pattern `k`. */
  lemma FirstAuthorStep(ps: seq<TitlePattern>, k: nat, title: string)
    requires k < |ps|
    ensures FirstAuthor(ps[k..], title) ==
      match Candidate(ps[k], title)
      case Some(author) => author
      case None => FirstAuthor(ps[k + 1..], title)
  {
    assert ps[k..][0] == ps[k] && ps[k..][1..] == ps[k + 1..];
  }

  /** The `for ... of patterns` loop of `extractAuthorFromTitle`, with its early return. */
  method FirstAuthorOf(ps: seq<TitlePattern>, title: string) returns (author: string)
    ensures author == FirstAuthor(ps, title)
  {
    for k := 0 to |ps|
      invariant FirstAuthor(ps[k..], title) == FirstAuthor(ps, title)
    {
      FirstAuthorStep(ps, k, title);
      var p := ps[k];
      var m := Capture(p.pre, NameGroup, p.post, title, true);
      if m.Some? && m.value.0 < m.value.1 {
        var a := CleanAuthorName(title[m.value.0..m.value.1]);
        if a != [] && !IsSystemGenerated(a) {
          return a;
        }
      }
    }
    return [];
  }

  /** `extractAuthorFromTitle(title)`. */
  method ExtractAuthorFromTitle(title: string) returns (author: string)
    ensures author == AuthorFromTitle(title)
    ensures author == [] || (!IsSystemGenerated(author) && Normalized(author))
  {
    FirstAuthorAccepted(TitlePatterns, title);
    if title == [] {
      return [];
    }
    author := FirstAuthorOf(TitlePatterns, title);
  }

  // ---------------------------------------------------------------------------
  // extractCleanMetadata

  /** The entries of a PDF's document information dictionary the selection reads; a missing one is `None`. */
  datatype Info = Info(
    title: Option<string>, author: Option<string>, subject: Option<string>, creator: Option<string>,
    producer: Option<string>, creationDate: Option<string>, modDate: Option<string>)

  /** The object `extractCleanMetadata` resolves to; `NoMetadata` is the `{}` of its `catch`. */
  datatype Metadata =
    | Metadata(
        title: Option<string>, author: Option<string>, subject: Option<string>, creator: Option<string>,
        producer: Option<string>, creationDate: Option<string>, modificationDate: Option<string>)
    | NoMetadata

  /** `s || null` */
  function OrNull(s: string): (r: Option<string>)
    ensures r.Some? <==> s != []
    ensures r.Some? ==> r.value == s
  {
    if s == [] then None else Some(s)
  }

  /** `info.X || null`: an absent or empty entry becomes null, any other passes through. */
  function Raw(entry: Option<string>): (r: Option<string>)
    ensures r.Some? ==> r == entry && entry.value != []
    ensures entry.Some? && entry.value != [] ==> r == entry
  {
    if entry == Some([]) then None else entry
  }

  /** The test on the Author and Creator entries: `x && x.trim() && !this.isSystemGenerated(x)`. */
  predicate Acceptable(x: string) {
    x != [] && Trim(x) != [] && !IsSystemGenerated(x)
  }

  /** The author `extractCleanMetadata` settles on, from the cleaned Author, Creator and Title entries. */
  function ChosenAuthor(author: string, creator: string, title: string): string {
    if Acceptable(author) then CleanAuthorName(author)
    else if Acceptable(creator) then CleanAuthorName(creator)
    else AuthorFromTitle(title)
  }

  /**
   * The author comes from the first acceptable entry among Author and Creator, cleaned
   * but not tested again; otherwise from the title, where every proposal is tested.
   * Whatever its origin, it is normalized.
   */
  lemma ChosenAuthorPriority(author: string, creator: string, title: string)
    ensures var a := ChosenAuthor(author, creator, title);
      && Normalized(a)
      && (Acceptable(author) ==> a == CleanAuthorName(author))
      && (!Acceptable(author) && Acceptable(creator) ==> a == CleanAuthorName(creator))
      && (!Acceptable(author) && !Acceptable(creator) ==> a == [] || !IsSystemGenerated(a))
  {
    CleanAuthorNameNormalized(author);
    CleanAuthorNameNormalized(creator);
    if title != [] {
      FirstAuthorAccepted(TitlePatterns, title);
    }
  }

  /** `cleanText(info.X || '') || null`, for the entries that are cleaned and kept as they are. */
  function CleanEntry(entry: Option<string>): Option<string> {
    OrNull(CleanText(entry.GetOr([])))
  }

  /** A cleaned entry is null or a non-empty normalized text. */
  lemma CleanEntryNormalized(entry: Option<string>)
    ensures var r := CleanEntry(entry);
      r.Some? ==> r.value != [] && Normalized(r.value)
  {
    if entry.GetOr([]) != [] {
      CleanTextNormalized(entry.GetOr([]));
    }
  }

  /** What `extractCleanMetadata` resolves to, given what `pdf.getMetadata()` yields. */
  function CleanMetadata(info: Option<Info>): Metadata {
    match info
    case None => NoMetadata
    case Some(i) =>
      var author := ChosenAuthor(CleanText(i.author.GetOr([])), CleanText(i.creator.GetOr([])), CleanText(i.title.GetOr([])));
      Metadata(CleanEntry(i.title), OrNull(author), CleanEntry(i.subject), CleanEntry(i.creator),
               Raw(i.producer), Raw(i.creationDate), Raw(i.modDate))
  }

  /** The title, subject and creator the result carries are null or non-empty normalized texts. */
  lemma CleanMetadataTexts(i: Info)
    ensures var m := CleanMetadata(Some(i));
      && (m.title.Some? ==> m.title.value != [] && Normalized(m.title.value))
      && (m.subject.Some? ==> m.subject.value != [] && Normalized(m.subject.value))
      && (m.creator.Some? ==> m.creator.value != [] && Normalized(m.creator.value))
  {
    CleanEntryNormalized(i.title);
    CleanEntryNormalized(i.subject);
    CleanEntryNormalized(i.creator);
  }

  /** The author the result carries is null or a non-empty normalized name. */
  lemma CleanMetadataAuthor(i: Info)
    ensures var m := CleanMetadata(Some(i));
      m.author.Some? ==> m.author.value != [] && Normalized(m.author.value)
  {
    ChosenAuthorPriority(CleanText(i.author.GetOr([])), CleanText(i.creator.GetOr([])), CleanText(i.title.GetOr([])));
  }

  /** The `if ... else if ... else` that picks the author. */
  method ChooseAuthor(author: string, creator: string, title: string) returns (chosen: string)
    ensures chosen == ChosenAuthor(author, creator, title)
  {
    if author != [] && Trim(author) != [] && !IsSystemGenerated(author) {
      chosen := CleanAuthorName(author);
    } else if creator != [] && Trim(creator) != [] && !IsSystemGenerated(creator) {
      chosen := CleanAuthorName(creator);
    } else {
      chosen := ExtractAuthorFromTitle(title);
    }
  }

  /**
   * `extractCleanMetadata(pdf)`, given what `pdf.getMetadata()` yields: `None` when it
   * fails or has no `info`, which the `catch` turns into `{}`.
   */
  method ExtractCleanMetadata(info: Option<Info>) returns (m: Metadata)
    ensures m == CleanMetadata(info)
  {
    if info.None? {
      return NoMetadata;
    }
    var i := info.value;
    var title := CleanTextContent(i.title.GetOr([]));
    var author := CleanTextContent(i.author.GetOr([]));
    var subject := CleanTextContent(i.subject.GetOr([]));
    var creator := CleanTextContent(i.creator.GetOr([]));
    var finalAuthor := ChooseAuthor(author, creator, title);
    m := Metadata(OrNull(title), OrNull(finalAuthor), OrNull(subject), OrNull(creator),
                  Raw(i.producer), Raw(i.creationDate), Raw(i.modDate));
  }
}
