/**
 * The JavaScript string operations the library front-end relies on, for strings
 * seen as sequences of characters: the `\s` and `\w` character classes, `trim`,
 * ASCII case conversion, prefix and substring tests, and the fixed rewrites
 * `replace(/\s+/g, ' ')`, `replace(/[-_]/g, ' ')`, `replace(/\b\w/g, upper)` and
 * `replace(/\b\w+/g, capitalise)` written out character by character.
 */
module Strings {

  import opened Wrappers

  /**
   * JavaScript's `\s`: the WhiteSpace and LineTerminator characters, which is also
   * the set `trim` removes (TAB, LF, VT, FF, CR, space, NBSP, OGHAM SPACE MARK,
   * the U+2000..U+200A spaces, LINE and PARAGRAPH SEPARATOR, NNBSP, MMSP,
   * IDEOGRAPHIC SPACE and the byte-order mark).
   */
  predicate IsSpace(c: char) {
    || c == ' ' || ('\t' <= c <= '\r') || c == '\U{00A0}' || c == '\U{1680}' || ('\U{2000}' <= c <= '\U{200A}')
    || c == '\U{2028}' || c == '\U{2029}' || c == '\U{202F}' || c == '\U{205F}' || c == '\U{3000}' || c == '\U{FEFF}'
  }

  predicate IsAsciiUpper(c: char) { 'A' <= c <= 'Z' }
  predicate IsAsciiLower(c: char) { 'a' <= c <= 'z' }
  predicate IsAsciiLetter(c: char) { IsAsciiUpper(c) || IsAsciiLower(c) }
  predicate IsDigit(c: char) { '0' <= c <= '9' }

  /** JavaScript's `\w`. */
  predicate IsWordChar(c: char) { IsAsciiLetter(c) || IsDigit(c) || c == '_' }

  function Upper(c: char): (u: char)
    ensures IsAsciiLower(c) ==> IsAsciiUpper(u)
    ensures !IsAsciiLower(c) ==> u == c
    ensures IsWordChar(u) <==> IsWordChar(c)
  {
    if IsAsciiLower(c) then (c as int - 32) as char else c
  }

  function Lower(c: char): (l: char)
    ensures IsAsciiUpper(c) ==> IsAsciiLower(l)
    ensures !IsAsciiUpper(c) ==> l == c
    ensures IsWordChar(l) <==> IsWordChar(c)
  {
    if IsAsciiUpper(c) then (c as int + 32) as char else c
  }

  /** `toLowerCase`, restricted to ASCII letters. */
  function LowerString(s: string): (r: string)
    ensures |r| == |s|
    ensures forall k :: 0 <= k < |s| ==> r[k] == Lower(s[k])
  {
    seq(|s|, k requires 0 <= k < |s| => Lower(s[k]))
  }

  /** `toUpperCase`, restricted to ASCII letters. */
  function UpperString(s: string): (r: string)
    ensures |r| == |s|
    ensures forall k :: 0 <= k < |s| ==> r[k] == Upper(s[k])
  {
    seq(|s|, k requires 0 <= k < |s| => Upper(s[k]))
  }

  /** `w.charAt(0).toUpperCase() + w.slice(1).toLowerCase()`. */
  function CapitalizeWord(w: string): (r: string)
    ensures |r| == |w|
    ensures w != [] ==> r[0] == Upper(w[0])
    ensures forall k :: 0 < k < |w| ==> r[k] == Lower(w[k])
  {
    if w == [] then [] else [Upper(w[0])] + LowerString(w[1..])
  }

  /** Equality after ASCII case folding, as the `i` flag compares characters. */
  predicate SameIgnoringCase(a: string, b: string) {
    |a| == |b| && forall k :: 0 <= k < |a| ==> Upper(a[k]) == Upper(b[k])
  }

  predicate StartsWith(s: string, prefix: string) {
    |prefix| <= |s| && s[..|prefix|] == prefix
  }

  predicate EndsWith(s: string, suffix: string) {
    |suffix| <= |s| && s[|s| - |suffix|..] == suffix
  }

  /** `s.includes(t)`: `t` occurs at some position of `s`. */
  predicate Contains(s: string, t: string)
    decreases |s|
  {
    StartsWith(s, t) || (s != [] && Contains(s[1..], t))
  }

  /** `s.includes(c)` for a one-character string. */
  lemma {:induction false} ContainsChar(s: string, c: char)
    ensures Contains(s, [c]) <==> c in s
    decreases |s|
  {
    if s != [] {
      ContainsChar(s[1..], c);
      assert s == [s[0]] + s[1..];
    }
  }

  /** No character of `s` is whitespace at either end. */
  predicate IsTrimmed(s: string) {
    s == [] || (!IsSpace(s[0]) && !IsSpace(s[|s| - 1]))
  }

  /** Every whitespace character is a plain space, and no two of them are adjacent. */
  predicate SingleSpaced(s: string) {
    && (forall k :: 0 <= k < |s| && IsSpace(s[k]) ==> s[k] == ' ')
    && (forall k :: 0 <= k < |s| - 1 ==> !(IsSpace(s[k]) && IsSpace(s[k + 1])))
  }

  /** What `trim` and `replace(/\s+/g, ' ')` together guarantee. */
  predicate Normalized(s: string) {
    IsTrimmed(s) && SingleSpaced(s)
  }

  /** `s.trimStart()`: drops the leading whitespace. */
  function TrimStart(s: string): (r: string)
    ensures |r| <= |s| && r == s[|s| - |r|..]
    ensures r != [] ==> !IsSpace(r[0])
  {
    if s != [] && IsSpace(s[0]) then TrimStart(s[1..]) else s
  }

  /** `s.trimEnd()`: drops the trailing whitespace. */
  function TrimEnd(s: string): (r: string)
    ensures |r| <= |s| && r == s[..|r|]
    ensures r != [] ==> !IsSpace(r[|r| - 1])
  {
    if s != [] && IsSpace(s[|s| - 1]) then TrimEnd(s[..|s| - 1]) else s
  }

  /** `s.trim()`. */
  function Trim(s: string): (r: string)
    ensures IsTrimmed(r)
  {
    TrimEnd(TrimStart(s))
  }

  /** Trimming introduces no character. */
  lemma TrimKeepsOut(s: string, c: char)
    requires c !in s
    ensures c !in Trim(s)
  {
    var t := TrimStart(s);
    assert t == s[|s| - |t|..];
    assert c !in t;
    assert TrimEnd(t) == t[..|TrimEnd(t)|];
  }

  /** A string is blank when it holds whitespace only. */
  predicate IsBlank(s: string) {
    forall k :: 0 <= k < |s| ==> IsSpace(s[k])
  }

  lemma BlankCons(s: string)
    requires s != []
    ensures IsBlank(s) <==> IsSpace(s[0]) && IsBlank(s[1..])
  {
    if IsSpace(s[0]) && IsBlank(s[1..]) {
      forall k | 1 <= k < |s| ensures IsSpace(s[k]) {
        assert s[k] == s[1..][k - 1];
      }
    }
  }

  /** `trimStart` removes everything exactly when the string is blank. */
  lemma {:induction false} TrimStartEmpty(s: string)
    ensures TrimStart(s) == [] <==> IsBlank(s)
  {
    if s != [] && IsSpace(s[0]) {
      TrimStartEmpty(s[1..]);
      BlankCons(s);
    }
  }

  /** `trimEnd` never removes a non-whitespace first character. */
  lemma {:induction false} TrimEndKeepsFirst(s: string)
    requires s != [] && !IsSpace(s[0])
    ensures TrimEnd(s) != []
  {
    if IsSpace(s[|s| - 1]) {
      TrimEndKeepsFirst(s[..|s| - 1]);
    }
  }

  /** `trim()` is empty exactly for blank strings: the `x.trim()` truth tests of the source. */
  lemma TrimEmpty(s: string)
    ensures Trim(s) == [] <==> IsBlank(s)
  {
    TrimStartEmpty(s);
    if !IsBlank(s) {
      TrimEndKeepsFirst(TrimStart(s));
    }
  }

  /** Trimming a trimmed string changes nothing. */
  lemma TrimTrimmed(s: string)
    requires IsTrimmed(s)
    ensures Trim(s) == s
  {
  }

  /** `s.replace(/\s+/g, ' ')`: every maximal whitespace run becomes one space. */
  function CollapseSpaces(s: string): (r: string)
    ensures |r| <= |s|
    decreases |s|
  {
    if s == [] then []
    else if IsSpace(s[0]) then [' '] + CollapseSpaces(TrimStart(s[1..]))
    else [s[0]] + CollapseSpaces(s[1..])
  }

  /** The collapsed string starts with whitespace exactly when the original does. */
  lemma CollapseSpacesFirst(s: string)
    ensures CollapseSpaces(s) != [] <==> s != []
    ensures s != [] ==> (IsSpace(CollapseSpaces(s)[0]) <==> IsSpace(s[0]))
  {
  }

  /** The collapsed string ends with whitespace exactly when the original does. */
  lemma {:induction false} CollapseSpacesLast(s: string)
    requires s != []
    ensures var r := CollapseSpaces(s); r != [] && (IsSpace(r[|r| - 1]) <==> IsSpace(s[|s| - 1]))
    decreases |s|
  {
    if IsSpace(s[0]) {
      var rest := TrimStart(s[1..]);
      assert CollapseSpaces(s) == [' '] + CollapseSpaces(rest);
      if rest != [] {
        CollapseSpacesLast(rest);
      } else if |s| > 1 {
        BlankLast(s[1..]);
      }
    } else if |s| > 1 {
      CollapseSpacesLast(s[1..]);
      assert CollapseSpaces(s) == [s[0]] + CollapseSpaces(s[1..]);
    }
  }

  /** When `trimStart` empties a non-empty string, its last character is whitespace. */
  lemma BlankLast(s: string)
    requires s != [] && TrimStart(s) == []
    ensures IsSpace(s[|s| - 1])
  {
    TrimStartEmpty(s);
  }

  /** Collapsing introduces no character other than the space. */
  lemma {:induction false} CollapseSpacesChars(s: string, c: char)
    requires c != ' ' && c !in s
    ensures c !in CollapseSpaces(s)
    decreases |s|
  {
    if s == [] {
    } else if IsSpace(s[0]) {
      var rest := TrimStart(s[1..]);
      CollapseSpacesChars(rest, c);
      assert CollapseSpaces(s) == [' '] + CollapseSpaces(rest);
    } else {
      CollapseSpacesChars(s[1..], c);
      assert CollapseSpaces(s) == [s[0]] + CollapseSpaces(s[1..]);
    }
  }

  lemma ConsSingleSpaced(c: char, t: string)
    requires SingleSpaced(t) && (IsSpace(c) ==> c == ' ')
    requires IsSpace(c) && t != [] ==> !IsSpace(t[0])
    ensures SingleSpaced([c] + t)
  {
    var r := [c] + t;
    assert forall k :: 1 <= k < |r| ==> r[k] == t[k - 1];
  }

  /** After `replace(/\s+/g, ' ')` every whitespace character is a single plain space. */
  lemma {:induction false} CollapseSpacesSingleSpaced(s: string)
    ensures SingleSpaced(CollapseSpaces(s))
    decreases |s|
  {
    if s == [] {
    } else if IsSpace(s[0]) {
      var rest := TrimStart(s[1..]);
      CollapseSpacesSingleSpaced(rest);
      CollapseSpacesFirst(rest);
      ConsSingleSpaced(' ', CollapseSpaces(rest));
    } else {
      CollapseSpacesSingleSpaced(s[1..]);
      ConsSingleSpaced(s[0], CollapseSpaces(s[1..]));
    }
  }

  lemma SingleSpacedSlice(s: string, i: nat, j: nat)
    requires i <= j <= |s| && SingleSpaced(s)
    ensures SingleSpaced(s[i..j])
  {
    var t := s[i..j];
    assert forall k :: 0 <= k < |t| ==> t[k] == s[i + k];
  }

  /** Trimming keeps a single-spaced string single-spaced. */
  lemma TrimSingleSpaced(s: string)
    requires SingleSpaced(s)
    ensures Normalized(Trim(s))
  {
    var t := TrimStart(s);
    SingleSpacedSlice(s, |s| - |t|, |s|);
    SingleSpacedSlice(t, 0, |TrimEnd(t)|);
  }

  /** Past the first character a single-spaced string stays single-spaced; a leading space is a plain one. */
  lemma SingleSpacedHead(s: string)
    requires s != [] && SingleSpaced(s)
    ensures SingleSpaced(s[1..])
    ensures IsSpace(s[0]) ==> s[0] == ' ' && (|s| > 1 ==> !IsSpace(s[1]))
  {
    SingleSpacedSlice(s, 1, |s|);
    if IsSpace(s[0]) && |s| > 1 { assert !(IsSpace(s[0]) && IsSpace(s[1])); }
  }

  /** `trimStart` leaves a string that does not start with whitespace. */
  lemma TrimStartNoSpace(s: string)
    requires s == [] || !IsSpace(s[0])
    ensures TrimStart(s) == s
  {
  }

  /** A single-spaced string has no run to collapse. */
  lemma {:induction false} CollapseSingleSpaced(s: string)
    requires SingleSpaced(s)
    ensures CollapseSpaces(s) == s
    decreases |s|
  {
    if s != [] {
      var rest := s[1..];
      SingleSpacedHead(s);
      CollapseSingleSpaced(rest);
      if IsSpace(s[0]) {
        TrimStartNoSpace(rest);
      }
      assert s == [s[0]] + rest;
    }
  }

  /** `s.replace(/\s+/g, ' ').trim()` is normalized. */
  lemma CollapseTrimNormalized(s: string)
    ensures Normalized(Trim(CollapseSpaces(s)))
  {
    CollapseSpacesSingleSpaced(s);
    TrimSingleSpaced(CollapseSpaces(s));
  }

  /** Characters of `s` outside `from` are kept; those inside become `to` (`replace(/[...]/g, to)`). */
  function ReplaceChars(s: string, from: set<char>, to: char): (r: string)
    ensures |r| == |s|
    ensures forall k :: 0 <= k < |s| ==> r[k] == (if s[k] in from then to else s[k])
  {
    seq(|s|, k requires 0 <= k < |s| => if s[k] in from then to else s[k])
  }

  /** Position `k` starts a run of word characters (`\b\w` matches there). */
  predicate WordStart(s: string, k: int)
    requires 0 <= k < |s|
  {
    IsWordChar(s[k]) && (k == 0 || !IsWordChar(s[k - 1]))
  }

  /** The character at `k` after `replace(/\b\w/g, l => l.toUpperCase())`. */
  function StartUpper(s: string, k: nat): char
    requires k < |s|
  {
    if WordStart(s, k) then Upper(s[k]) else s[k]
  }

  /** The character at `k` after `replace(/\b\w+/g, w => w.charAt(0).toUpperCase() + w.slice(1).toLowerCase())`. */
  function WordCased(s: string, k: nat): char
    requires k < |s|
  {
    if WordStart(s, k) then Upper(s[k]) else if IsWordChar(s[k]) then Lower(s[k]) else s[k]
  }

  /** The first character of every run of word characters upper-cased. */
  function CapitalizeWordStarts(s: string): (r: string)
    ensures |r| == |s|
    ensures forall k :: 0 <= k < |s| ==> r[k] == StartUpper(s, k)
  {
    seq(|s|, k requires 0 <= k < |s| => StartUpper(s, k))
  }

  /** Every run of word characters capitalised: first character upper case, the rest lower case. */
  function CapitalizeWords(s: string): (r: string)
    ensures |r| == |s|
    ensures forall k :: 0 <= k < |s| ==> r[k] == WordCased(s, k)
  {
    seq(|s|, k requires 0 <= k < |s| => WordCased(s, k))
  }

  /** Upper-casing word starts introduces no character other than an upper-case letter. */
  lemma StartUpperKeepsOut(s: string, c: char)
    requires !IsAsciiUpper(c) && c !in s
    ensures c !in CapitalizeWordStarts(s)
  {
    var a := CapitalizeWordStarts(s);
    assert forall k :: 0 <= k < |s| ==> a[k] != c;
  }

  /** Capitalising words introduces no character other than a letter. */
  lemma WordCasedKeepsOut(s: string, c: char)
    requires !IsAsciiLetter(c) && c !in s
    ensures c !in CapitalizeWords(s)
  {
    var a := CapitalizeWords(s);
    assert forall k :: 0 <= k < |s| ==> a[k] != c;
  }

  /** Upper-casing word starts moves no whitespace. */
  lemma StartUpperKeepsNormalized(s: string)
    requires Normalized(s)
    ensures Normalized(CapitalizeWordStarts(s))
  {
    var a := CapitalizeWordStarts(s);
    assert forall k :: 0 <= k < |s| ==> (IsSpace(a[k]) <==> IsSpace(s[k])) && (IsSpace(a[k]) ==> a[k] == s[k]);
  }

  /** Capitalising words moves no whitespace. */
  lemma WordCasedKeepsNormalized(s: string)
    requires Normalized(s)
    ensures Normalized(CapitalizeWords(s))
  {
    var a := CapitalizeWords(s);
    assert forall k :: 0 <= k < |s| ==> (IsSpace(a[k]) <==> IsSpace(s[k])) && (IsSpace(a[k]) ==> a[k] == s[k]);
  }

  /** Index of the first occurrence of `c`, if any (`indexOf`). */
  function IndexOf(s: string, c: char): (r: Option<nat>)
    ensures r.None? <==> c !in s
    ensures r.Some? ==> r.value < |s| && s[r.value] == c && forall k :: 0 <= k < r.value ==> s[k] != c
  {
    if s == [] then None
    else if s[0] == c then Some(0)
    else
      var tail := IndexOf(s[1..], c);
      assert c in s <==> c in s[1..] by {
        if c in s { var k :| 0 <= k < |s| && s[k] == c; assert s[1..][k - 1] == c; }
      }
      match tail
      case None => None
      case Some(i) => Some(i + 1)
  }

  /** `s.split(sep)` for a one-character separator: the pieces between the separators, empty ones included. */
  function Split(s: string, sep: char): (parts: seq<string>)
    ensures |parts| >= 1
    ensures forall k :: 0 <= k < |parts| ==> sep !in parts[k]
    decreases |s|
  {
    match IndexOf(s, sep)
    case None => [s]
    case Some(i) => [s[..i]] + Split(s[i + 1..], sep)
  }

  /** `parts.join(sep)`. */
  function Join(parts: seq<string>, sep: char): string {
    if |parts| == 0 then ""
    else if |parts| == 1 then parts[0]
    else parts[0] + [sep] + Join(parts[1..], sep)
  }

  /** Joining the pieces of a split gives back the string. */
  lemma {:induction false} SplitJoin(s: string, sep: char)
    ensures Join(Split(s, sep), sep) == s
    decreases |s|
  {
    match IndexOf(s, sep)
    case None =>
    case Some(i) =>
      var rest := Split(s[i + 1..], sep);
      var parts := [s[..i]] + rest;
      assert parts[0] == s[..i] && parts[1..] == rest;
      assert Join(parts, sep) == s[..i] + [sep] + Join(rest, sep);
      SplitJoin(s[i + 1..], sep);
      assert s == s[..i] + [sep] + s[i + 1..];
  }

  /** Splitting a string without the separator gives the string alone. */
  lemma SplitNone(s: string, sep: char)
    requires sep !in s
    ensures Split(s, sep) == [s]
  {
  }

  /** Appending a piece adds the separator and the piece. */
  lemma {:induction false} JoinSnoc(parts: seq<string>, last: string, sep: char)
    requires |parts| > 0
    ensures Join(parts + [last], sep) == Join(parts, sep) + [sep] + last
    decreases |parts|
  {
    if |parts| > 1 {
      assert (parts + [last])[1..] == parts[1..] + [last];
      JoinSnoc(parts[1..], last, sep);
    } else {
      assert parts + [last] == [parts[0], last];
    }
  }

  /** `s.indexOf(t)`: the first position where `t` occurs, if any. */
  function IndexOfString(s: string, t: string): (r: Option<nat>)
    ensures r.None? <==> !Contains(s, t)
    ensures r.Some? ==> r.value + |t| <= |s| && s[r.value..r.value + |t|] == t
    ensures r.Some? ==> forall k :: 0 <= k < r.value ==> !StartsWith(s[k..], t)
    decreases |s|
  {
    if StartsWith(s, t) then Some(0)
    else if s == [] then None
    else
      match IndexOfString(s[1..], t)
      case None => None
      case Some(i) =>
        assert forall k :: 1 <= k < i + 1 ==> s[k..] == s[1..][k - 1..];
        Some(i + 1)
  }

  /** `s.replace(t, u)` with a string pattern: only the first occurrence of `t` is replaced. */
  function ReplaceFirstString(s: string, t: string, u: string): string {
    match IndexOfString(s, t)
    case None => s
    case Some(i) => s[..i] + u + s[i + |t|..]
  }

  /** The decimal digit of a value below ten. */
  function DigitChar(d: nat): (c: char)
    requires d < 10
    ensures IsDigit(c)
  {
    ('0' as int + d) as char
  }

  /** `n.toString()`: the decimal digits of `n`, without leading zeros. */
  function DecimalString(n: nat): (r: string)
    ensures r != [] && forall k :: 0 <= k < |r| ==> IsDigit(r[k])
  {
    if n < 10 then [DigitChar(n)] else DecimalString(n / 10) + [DigitChar(n % 10)]
  }

  /** The value of a string of decimal digits. */
  function DecimalValue(s: string): nat
    requires forall k :: 0 <= k < |s| ==> IsDigit(s[k])
  {
    if s == [] then 0
    else
      assert IsDigit(s[|s| - 1]);
      DecimalValue(s[..|s| - 1]) * 10 + (s[|s| - 1] as int - '0' as int)
  }

  /** Reading the digits back gives the number. */
  lemma {:induction false} DecimalRoundTrip(n: nat)
    ensures DecimalValue(DecimalString(n)) == n
  {
    if n >= 10 {
      var s := DecimalString(n);
      assert s[..|s| - 1] == DecimalString(n / 10);
      DecimalRoundTrip(n / 10);
    }
  }
}
