/**
 * The fragment of JavaScript regular expressions the library uses, with the
 * backtracking semantics of the ECMAScript matcher (section 22.2.2 of
 * ECMA-262): a pattern at a position yields the ordered list of positions at
 * which it can end, in the order the backtracking matcher tries them, so the
 * first element is the end the matcher commits to.
 *
 * Case-insensitive matching (the `i` flag) folds ASCII letters only. For the
 * patterns of the library this is exact: every letter they mention is ASCII,
 * and the non-Unicode canonicalisation never maps a non-ASCII character to an
 * ASCII one.
 */
module Regex {

  import opened Wrappers
  import opened Strings

  /** A character class `[...]`, or `[^...]` when negated, given by the characters it lists. */
  datatype Class = Class(has: char -> bool, negated: bool)

  datatype Re =
    | Empty                    // the empty pattern
    | Lit(c: char)             // one literal character
    | Str(w: string)           // literal characters in a row, such as `academia\.edu`
    | AnyOf(cls: Class)        // a class, `\s`, `\w`, `.`
    | Bol                      // `^` (no `m` flag: start of input)
    | Eol                      // `$` (no `m` flag: end of input)
    | WordBoundary             // `\b`
    | Cat(a: Re, b: Re)        // `ab`
    | Alt(a: Re, b: Re)        // `a|b`
    | Star(a: Re, greedy: bool) // `a*` when greedy, `a*?` otherwise

  /**
   * Whether `c` belongs to the class. Under the `i` flag a character belongs when
   * it or its other-case letter is listed, and a negated class rejects it then.
   */
  predicate ClassMatches(cls: Class, c: char, ic: bool) {
    var found := cls.has(c) || (ic && (cls.has(Upper(c)) || cls.has(Lower(c))));
    found != cls.negated
  }

  predicate CharEq(c: char, d: char, ic: bool) {
    if ic then Upper(c) == Upper(d) else c == d
  }

  /** `u` spells `w`, ignoring ASCII case when `ic`. */
  predicate SameText(u: string, w: string, ic: bool) {
    if ic then SameIgnoringCase(u, w) else u == w
  }

  /** `\w` holds at position `k` of `s` (false outside the string). */
  predicate WordAt(s: string, k: int) {
    0 <= k < |s| && IsWordChar(s[k])
  }

  predicate AllIn(es: seq<nat>, lo: nat, hi: nat) {
    forall k :: 0 <= k < |es| ==> lo <= es[k] <= hi
  }

  /**
   * The positions at which `r`, started at position `i` of `s`, can end, in the
   * order the backtracking matcher tries them. A greedy star tries one more
   * non-empty iteration before stopping, a lazy one stops first; an iteration
   * that consumes nothing is rejected, as the matcher rejects it.
   */
  function Ends(r: Re, s: string, i: nat, ic: bool): (es: seq<nat>)
    requires i <= |s|
    ensures AllIn(es, i, |s|)
    decreases |s| - i, r, 0
  {
    match r
    case Empty => [i]
    case Lit(c) => if i < |s| && CharEq(s[i], c, ic) then [i + 1] else []
    case Str(w) => if i + |w| <= |s| && SameText(s[i..i + |w|], w, ic) then [i + |w|] else []
    case AnyOf(cls) => if i < |s| && ClassMatches(cls, s[i], ic) then [i + 1] else []
    case Bol => if i == 0 then [i] else []
    case Eol => if i == |s| then [i] else []
    case WordBoundary => if WordAt(s, i - 1) != WordAt(s, i) then [i] else []
    case Cat(a, b) => CatEnds(b, s, Ends(a, s, i, ic), i, ic)
    case Alt(a, b) => Ends(a, s, i, ic) + Ends(b, s, i, ic)
    case Star(a, greedy) =>
      var more := StarEnds(a, greedy, s, Ends(a, s, i, ic), i, ic);
      if greedy then more + [i] else [i] + more
  }

  /** Continues `b` from every end in `es`, in order. */
  function CatEnds(b: Re, s: string, es: seq<nat>, lo: nat, ic: bool): (rs: seq<nat>)
    requires lo <= |s| && AllIn(es, lo, |s|)
    ensures AllIn(rs, lo, |s|)
    decreases |s| - lo, b, |es|
  {
    if es == [] then []
    else Ends(b, s, es[0], ic) + CatEnds(b, s, es[1..], lo, ic)
  }

  /** Continues the star from every end in `es` that made progress past `lo`, in order. */
  function StarEnds(a: Re, greedy: bool, s: string, es: seq<nat>, lo: nat, ic: bool): (rs: seq<nat>)
    requires lo <= |s| && AllIn(es, lo, |s|)
    ensures AllIn(rs, lo, |s|)
    decreases |s| - lo, a, |es|
  {
    if es == [] then []
    else if es[0] == lo then StarEnds(a, greedy, s, es[1..], lo, ic)
    else Ends(Star(a, greedy), s, es[0], ic) + StarEnds(a, greedy, s, es[1..], lo, ic)
  }

  /** `r` matches when started at position `i`. */
  predicate MatchesAt(r: Re, s: string, i: nat, ic: bool)
    requires i <= |s|
  {
    Ends(r, s, i, ic) != []
  }

  /**
   * The leftmost match starting at or after `from`, as the pair (start, end);
   * the end is the first one the backtracking matcher reaches.
   */
  function Search(r: Re, s: string, from: nat, ic: bool): (m: Option<(nat, nat)>)
    requires from <= |s|
    ensures m.Some? ==> from <= m.value.0 <= m.value.1 <= |s|
    decreases |s| - from
  {
    var es := Ends(r, s, from, ic);
    if es != [] then Some((from, es[0]))
    else if from == |s| then None
    else Search(r, s, from + 1, ic)
  }

  /** `Search` finds the leftmost position at which `r` matches, and the first end there. */
  lemma SearchLeftmost(r: Re, s: string, from: nat, ic: bool)
    requires from <= |s|
    ensures Search(r, s, from, ic).None? <==> forall k :: from <= k <= |s| ==> !MatchesAt(r, s, k, ic)
    ensures Search(r, s, from, ic).Some? ==>
      var (st, en) := Search(r, s, from, ic).value;
      && MatchesAt(r, s, st, ic) && en == Ends(r, s, st, ic)[0]
      && forall k :: from <= k < st ==> !MatchesAt(r, s, k, ic)
  {
    SearchNone(r, s, from, ic);
    SearchFirst(r, s, from, ic);
  }

  /** The search finds nothing exactly when `r` matches at no position from `from` on. */
  lemma {:induction false} SearchNone(r: Re, s: string, from: nat, ic: bool)
    requires from <= |s|
    ensures Search(r, s, from, ic).None? <==> forall k :: from <= k <= |s| ==> !MatchesAt(r, s, k, ic)
    decreases |s| - from
  {
    if MatchesAt(r, s, from, ic) {
      SearchHere(r, s, from, ic);
    } else if from == |s| {
      SearchMiss(r, s, from, ic);
    } else {
      SearchMiss(r, s, from, ic);
      SearchNone(r, s, from + 1, ic);
      if Search(r, s, from, ic).None? {
        forall k | from <= k <= |s|
          ensures !MatchesAt(r, s, k, ic)
        {
          if k > from { assert from + 1 <= k <= |s|; }
        }
      }
    }
  }

  /** What the search finds is a match, at the first end there, with no match before it. */
  lemma {:induction false} SearchFirst(r: Re, s: string, from: nat, ic: bool)
    requires from <= |s|
    ensures Search(r, s, from, ic).Some? ==>
      var (st, en) := Search(r, s, from, ic).value;
      && MatchesAt(r, s, st, ic) && en == Ends(r, s, st, ic)[0]
      && forall k :: from <= k < st ==> !MatchesAt(r, s, k, ic)
    decreases |s| - from
  {
    if MatchesAt(r, s, from, ic) {
      SearchHere(r, s, from, ic);
    } else if from == |s| {
      SearchMiss(r, s, from, ic);
    } else {
      SearchMiss(r, s, from, ic);
      SearchFirst(r, s, from + 1, ic);
      NoMatchBefore(r, s, from, Search(r, s, from + 1, ic), ic);
    }
  }

  /** A miss at `from` extends the stretch without a match before what the search finds from `from + 1`. */
  lemma NoMatchBefore(r: Re, s: string, from: nat, m: Option<(nat, nat)>, ic: bool)
    requires from < |s| && !MatchesAt(r, s, from, ic)
    requires m.Some? ==> from + 1 <= m.value.0 <= |s| && forall k :: from + 1 <= k < m.value.0 ==> !MatchesAt(r, s, k, ic)
    ensures m.Some? ==> forall k :: from <= k < m.value.0 ==> !MatchesAt(r, s, k, ic)
  {
  }

  /** What a match is replaced with: fixed text, or the matched text upper-cased or capitalised. */
  datatype Replacement =
    | Text(t: string)     // a string replacement without `$` patterns
    | ToUpper             // `m => m.toUpperCase()`
    | Capitalize          // `w => w.charAt(0).toUpperCase() + w.slice(1).toLowerCase()`

  function Apply(rep: Replacement, m: string): string {
    match rep
    case Text(t) => t
    case ToUpper => UpperString(m)
    case Capitalize => CapitalizeWord(m)
  }

  /** `s.replace(r, rep)` for a pattern without the `g` flag: only the leftmost match is replaced. */
  function ReplaceFirst(r: Re, s: string, rep: Replacement, ic: bool): string {
    match Search(r, s, 0, ic)
    case None => s
    case Some((st, en)) => s[..st] + Apply(rep, s[st..en]) + s[en..]
  }

  /** The spans in `ms` lie in order, without overlap, between `from` and `hi`. */
  predicate Ordered(ms: seq<(nat, nat)>, from: nat, hi: nat) {
    ms == [] || (from <= ms[0].0 <= ms[0].1 <= hi && Ordered(ms[1..], ms[0].1, hi))
  }

  /**
   * The matches the global replace loop finds when it searches from `at`: after a
   * match it searches again from the match's end, or one position further when
   * the match was empty.
   */
  function Matches(r: Re, s: string, at: nat, ic: bool): (ms: seq<(nat, nat)>)
    requires at <= |s| + 1
    ensures Ordered(ms, at, |s|)
    decreases |s| + 1 - at
  {
    if at > |s| then []
    else
      var m := Search(r, s, at, ic);
      if m.None? then []
      else [m.value] + Matches(r, s, if m.value.1 == m.value.0 then m.value.1 + 1 else m.value.1, ic)
  }

  /** Copies `s` from `copied` on, putting the replacement of each span of `ms` in its place. */
  function Splice(s: string, ms: seq<(nat, nat)>, rep: Replacement, copied: nat): string
    requires copied <= |s| && Ordered(ms, copied, |s|)
    decreases |ms|
  {
    if ms == [] then s[copied..]
    else s[copied..ms[0].0] + Apply(rep, s[ms[0].0..ms[0].1]) + Splice(s, ms[1..], rep, ms[0].1)
  }

  /** `s.replace(r, rep)` for a pattern with the `g` flag. */
  function ReplaceAll(r: Re, s: string, rep: Replacement, ic: bool): string {
    Splice(s, Matches(r, s, 0, ic), rep, 0)
  }

  /** `r.test(s)` for a pattern without the `g` flag. */
  predicate Test(r: Re, s: string, ic: bool) {
    Search(r, s, 0, ic).Some?
  }

  // ---------------------------------------------------------------------------
  // Building patterns

  /** `a+` */
  function Plus(a: Re): Re { Cat(a, Star(a, true)) }

  /** `a+?` */
  function LazyPlus(a: Re): Re { Cat(a, Star(a, false)) }

  /** `a?` */
  function Opt(a: Re): Re { Alt(a, Empty) }

  /** The concatenation of several patterns. */
  function Concat(rs: seq<Re>): Re
    decreases |rs|
  {
    if rs == [] then Empty
    else if |rs| == 1 then rs[0]
    else Cat(rs[0], Concat(rs[1..]))
  }

  /** The alternation of several patterns, tried left to right. */
  function Either(rs: seq<Re>): Re
    decreases |rs|
  {
    if rs == [] then Empty
    else if |rs| == 1 then rs[0]
    else Alt(rs[0], Either(rs[1..]))
  }

  /** A class listing single characters, such as `[<>]`. */
  function OneOf(cs: string): Class {
    Class(c => c in cs, false)
  }

  /** `\s` */
  const SpaceClass: Class := Class(IsSpace, false)

  /** `\w` */
  const WordClass: Class := Class(IsWordChar, false)

  /** `.`: anything but a line terminator. */
  const DotClass: Class := Class(c => c in "\n\r\U{2028}\U{2029}", true)

  const Space: Re := AnyOf(SpaceClass)

  lemma SpaceClassMatches(c: char, ic: bool)
    ensures ClassMatches(SpaceClass, c, ic) <==> IsSpace(c)
  {
  }

  lemma WordClassMatches(c: char, ic: bool)
    ensures ClassMatches(WordClass, c, ic) <==> IsWordChar(c)
  {
  }

  // ---------------------------------------------------------------------------
  // Steps of the global replace loop

  lemma SearchSkip(r: Re, s: string, at: nat, ic: bool)
    requires at < |s| && !MatchesAt(r, s, at, ic)
    ensures Search(r, s, at, ic) == Search(r, s, at + 1, ic)
  {
    SearchMiss(r, s, at, ic);
  }

  /** Where `r` matches at `at`, the search stops there, at the first end. */
  lemma SearchHere(r: Re, s: string, at: nat, ic: bool)
    requires at <= |s| && MatchesAt(r, s, at, ic)
    ensures Search(r, s, at, ic) == Some((at, Ends(r, s, at, ic)[0]))
  {
  }

  /** Where `r` does not match at `at`, the search gives up at the end of the input or moves on. */
  lemma SearchMiss(r: Re, s: string, at: nat, ic: bool)
    requires at <= |s| && !MatchesAt(r, s, at, ic)
    ensures Search(r, s, at, ic) == if at == |s| then None else Search(r, s, at + 1, ic)
  {
  }

  /** Two positions from which the search finds the same span list the same matches. */
  lemma MatchesSameSearch(r: Re, s: string, a: nat, b: nat, ic: bool)
    requires a <= b <= |s| && Search(r, s, a, ic) == Search(r, s, b, ic)
    ensures Matches(r, s, a, ic) == Matches(r, s, b, ic)
  {
  }

  /** Where nothing matches at `at`, the search moves on to the next position. */
  lemma MatchesSkip(r: Re, s: string, at: nat, ic: bool)
    requires at < |s| && !MatchesAt(r, s, at, ic)
    ensures Matches(r, s, at, ic) == Matches(r, s, at + 1, ic)
  {
    SearchSkip(r, s, at, ic);
    MatchesSameSearch(r, s, at, at + 1, ic);
  }

  /** Where a non-empty match starts at `at`, the search resumes at its end. */
  lemma MatchesFound(r: Re, s: string, at: nat, ic: bool)
    requires at <= |s| && MatchesAt(r, s, at, ic) && Ends(r, s, at, ic)[0] > at
    ensures var en := Ends(r, s, at, ic)[0];
      Matches(r, s, at, ic) == [(at, en)] + Matches(r, s, en, ic)
  {
  }

  /** Regrouping a concatenation of four pieces. */
  lemma ConcatRegroup<T>(a: seq<T>, b: seq<T>, c: seq<T>, d: seq<T>)
    ensures a + b + c + d == a + (b + c + d)
  {
  }

  /** Spans in order after one position are in order after an earlier one. */
  lemma OrderedLower(ms: seq<(nat, nat)>, from: nat, hi: nat)
    requires Ordered(ms, from + 1, hi)
    ensures Ordered(ms, from, hi)
  {
  }

  /** A character before the next span is copied unchanged. */
  lemma SpliceCopy(s: string, ms: seq<(nat, nat)>, rep: Replacement, at: nat)
    requires at < |s| && Ordered(ms, at + 1, |s|)
    ensures Ordered(ms, at, |s|)
    ensures Splice(s, ms, rep, at) == [s[at]] + Splice(s, ms, rep, at + 1)
  {
    OrderedLower(ms, at, |s|);
    if ms == [] {
      assert s[at..] == [s[at]] + s[at + 1..];
    } else {
      var x := Apply(rep, s[ms[0].0..ms[0].1]);
      var t := Splice(s, ms[1..], rep, ms[0].1);
      var a, b := s[at..ms[0].0], s[at + 1..ms[0].0];
      assert a == [s[at]] + b;
      assert Splice(s, ms, rep, at) == a + x + t;
      assert Splice(s, ms, rep, at + 1) == b + x + t;
      ConcatRegroup([s[at]], b, x, t);
    }
  }

  /** A replaced span contributes its replacement, and copying resumes after it. */
  lemma SpliceReplace(s: string, ms: seq<(nat, nat)>, rep: Replacement, at: nat, en: nat)
    requires at <= en <= |s| && Ordered(ms, en, |s|)
    ensures Ordered([(at, en)] + ms, at, |s|)
    ensures Splice(s, [(at, en)] + ms, rep, at) == Apply(rep, s[at..en]) + Splice(s, ms, rep, en)
  {
    var all := [(at, en)] + ms;
    assert all[0] == (at, en) && all[1..] == ms;
    assert Ordered(all, at, |s|);
    var x := Apply(rep, s[at..en]);
    assert Splice(s, all, rep, at) == s[at..at] + x + Splice(s, ms, rep, en);
    assert s[at..at] + x == x;
  }

  /** Where a one-character match starts at `at`, the splice starts with its replacement. */
  lemma SpliceHit(r: Re, s: string, rep: Replacement, at: nat, ic: bool)
    requires at < |s| && MatchesAt(r, s, at, ic) && Ends(r, s, at, ic)[0] == at + 1
    ensures Splice(s, Matches(r, s, at, ic), rep, at) == Apply(rep, s[at..at + 1]) + Splice(s, Matches(r, s, at + 1, ic), rep, at + 1)
  {
    MatchesFound(r, s, at, ic);
    SpliceReplace(s, Matches(r, s, at + 1, ic), rep, at, at + 1);
  }

  /** Where nothing matches at `at`, the splice starts with the character there. */
  lemma SpliceMiss(r: Re, s: string, rep: Replacement, at: nat, ic: bool)
    requires at < |s| && !MatchesAt(r, s, at, ic)
    ensures Splice(s, Matches(r, s, at, ic), rep, at) == [s[at]] + Splice(s, Matches(r, s, at + 1, ic), rep, at + 1)
  {
    MatchesSkip(r, s, at, ic);
    SpliceCopy(s, Matches(r, s, at + 1, ic), rep, at);
  }

  // ---------------------------------------------------------------------------
  // Properties of the global replace

  /** A pattern that matches nowhere leaves the string as it is. */
  lemma ReplaceAllNoMatch(r: Re, s: string, rep: Replacement, ic: bool)
    requires forall k :: 0 <= k <= |s| ==> !MatchesAt(r, s, k, ic)
    ensures ReplaceAll(r, s, rep, ic) == s
  {
    SearchLeftmost(r, s, 0, ic);
  }

  /** Replacing with fixed text introduces no character that neither the string nor the text holds. */
  lemma {:induction false} SpliceKeepsOut(s: string, ms: seq<(nat, nat)>, t: string, copied: nat, c: char)
    requires copied <= |s| && Ordered(ms, copied, |s|)
    requires c !in s && c !in t
    ensures c !in Splice(s, ms, Text(t), copied)
    decreases |ms|
  {
    if ms != [] {
      SpliceKeepsOut(s, ms[1..], t, ms[0].1, c);
      assert c !in s[copied..ms[0].0];
    } else {
      assert c !in s[copied..];
    }
  }

  lemma ReplaceAllKeepsOut(r: Re, s: string, t: string, ic: bool, c: char)
    requires c !in s && c !in t
    ensures c !in ReplaceAll(r, s, Text(t), ic)
  {
    SpliceKeepsOut(s, Matches(r, s, 0, ic), t, 0, c);
  }

  // ---------------------------------------------------------------------------
  // One-character patterns: `/©/g`, `/[-_]/g`, `/[<>]/g`, ...

  predicate OneChar(r: Re) { r.Lit? || r.AnyOf? }

  /** The one-character pattern `r` accepts `c`. */
  predicate Hits(r: Re, c: char, ic: bool)
    requires OneChar(r)
  {
    if r.Lit? then CharEq(c, r.c, ic) else ClassMatches(r.cls, c, ic)
  }

  /**
   * Reference definition of the global replace of a one-character pattern: every
   * character it accepts is replaced, the others are copied.
   */
  function EachChar(r: Re, s: string, rep: Replacement, ic: bool): string
    requires OneChar(r)
  {
    if s == [] then []
    else (if Hits(r, s[0], ic) then Apply(rep, [s[0]]) else [s[0]]) + EachChar(r, s[1..], rep, ic)
  }

  lemma {:induction false} SpliceOneChar(r: Re, s: string, rep: Replacement, at: nat, ic: bool)
    requires OneChar(r) && at <= |s|
    ensures Splice(s, Matches(r, s, at, ic), rep, at) == EachChar(r, s[at..], rep, ic)
    decreases |s| - at
  {
    if at == |s| {
      SpliceOneCharEnd(r, s, rep, ic);
    } else {
      SpliceOneChar(r, s, rep, at + 1, ic);
      SpliceOneCharStep(r, s, rep, at, ic);
    }
  }

  /** A one-character pattern finds nothing at the end of the string. */
  lemma SpliceOneCharEnd(r: Re, s: string, rep: Replacement, ic: bool)
    requires OneChar(r)
    ensures Splice(s, Matches(r, s, |s|, ic), rep, |s|) == EachChar(r, s[|s|..], rep, ic)
  {
    assert Matches(r, s, |s|, ic) == [];
    assert s[|s|..] == [];
  }

  /** One character of a one-character pattern's global replace: replaced when it hits, else copied. */
  lemma SpliceOneCharStep(r: Re, s: string, rep: Replacement, at: nat, ic: bool)
    requires OneChar(r) && at < |s|
    requires Splice(s, Matches(r, s, at + 1, ic), rep, at + 1) == EachChar(r, s[at + 1..], rep, ic)
    ensures Splice(s, Matches(r, s, at, ic), rep, at) == EachChar(r, s[at..], rep, ic)
  {
    var u := s[at..];
    assert u[0] == s[at] && u[1..] == s[at + 1..];
    if Hits(r, s[at], ic) {
      assert Ends(r, s, at, ic) == [at + 1];
      SpliceHit(r, s, rep, at, ic);
      assert s[at..at + 1] == [s[at]];
    } else {
      SpliceMiss(r, s, rep, at, ic);
    }
  }

  /** The global replace of a one-character pattern rewrites character by character. */
  lemma ReplaceAllOneChar(r: Re, s: string, rep: Replacement, ic: bool)
    requires OneChar(r)
    ensures ReplaceAll(r, s, rep, ic) == EachChar(r, s, rep, ic)
  {
    SpliceOneChar(r, s, rep, 0, ic);
    assert s[0..] == s;
  }

  /** After the global replace of a one-character pattern, no accepted character is left, unless the text brings it. */
  lemma {:induction false} EachCharRemoves(r: Re, s: string, t: string, ic: bool, c: char)
    requires OneChar(r) && Hits(r, c, ic) && c !in t
    ensures c !in EachChar(r, s, Text(t), ic)
  {
    if s != [] {
      EachCharRemoves(r, s[1..], t, ic, c);
    }
  }

  /** Where the pattern accepts no character of `s`, the global replace leaves `s` as it is. */
  lemma {:induction false} EachCharNone(r: Re, s: string, rep: Replacement, ic: bool)
    requires OneChar(r) && forall k :: 0 <= k < |s| ==> !Hits(r, s[k], ic)
    ensures EachChar(r, s, rep, ic) == s
  {
    if s != [] {
      assert forall k :: 0 <= k < |s[1..]| ==> s[1..][k] == s[k + 1];
      EachCharNone(r, s[1..], rep, ic);
      assert s == [s[0]] + s[1..];
    }
  }

  /** A one-character pattern ends one position on where it accepts the character, and nowhere else. */
  lemma OneCharEnds(r: Re, s: string, i: nat, ic: bool)
    requires OneChar(r) && i <= |s|
    ensures Ends(r, s, i, ic) == if i < |s| && Hits(r, s[i], ic) then [i + 1] else []
  {
  }

  /** Continuing from a single end is matching from there. */
  lemma CatEndsOne(b: Re, s: string, j: nat, lo: nat, ic: bool)
    requires lo <= j <= |s|
    ensures CatEnds(b, s, [j], lo, ic) == Ends(b, s, j, ic)
  {
    assert CatEnds(b, s, [j], lo, ic) == Ends(b, s, j, ic) + CatEnds(b, s, [], lo, ic);
  }

  /** A one-character pattern followed by `rest` continues one position further, where it accepts the character. */
  lemma OneCharStep(r: Re, rest: Re, s: string, i: nat, ic: bool)
    requires OneChar(r) && i <= |s|
    ensures Ends(Cat(r, rest), s, i, ic) == if i < |s| && Hits(r, s[i], ic) then Ends(rest, s, i + 1, ic) else []
  {
    OneCharEnds(r, s, i, ic);
    var es := Ends(r, s, i, ic);
    assert Ends(Cat(r, rest), s, i, ic) == CatEnds(rest, s, es, i, ic);
    if es != [] {
      CatEndsOne(rest, s, i + 1, i, ic);
    }
  }

  // ---------------------------------------------------------------------------
  // Runs of a class: `\s*`, `\s+`, `[^@]+`, `\w+`

  /** Where the run of characters accepted by `cls` that starts at `i` ends. */
  function RunEnd(cls: Class, s: string, i: nat, ic: bool): (j: nat)
    requires i <= |s|
    ensures i <= j <= |s|
    ensures j < |s| ==> !ClassMatches(cls, s[j], ic)
    decreases |s| - i
  {
    if i < |s| && ClassMatches(cls, s[i], ic) then RunEnd(cls, s, i + 1, ic) else i
  }

  /** The positions `j`, `j - 1`, ..., `i`, longest first. */
  function Down(j: nat, i: nat): (ds: seq<nat>)
    requires i <= j
    ensures |ds| == j - i + 1 && ds[0] == j
    decreases j - i
  {
    if j == i then [i] else [j] + Down(j - 1, i)
  }

  lemma {:induction false} DownSnoc(j: nat, i: nat)
    requires i < j
    ensures Down(j, i + 1) + [i] == Down(j, i)
    decreases j - i
  {
    if j > i + 1 {
      DownSnoc(j - 1, i);
    }
  }

  /** A greedy star over a class ends anywhere in the run, trying the longest first. */
  lemma {:induction false} StarClassEnds(cls: Class, s: string, i: nat, ic: bool)
    requires i <= |s|
    ensures Ends(Star(AnyOf(cls), true), s, i, ic) == Down(RunEnd(cls, s, i, ic), i)
    decreases |s| - i
  {
    var a := AnyOf(cls);
    if i < |s| && ClassMatches(cls, s[i], ic) {
      StarClassEnds(cls, s, i + 1, ic);
      var es := Ends(a, s, i, ic);
      assert es == [i + 1];
      assert StarEnds(a, true, s, es, i, ic) == Ends(Star(a, true), s, i + 1, ic) + StarEnds(a, true, s, es[1..], i, ic);
      DownSnoc(RunEnd(cls, s, i, ic), i);
    } else {
      assert Ends(a, s, i, ic) == [];
    }
  }

  /** A greedy plus over a class matches where the class does, ending first at the end of the run. */
  lemma PlusClassEnds(cls: Class, s: string, i: nat, ic: bool)
    requires i <= |s|
    ensures Ends(Plus(AnyOf(cls)), s, i, ic) ==
      if i < |s| && ClassMatches(cls, s[i], ic) then Down(RunEnd(cls, s, i, ic), i + 1) else []
  {
    var a := AnyOf(cls);
    var es := Ends(a, s, i, ic);
    if i < |s| && ClassMatches(cls, s[i], ic) {
      StarClassEnds(cls, s, i + 1, ic);
      assert es == [i + 1];
      assert CatEnds(Star(a, true), s, es, i, ic) == Ends(Star(a, true), s, i + 1, ic) + CatEnds(Star(a, true), s, es[1..], i, ic);
    } else {
      assert es == [];
    }
  }

  /** `trimStart` drops exactly the run of whitespace. */
  lemma {:induction false} TrimStartRun(s: string, i: nat)
    requires i <= |s|
    ensures TrimStart(s[i..]) == s[RunEnd(SpaceClass, s, i, false)..]
    decreases |s| - i
  {
    if i < |s| && IsSpace(s[i]) {
      TrimStartRun(s, i + 1);
      assert s[i..][1..] == s[i + 1..];
    }
  }

  /** A run of whitespace at `at` becomes one space, and copying resumes after the run. */
  lemma SpliceCollapseRun(s: string, at: nat)
    requires at < |s| && IsSpace(s[at])
    ensures var en := RunEnd(SpaceClass, s, at, false);
      Splice(s, Matches(Plus(Space), s, at, false), Text(" "), at)
        == " " + Splice(s, Matches(Plus(Space), s, en, false), Text(" "), en)
  {
    var r := Plus(Space);
    var en := RunEnd(SpaceClass, s, at, false);
    PlusClassEnds(SpaceClass, s, at, false);
    MatchesFound(r, s, at, false);
    SpliceReplace(s, Matches(r, s, en, false), Text(" "), at, en);
  }

  /** A character that is not whitespace is copied. */
  lemma SpliceCollapseCopy(s: string, at: nat)
    requires at < |s| && !IsSpace(s[at])
    ensures Splice(s, Matches(Plus(Space), s, at, false), Text(" "), at)
        == [s[at]] + Splice(s, Matches(Plus(Space), s, at + 1, false), Text(" "), at + 1)
  {
    var r := Plus(Space);
    PlusClassEnds(SpaceClass, s, at, false);
    MatchesSkip(r, s, at, false);
    SpliceCopy(s, Matches(r, s, at + 1, false), Text(" "), at);
  }

  lemma {:induction false} SpliceCollapse(s: string, at: nat)
    requires at <= |s|
    ensures Splice(s, Matches(Plus(Space), s, at, false), Text(" "), at) == CollapseSpaces(s[at..])
    decreases |s| - at
  {
    if at == |s| {
      PlusClassEnds(SpaceClass, s, at, false);
      assert Matches(Plus(Space), s, at, false) == [];
    } else {
      var u := s[at..];
      assert u[1..] == s[at + 1..];
      if IsSpace(s[at]) {
        var en := RunEnd(SpaceClass, s, at, false);
        SpliceCollapseRun(s, at);
        SpliceCollapse(s, en);
        TrimStartRun(s, at + 1);
        assert CollapseSpaces(u) == [' '] + CollapseSpaces(s[en..]);
      } else {
        SpliceCollapseCopy(s, at);
        SpliceCollapse(s, at + 1);
        assert CollapseSpaces(u) == [s[at]] + CollapseSpaces(s[at + 1..]);
      }
    }
  }

  /** `replace(/\s+/g, ' ')` is `CollapseSpaces`. */
  lemma ReplaceAllSpaces(s: string)
    ensures ReplaceAll(Plus(Space), s, Text(" "), false) == CollapseSpaces(s)
  {
    SpliceCollapse(s, 0);
    assert s[0..] == s;
  }

  /** Every character of the run that starts at `i` is accepted by the class. */
  lemma {:induction false} RunEndInside(cls: Class, s: string, i: nat, ic: bool, k: nat)
    requires i <= |s| && i <= k < RunEnd(cls, s, i, ic)
    ensures ClassMatches(cls, s[k], ic)
    decreases |s| - i
  {
    if k > i {
      RunEndInside(cls, s, i + 1, ic, k);
    }
  }

  // ---------------------------------------------------------------------------
  // Word capitalisation: `/\b\w/g` and `/\b\w+/g`

  /** `\b\w` */
  const WordStartRe: Re := Cat(WordBoundary, AnyOf(WordClass))

  /** `\b\w+` */
  const WordRunRe: Re := Cat(WordBoundary, Plus(AnyOf(WordClass)))

  lemma WordStartEnds(s: string, i: nat)
    requires i <= |s|
    ensures Ends(WordStartRe, s, i, false) == if i < |s| && WordStart(s, i) then [i + 1] else []
  {
    var b := Ends(WordBoundary, s, i, false);
    assert Ends(WordStartRe, s, i, false) == CatEnds(AnyOf(WordClass), s, b, i, false);
    if b != [] {
      assert b[1..] == [];
    }
  }

  lemma WordRunEnds(s: string, i: nat)
    requires i <= |s|
    ensures Ends(WordRunRe, s, i, false) ==
      if i < |s| && WordStart(s, i) then Down(RunEnd(WordClass, s, i, false), i + 1) else []
  {
    var b := Ends(WordBoundary, s, i, false);
    var p := Plus(AnyOf(WordClass));
    assert Ends(WordRunRe, s, i, false) == CatEnds(p, s, b, i, false);
    PlusClassEnds(WordClass, s, i, false);
    if b != [] {
      assert b[1..] == [];
      assert CatEnds(p, s, b, i, false) == Ends(p, s, i, false) + CatEnds(p, s, b[1..], i, false);
    }
  }

  /** `t` is what upper-casing the word starts of `s` leaves from position `at` on. */
  predicate UpperFrom(t: string, s: string, at: nat) {
    |t| == |s| - at && forall k :: at <= k < |s| ==> t[k - at] == StartUpper(s, k)
  }

  lemma ConsUpperFrom(s: string, at: nat, tail: string)
    requires at < |s| && UpperFrom(tail, s, at + 1)
    ensures UpperFrom([StartUpper(s, at)] + tail, s, at)
  {
    var t := [StartUpper(s, at)] + tail;
    forall k | at < k < |s| ensures t[k - at] == StartUpper(s, k) {
      assert t[k - at] == tail[k - (at + 1)];
    }
  }

  /** One step of the replace loop of `\b\w`: a word start is upper-cased, anything else copied. */
  lemma SpliceWordStartsStep(s: string, at: nat)
    requires at < |s|
    requires UpperFrom(Splice(s, Matches(WordStartRe, s, at + 1, false), ToUpper, at + 1), s, at + 1)
    ensures UpperFrom(Splice(s, Matches(WordStartRe, s, at, false), ToUpper, at), s, at)
  {
    var r := WordStartRe;
    var tail := Splice(s, Matches(r, s, at + 1, false), ToUpper, at + 1);
    WordStartEnds(s, at);
    if WordStart(s, at) {
      SpliceHit(r, s, ToUpper, at, false);
      assert s[at..at + 1] == [s[at]];
      assert Apply(ToUpper, [s[at]]) == [StartUpper(s, at)];
    } else {
      SpliceMiss(r, s, ToUpper, at, false);
    }
    ConsUpperFrom(s, at, tail);
  }

  lemma {:induction false} SpliceWordStarts(s: string, at: nat)
    requires at <= |s|
    ensures UpperFrom(Splice(s, Matches(WordStartRe, s, at, false), ToUpper, at), s, at)
    decreases |s| - at
  {
    if at == |s| {
      WordStartEnds(s, at);
      assert Matches(WordStartRe, s, at, false) == [];
    } else {
      SpliceWordStarts(s, at + 1);
      SpliceWordStartsStep(s, at);
    }
  }

  /** `replace(/\b\w/g, l => l.toUpperCase())` upper-cases the first character of every word. */
  lemma ReplaceAllWordStarts(s: string)
    ensures ReplaceAll(WordStartRe, s, ToUpper, false) == CapitalizeWordStarts(s)
  {
    SpliceWordStarts(s, 0);
    assert UpperFrom(ReplaceAll(WordStartRe, s, ToUpper, false), s, 0);
  }

  /** `t` is what capitalising the words of `s` leaves from position `at` on. */
  predicate CasedFrom(t: string, s: string, at: nat) {
    |t| == |s| - at && forall k :: at <= k < |s| ==> t[k - at] == WordCased(s, k)
  }

  lemma ConsCasedFrom(s: string, at: nat, tail: string)
    requires at < |s| && !IsWordChar(s[at]) && CasedFrom(tail, s, at + 1)
    ensures CasedFrom([s[at]] + tail, s, at)
  {
    var t := [s[at]] + tail;
    forall k | at < k < |s| ensures t[k - at] == WordCased(s, k) {
      assert t[k - at] == tail[k - (at + 1)];
    }
  }

  /** Inside the word that starts at `at` and runs to `en`, capitalising agrees with `WordCased`. */
  lemma WordCasedInside(s: string, at: nat, en: nat)
    requires at < |s| && WordStart(s, at) && en == RunEnd(WordClass, s, at, false)
    ensures forall k :: at <= k < en ==> CapitalizeWord(s[at..en])[k - at] == WordCased(s, k)
  {
    var w := s[at..en];
    var c := CapitalizeWord(w);
    assert c[0] == Upper(s[at]);
    forall k | at < k < en ensures c[k - at] == WordCased(s, k) {
      RunEndInside(WordClass, s, at, false, k);
      RunEndInside(WordClass, s, at, false, k - 1);
      WordClassMatches(s[k], false);
      WordClassMatches(s[k - 1], false);
      assert !WordStart(s, k) && IsWordChar(s[k]);
      assert c[k - at] == Lower(w[k - at]) && w[k - at] == s[k];
    }
  }

  /** Capitalising the word that starts at `at` and runs to `en`. */
  lemma WordCasedRun(s: string, at: nat, en: nat, tail: string)
    requires at < |s| && WordStart(s, at) && en == RunEnd(WordClass, s, at, false)
    requires CasedFrom(tail, s, en)
    ensures CasedFrom(CapitalizeWord(s[at..en]) + tail, s, at)
  {
    var w := CapitalizeWord(s[at..en]);
    WordCasedInside(s, at, en);
    var t := w + tail;
    forall k | at <= k < |s| ensures t[k - at] == WordCased(s, k) {
      if k < en {
        assert t[k - at] == w[k - at];
      } else {
        assert t[k - at] == tail[k - en];
      }
    }
  }

  lemma {:induction false} SpliceWordRuns(s: string, at: nat)
    requires at <= |s|
    requires at == 0 || at == |s| || !IsWordChar(s[at - 1]) || !IsWordChar(s[at])
    ensures CasedFrom(Splice(s, Matches(WordRunRe, s, at, false), Capitalize, at), s, at)
    decreases |s| - at, 1
  {
    if at == |s| {
      SpliceWordRunsEnd(s);
    } else if WordStart(s, at) {
      SpliceWordRunsWord(s, at);
    } else {
      SpliceWordRunsOther(s, at);
    }
  }

  /** The case of a word starting at `at`. */
  lemma {:induction false} SpliceWordRunsWord(s: string, at: nat)
    requires at < |s| && WordStart(s, at)
    ensures CasedFrom(Splice(s, Matches(WordRunRe, s, at, false), Capitalize, at), s, at)
    decreases |s| - at, 0
  {
    var en := RunEnd(WordClass, s, at, false);
    WordRunStops(s, at);
    SpliceWordRuns(s, en);
    SpliceWordRunStep(s, at, en);
  }

  /** The case of a character at `at` where no word starts. */
  lemma {:induction false} SpliceWordRunsOther(s: string, at: nat)
    requires at < |s| && !WordStart(s, at)
    requires at == 0 || !IsWordChar(s[at - 1]) || !IsWordChar(s[at])
    ensures CasedFrom(Splice(s, Matches(WordRunRe, s, at, false), Capitalize, at), s, at)
    decreases |s| - at, 0
  {
    assert !IsWordChar(s[at]);
    SpliceWordRuns(s, at + 1);
    SpliceNonWordStep(s, at);
  }

  lemma SpliceWordRunsEnd(s: string)
    ensures CasedFrom(Splice(s, Matches(WordRunRe, s, |s|, false), Capitalize, |s|), s, |s|)
  {
    WordRunEnds(s, |s|);
    assert Matches(WordRunRe, s, |s|, false) == [];
  }

  /** A word that starts at `at` is not empty and ends where a non-word character or the input does. */
  lemma WordRunStops(s: string, at: nat)
    requires at < |s| && WordStart(s, at)
    ensures var en := RunEnd(WordClass, s, at, false);
      at < en && (en == |s| || !IsWordChar(s[en]))
  {
    var en := RunEnd(WordClass, s, at, false);
    WordClassMatches(s[at], false);
    if en < |s| {
      WordClassMatches(s[en], false);
    }
  }

  /** A word starting at `at` is capitalised, and the splice goes on from its end. */
  lemma SpliceWordRunStep(s: string, at: nat, en: nat)
    requires at < |s| && WordStart(s, at) && en == RunEnd(WordClass, s, at, false)
    requires CasedFrom(Splice(s, Matches(WordRunRe, s, en, false), Capitalize, en), s, en)
    ensures CasedFrom(Splice(s, Matches(WordRunRe, s, at, false), Capitalize, at), s, at)
  {
    var rest := Matches(WordRunRe, s, en, false);
    WordRunEnds(s, at);
    MatchesFound(WordRunRe, s, at, false);
    SpliceReplace(s, rest, Capitalize, at, en);
    WordCasedRun(s, at, en, Splice(s, rest, Capitalize, en));
  }

  /** A character where no word starts is copied, and the splice goes on from the next one. */
  lemma SpliceNonWordStep(s: string, at: nat)
    requires at < |s| && !WordStart(s, at)
    requires at == 0 || !IsWordChar(s[at - 1]) || !IsWordChar(s[at])
    requires CasedFrom(Splice(s, Matches(WordRunRe, s, at + 1, false), Capitalize, at + 1), s, at + 1)
    ensures CasedFrom(Splice(s, Matches(WordRunRe, s, at, false), Capitalize, at), s, at)
  {
    var rest := Matches(WordRunRe, s, at + 1, false);
    WordRunEnds(s, at);
    MatchesSkip(WordRunRe, s, at, false);
    SpliceCopy(s, rest, Capitalize, at);
    ConsCasedFrom(s, at, Splice(s, rest, Capitalize, at + 1));
  }

  /** `replace(/\b\w+/g, capitalise)` capitalises every word. */
  lemma ReplaceAllWordRuns(s: string)
    ensures ReplaceAll(WordRunRe, s, Capitalize, false) == CapitalizeWords(s)
  {
    SpliceWordRuns(s, 0);
    assert CasedFrom(ReplaceAll(WordRunRe, s, Capitalize, false), s, 0);
  }

  // ---------------------------------------------------------------------------
  // Literal words and anchors: `/^user$/i`, `/^\s*$/`, `/^[a-zA-Z]:\\/`, `/^\/[a-zA-Z]/`

  /** A pattern anchored with `^` can only match at the start. */
  lemma AnchoredEnds(r: Re, s: string, k: nat, ic: bool)
    requires k <= |s|
    ensures Ends(Cat(Bol, r), s, k, ic) == if k == 0 then Ends(r, s, 0, ic) else []
  {
    var b := Ends(Bol, s, k, ic);
    if k == 0 {
      assert b[1..] == [];
      assert CatEnds(r, s, b, k, ic) == Ends(r, s, 0, ic) + CatEnds(r, s, b[1..], k, ic);
    }
  }

  /** `/^r/.test(s)` holds exactly when `r` matches at the start of `s`. */
  lemma AnchoredTest(r: Re, s: string, ic: bool)
    ensures Test(Cat(Bol, r), s, ic) <==> MatchesAt(r, s, 0, ic)
  {
    var a := Cat(Bol, r);
    SearchLeftmost(a, s, 0, ic);
    AnchoredEnds(r, s, 0, ic);
    var m := Search(a, s, 0, ic);
    if m.Some? {
      AnchoredEnds(r, s, m.value.0, ic);
    }
  }

  /** `r$` matches exactly where `r` can end at the end of the input. */
  lemma {:induction false} EolEnds(s: string, es: seq<nat>, lo: nat, ic: bool)
    requires lo <= |s| && AllIn(es, lo, |s|)
    ensures CatEnds(Eol, s, es, lo, ic) != [] <==> |s| in es
    decreases |es|
  {
    if es != [] {
      EolEnds(s, es[1..], lo, ic);
      assert CatEnds(Eol, s, es, lo, ic) == Ends(Eol, s, es[0], ic) + CatEnds(Eol, s, es[1..], lo, ic);
      assert es == [es[0]] + es[1..];
      assert |s| in es <==> es[0] == |s| || |s| in es[1..];
    }
  }

  /** `ab` can only continue from an end of `a` from which `b` matches. */
  lemma {:induction false} CatEndsFrom(b: Re, s: string, es: seq<nat>, lo: nat, ic: bool)
    requires lo <= |s| && AllIn(es, lo, |s|)
    requires CatEnds(b, s, es, lo, ic) != []
    ensures exists j :: 0 <= j < |es| && Ends(b, s, es[j], ic) != []
    decreases |es|
  {
    if Ends(b, s, es[0], ic) == [] {
      CatEndsFrom(b, s, es[1..], lo, ic);
      var j :| 0 <= j < |es[1..]| && Ends(b, s, es[1..][j], ic) != [];
      assert es[1..][j] == es[j + 1];
    }
  }

  /** A word matched ignoring case up to the end of the input: the last characters agree. */
  lemma StrAtEnd(s: string, e: nat, w: string)
    requires e <= |s| && w != [] && |s| in Ends(Str(w), s, e, true)
    ensures |s| > 0 && Upper(s[|s| - 1]) == Upper(w[|w| - 1])
  {
    assert e + |w| == |s| && SameIgnoringCase(s[e..e + |w|], w);
    assert s[e..e + |w|][|w| - 1] == s[|s| - 1];
  }

  lemma EolMatches(r: Re, s: string, i: nat, ic: bool)
    requires i <= |s|
    ensures MatchesAt(Cat(r, Eol), s, i, ic) <==> |s| in Ends(r, s, i, ic)
  {
    EolEnds(s, Ends(r, s, i, ic), i, ic);
  }

  /** `^word$` matches exactly the strings that spell `word`. */
  lemma WholeWordTest(w: string, s: string, ic: bool)
    ensures Test(Cat(Bol, Cat(Str(w), Eol)), s, ic) <==> |s| == |w| && SameText(s, w, ic)
  {
    AnchoredTest(Cat(Str(w), Eol), s, ic);
    EolMatches(Str(w), s, 0, ic);
    assert s[0..|s|] == s;
  }

  lemma {:induction false} DownHas(j: nat, i: nat, x: nat)
    requires i <= j
    ensures x in Down(j, i) <==> i <= x <= j
    decreases j - i
  {
    if j > i {
      DownHas(j - 1, i, x);
    }
  }

  /** The run of a class reaches the end exactly when every remaining character is accepted. */
  lemma {:induction false} RunEndAll(cls: Class, s: string, i: nat, ic: bool)
    requires i <= |s|
    ensures RunEnd(cls, s, i, ic) == |s| <==> forall k :: i <= k < |s| ==> ClassMatches(cls, s[k], ic)
    decreases |s| - i
  {
    if i < |s| && ClassMatches(cls, s[i], ic) {
      RunEndAll(cls, s, i + 1, ic);
    }
  }

  /** `/^\s*$/` matches exactly the blank strings. */
  lemma BlankTest(s: string, ic: bool)
    ensures Test(Cat(Bol, Cat(Star(Space, true), Eol)), s, ic) <==> IsBlank(s)
  {
    AnchoredTest(Cat(Star(Space, true), Eol), s, ic);
    EolMatches(Star(Space, true), s, 0, ic);
    StarClassEnds(SpaceClass, s, 0, ic);
    DownHas(RunEnd(SpaceClass, s, 0, ic), 0, |s|);
    RunEndAll(SpaceClass, s, 0, ic);
  }

  // ---------------------------------------------------------------------------
  // One capture group: `s.match(/pre(grp)post/)`

  /** The first end in `es` from which `post` matches. */
  function FirstEnd(post: Re, s: string, es: seq<nat>, lo: nat, ic: bool): (m: Option<nat>)
    requires lo <= |s| && AllIn(es, lo, |s|)
    ensures m.Some? ==> lo <= m.value <= |s| && MatchesAt(post, s, m.value, ic)
    decreases |es|
  {
    if es == [] then None
    else if MatchesAt(post, s, es[0], ic) then Some(es[0])
    else FirstEnd(post, s, es[1..], lo, ic)
  }

  /** Trying each start of the group in `es`, in order: the first group span after which `post` matches. */
  function CaptureIn(grp: Re, post: Re, s: string, es: seq<nat>, lo: nat, ic: bool): (m: Option<(nat, nat)>)
    requires lo <= |s| && AllIn(es, lo, |s|)
    ensures m.Some? ==> lo <= m.value.0 <= m.value.1 <= |s|
    decreases |es|
  {
    if es == [] then None
    else
      var e := FirstEnd(post, s, Ends(grp, s, es[0], ic), es[0], ic);
      if e.Some? then Some((es[0], e.value)) else CaptureIn(grp, post, s, es[1..], lo, ic)
  }

  function CaptureFrom(pre: Re, grp: Re, post: Re, s: string, from: nat, ic: bool): (m: Option<(nat, nat)>)
    requires from <= |s|
    ensures m.Some? ==> from <= m.value.0 <= m.value.1 <= |s|
    decreases |s| - from
  {
    var m := CaptureIn(grp, post, s, Ends(pre, s, from, ic), from, ic);
    if m.Some? then m
    else if from == |s| then None
    else CaptureFrom(pre, grp, post, s, from + 1, ic)
  }

  /**
   * `s.match(/pre(grp)post/)` without the `g` flag, reduced to the span of the group
   * in the leftmost match: the matcher backtracks through the ends of `pre`, then
   * of `grp`, and commits to the first pair after which `post` matches.
   */
  function Capture(pre: Re, grp: Re, post: Re, s: string, ic: bool): Option<(nat, nat)> {
    CaptureFrom(pre, grp, post, s, 0, ic)
  }

  lemma {:induction false} FirstEndFound(post: Re, s: string, es: seq<nat>, lo: nat, ic: bool)
    requires lo <= |s| && AllIn(es, lo, |s|)
    ensures FirstEnd(post, s, es, lo, ic).Some? <==> CatEnds(post, s, es, lo, ic) != []
    decreases |es|
  {
    if es != [] {
      FirstEndFound(post, s, es[1..], lo, ic);
    }
  }

  lemma {:induction false} CaptureInFound(grp: Re, post: Re, s: string, es: seq<nat>, lo: nat, ic: bool)
    requires lo <= |s| && AllIn(es, lo, |s|)
    ensures CaptureIn(grp, post, s, es, lo, ic).Some? <==> CatEnds(Cat(grp, post), s, es, lo, ic) != []
    decreases |es|
  {
    if es != [] {
      CaptureInFound(grp, post, s, es[1..], lo, ic);
      FirstEndFound(post, s, Ends(grp, s, es[0], ic), es[0], ic);
      assert Ends(Cat(grp, post), s, es[0], ic) == CatEnds(post, s, Ends(grp, s, es[0], ic), es[0], ic);
    }
  }

  /** The group is captured exactly when the whole pattern matches, at the same leftmost start. */
  lemma {:induction false} CaptureFound(pre: Re, grp: Re, post: Re, s: string, from: nat, ic: bool)
    requires from <= |s|
    ensures var whole := Search(Cat(pre, Cat(grp, post)), s, from, ic);
      && (CaptureFrom(pre, grp, post, s, from, ic).Some? <==> whole.Some?)
    decreases |s| - from
  {
    var whole := Cat(pre, Cat(grp, post));
    WholeMatches(pre, grp, post, s, from, ic);
    if MatchesAt(whole, s, from, ic) {
      SearchHere(whole, s, from, ic);
      CaptureHit(pre, grp, post, s, from, ic);
    } else {
      SearchMiss(whole, s, from, ic);
      CaptureMiss(pre, grp, post, s, from, ic);
      if from < |s| {
        CaptureFound(pre, grp, post, s, from + 1, ic);
      }
    }
  }

  lemma WholeMatches(pre: Re, grp: Re, post: Re, s: string, from: nat, ic: bool)
    requires from <= |s|
    ensures MatchesAt(Cat(pre, Cat(grp, post)), s, from, ic) <==> CaptureIn(grp, post, s, Ends(pre, s, from, ic), from, ic).Some?
  {
    CaptureInFound(grp, post, s, Ends(pre, s, from, ic), from, ic);
  }

  /** `[^@]` */
  const NotAtClass: Class := Class(c => c == '@', true)

  /** The email pattern's group `^([^@]+)@`. */
  const EmailGroup: Re := Plus(AnyOf(NotAtClass))

  lemma {:induction false} FirstEndNone(post: Re, s: string, es: seq<nat>, lo: nat, ic: bool)
    requires lo <= |s| && AllIn(es, lo, |s|)
    requires forall k :: 0 <= k < |es| ==> !MatchesAt(post, s, es[k], ic)
    ensures FirstEnd(post, s, es, lo, ic).None?
    decreases |es|
  {
    if es != [] {
      assert !MatchesAt(post, s, es[0], ic);
      FirstEndNone(post, s, es[1..], lo, ic);
    }
  }

  lemma BolEnds(s: string, i: nat, ic: bool)
    requires i <= |s|
    ensures Ends(Bol, s, i, ic) == if i == 0 then [0] else []
  {
  }

  /** Where `pre` cannot match, the capture moves on to the next position. */
  lemma CaptureSkip(pre: Re, grp: Re, post: Re, s: string, from: nat, ic: bool)
    requires from <= |s| && Ends(pre, s, from, ic) == []
    ensures CaptureFrom(pre, grp, post, s, from, ic) == if from == |s| then None else CaptureFrom(pre, grp, post, s, from + 1, ic)
  {
    CaptureInEmpty(grp, post, s, from, ic);
    CaptureMiss(pre, grp, post, s, from, ic);
  }

  lemma CaptureInEmpty(grp: Re, post: Re, s: string, lo: nat, ic: bool)
    requires lo <= |s|
    ensures CaptureIn(grp, post, s, [], lo, ic) == None
  {
  }

  /** Where no group span works after any end of `pre`, the capture moves on to the next position. */
  lemma CaptureMiss(pre: Re, grp: Re, post: Re, s: string, from: nat, ic: bool)
    requires from <= |s| && CaptureIn(grp, post, s, Ends(pre, s, from, ic), from, ic).None?
    ensures CaptureFrom(pre, grp, post, s, from, ic) == if from == |s| then None else CaptureFrom(pre, grp, post, s, from + 1, ic)
  {
  }

  /** Where a group span works after an end of `pre`, the capture takes the first. */
  lemma CaptureHit(pre: Re, grp: Re, post: Re, s: string, from: nat, ic: bool)
    requires from <= |s| && CaptureIn(grp, post, s, Ends(pre, s, from, ic), from, ic).Some?
    ensures CaptureFrom(pre, grp, post, s, from, ic) == CaptureIn(grp, post, s, Ends(pre, s, from, ic), from, ic)
  {
  }

  lemma {:induction false} CaptureAnchoredLater(grp: Re, post: Re, s: string, from: nat, ic: bool)
    requires 0 < from <= |s|
    ensures CaptureFrom(Bol, grp, post, s, from, ic).None?
    decreases |s| - from
  {
    BolEnds(s, from, ic);
    CaptureSkip(Bol, grp, post, s, from, ic);
    if from < |s| {
      CaptureAnchoredLater(grp, post, s, from + 1, ic);
    }
  }

  lemma CaptureInSingle(grp: Re, post: Re, s: string, i: nat, ic: bool)
    requires i <= |s|
    ensures var e := FirstEnd(post, s, Ends(grp, s, i, ic), i, ic);
      CaptureIn(grp, post, s, [i], i, ic) == if e.Some? then Some((i, e.value)) else None
  {
    assert [i][1..] == [];
  }

  /** With `pre` = `^`, the group can only start at position 0. */
  lemma CaptureAnchoredStart(grp: Re, post: Re, s: string, ic: bool)
    ensures CaptureFrom(Bol, grp, post, s, 0, ic) == CaptureIn(grp, post, s, [0], 0, ic)
  {
    var m := CaptureIn(grp, post, s, Ends(Bol, s, 0, ic), 0, ic);
    BolEnds(s, 0, ic);
    assert m == CaptureIn(grp, post, s, [0], 0, ic);
    if m.None? {
      CaptureMiss(Bol, grp, post, s, 0, ic);
      if 0 < |s| {
        CaptureAnchoredLater(grp, post, s, 1, ic);
      }
    } else {
      CaptureHit(Bol, grp, post, s, 0, ic);
    }
  }

  lemma CaptureAnchored(grp: Re, post: Re, s: string, ic: bool)
    ensures var e := FirstEnd(post, s, Ends(grp, s, 0, ic), 0, ic);
      Capture(Bol, grp, post, s, ic) == if e.Some? then Some((0, e.value)) else None
  {
    CaptureAnchoredStart(grp, post, s, ic);
    CaptureInSingle(grp, post, s, 0, ic);
  }

  lemma EmailFirstEnd(s: string)
    ensures var j := RunEnd(NotAtClass, s, 0, false);
      FirstEnd(Lit('@'), s, Ends(EmailGroup, s, 0, false), 0, false) == if 0 < j < |s| then Some(j) else None
  {
    var j := RunEnd(NotAtClass, s, 0, false);
    var es := Ends(EmailGroup, s, 0, false);
    PlusClassEnds(NotAtClass, s, 0, false);
    if 0 < |s| && s[0] != '@' && j == |s| {
      forall k | 0 <= k < |es| ensures !MatchesAt(Lit('@'), s, es[k], false) {
        DownHas(j, 1, es[k]);
        if es[k] < |s| {
          RunEndInside(NotAtClass, s, 0, false, es[k]);
        }
      }
      FirstEndNone(Lit('@'), s, es, 0, false);
    }
  }

  /**
   * `s.match(/^([^@]+)@/)` captures everything before the first `@`, provided that
   * is not empty; `j` is where the run of non-`@` characters at the start ends.
   */
  lemma EmailCapture(s: string)
    ensures var j := RunEnd(NotAtClass, s, 0, false);
      Capture(Bol, EmailGroup, Lit('@'), s, false) == if 0 < j < |s| then Some((0, j)) else None
  {
    CaptureAnchored(EmailGroup, Lit('@'), s, false);
    EmailFirstEnd(s);
  }
}
