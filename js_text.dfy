/**
 * The JavaScript string operations the converter relies on, stated over
 * `string`, whose `char` is a Unicode scalar value.  JavaScript strings are
 * UTF-16 code units, and a character outside the Basic Multilingual Plane
 * is two of them; `Utf16Length`, `RegexUnits` and `FitChars` account for
 * that where a length or a cut depends on it.
 *
 * Global regular-expression replacements are modelled by `ReplaceAll` over
 * the few regular expressions the converter uses (`Regex`): a fixed-length
 * `Pattern` of single-character tests, and the variable-length script/style
 * block, line-break tag, any-tag, space-run and underscore-run expressions.
 * The `i` flag on an ASCII pattern is `Fold`, which compares ASCII-lowered
 * characters.  Without the `u` flag, JavaScript's case-insensitive
 * canonicalisation goes through upper case and refuses to map a
 * non-ASCII character onto an ASCII one, so this is exact.
 */
module JsText {

  // ---------------------------------------------------------------------
  // Character classes
  // ---------------------------------------------------------------------

  /** The characters of JavaScript's `\s` class, which `String.prototype.trim`
      also removes: WhiteSpace and LineTerminator of ECMA-262. */
  predicate IsSpace(c: char) {
    || c == '\t' || c == '\n' || c == '\U{B}' || c == '\U{C}' || c == '\r'
    || c == ' ' || c == '\U{A0}' || c == '\U{1680}'
    || ('\U{2000}' <= c <= '\U{200A}')
    || c == '\U{2028}' || c == '\U{2029}' || c == '\U{202F}' || c == '\U{205F}'
    || c == '\U{3000}' || c == '\U{FEFF}'
  }

  predicate IsAsciiUpper(c: char) { 'A' <= c <= 'Z' }
  predicate IsAsciiLower(c: char) { 'a' <= c <= 'z' }
  predicate IsDigit(c: char) { '0' <= c <= '9' }

  /** JavaScript's `\w` without the `u` flag. */
  predicate IsWordChar(c: char) {
    IsAsciiUpper(c) || IsAsciiLower(c) || IsDigit(c) || c == '_'
  }

  function AsciiLower(c: char): (d: char)
    ensures IsAsciiUpper(c) ==> IsAsciiLower(d)
    ensures !IsAsciiUpper(c) ==> d == c
  {
    if IsAsciiUpper(c) then (c as int + 32) as char else c
  }

  /** `toLowerCase()` on a string; every use in the model applies it to ASCII
      text or only inspects ASCII results, where the two agree. */
  function AsciiLowerString(s: string): (r: string)
    ensures |r| == |s|
    ensures forall i :: 0 <= i < |s| ==> r[i] == AsciiLower(s[i])
  {
    seq(|s|, i requires 0 <= i < |s| => AsciiLower(s[i]))
  }

  // ---------------------------------------------------------------------
  // UTF-16 code units
  // ---------------------------------------------------------------------

  /** A character outside the Basic Multilingual Plane: JavaScript stores it
      as two UTF-16 code units, a surrogate pair. */
  predicate Astral(c: char) {
    c as int > 0xFFFF
  }

  /** The number of code units of one character. */
  function Units(c: char): nat {
    if Astral(c) then 2 else 1
  }

  /** `s.length` in JavaScript: the number of UTF-16 code units. */
  function Utf16Length(s: string): (n: nat)
    ensures |s| <= n <= 2 * |s|
    ensures n == 0 <==> s == []
  {
    if s == [] then 0 else Units(s[0]) + Utf16Length(s[1..])
  }

  lemma {:induction false} Utf16LengthAppend(a: string, b: string)
    ensures Utf16Length(a + b) == Utf16Length(a) + Utf16Length(b)
  {
    if a == [] {
      assert a + b == b;
    } else {
      assert (a + b)[0] == a[0];
      assert (a + b)[1..] == a[1..] + b;
      Utf16LengthAppend(a[1..], b);
    }
  }

  /** Without characters outside the Basic Multilingual Plane, the
      JavaScript length is the number of characters. */
  lemma {:induction false} Utf16LengthBmp(s: string)
    requires forall i :: 0 <= i < |s| ==> !Astral(s[i])
    ensures Utf16Length(s) == |s|
  {
    if s != [] {
      assert !Astral(s[0]);
      Utf16LengthBmp(s[1..]);
    }
  }

  /** How many leading characters of `s` fit in `n` code units: the cut of
      `s.substring(0, n)`, except that a surrogate pair the cut would split
      is left out whole. */
  function FitChars(s: string, n: nat): (k: nat)
    ensures k <= |s|
  {
    if s == [] || Units(s[0]) > n then 0 else 1 + FitChars(s[1..], n - Units(s[0]))
  }

  /** The kept prefix fits in `n` code units, and the next character does
      not fit any more. */
  lemma {:induction false} FitCharsFacts(s: string, n: nat)
    ensures Utf16Length(s[..FitChars(s, n)]) <= n
    ensures FitChars(s, n) < |s| ==> Utf16Length(s[..FitChars(s, n) + 1]) > n
    ensures Utf16Length(s) <= n ==> FitChars(s, n) == |s|
  {
    var k := FitChars(s, n);
    if s != [] && Units(s[0]) <= n {
      var m := n - Units(s[0]);
      FitCharsFacts(s[1..], m);
      assert s[..k][1..] == s[1..][..k - 1];
      if k < |s| {
        assert s[..k + 1][1..] == s[1..][..k];
      }
    } else if s != [] {
      assert s[..1][1..] == [];
    }
  }

  /** Without characters outside the Basic Multilingual Plane, the cut keeps
      `n` characters, or all of them. */
  lemma {:induction false} FitCharsBmp(s: string, n: nat)
    requires forall i :: 0 <= i < |s| ==> !Astral(s[i])
    ensures FitChars(s, n) == if |s| <= n then |s| else n
  {
    if s != [] && n > 0 {
      assert !Astral(s[0]);
      FitCharsBmp(s[1..], n - 1);
    }
  }

  /** `s` as a regular expression without the `u` flag reads it: each
      character outside the Basic Multilingual Plane is two code units.
      Surrogates are not `char`s here; each is stood for by U+FFFD, which
      lies in just the same classes as a surrogate among those used here
      (it is not an ASCII letter, digit, `_` or `-`). */
  function RegexUnits(s: string): (r: string)
    ensures |r| == Utf16Length(s)
  {
    if s == [] then [] else (if Astral(s[0]) then "\U{FFFD}\U{FFFD}" else [s[0]]) + RegexUnits(s[1..])
  }

  lemma {:induction false} RegexUnitsBmp(s: string)
    requires forall i :: 0 <= i < |s| ==> !Astral(s[i])
    ensures RegexUnits(s) == s
  {
    if s != [] {
      assert !Astral(s[0]);
      RegexUnitsBmp(s[1..]);
    }
  }

  // ---------------------------------------------------------------------
  // trim()
  // ---------------------------------------------------------------------

  /** The end of the text in `s[lo..hi]`: every character from there to
      `hi` is a space, the one before it is not (or it is `lo`). */
  function TextEnd(s: string, lo: nat, hi: nat): (b: nat)
    requires lo <= hi <= |s|
    ensures lo <= b <= hi && (b == lo || !IsSpace(s[b - 1]))
    ensures forall i :: b <= i < hi ==> IsSpace(s[i])
    decreases hi
  {
    if hi > lo && IsSpace(s[hi - 1]) then TextEnd(s, lo, hi - 1) else hi
  }

  /** `r` is the slice of `s` that starts at `k`, every character of `s`
      outside it being a space. */
  predicate SpaceFramed(s: string, r: string, k: int) {
    && 0 <= k && k + |r| <= |s| && r == s[k..k + |r|]
    && (forall i :: 0 <= i < k ==> IsSpace(s[i]))
    && (forall i :: k + |r| <= i < |s| ==> IsSpace(s[i]))
  }

  /** Neither end of `r` is a space. */
  predicate TrimmedEnds(r: string) {
    r == [] || (!IsSpace(r[0]) && !IsSpace(r[|r| - 1]))
  }

  /** `String.prototype.trim`: the longest run of spaces at each end removed. */
  function Trim(s: string): (r: string)
    ensures TrimmedEnds(r)
    ensures exists k :: SpaceFramed(s, r, k)
  {
    var a := SkipSpaces(s, 0);
    var b := TextEnd(s, a, |s|);
    assert SpaceFramed(s, s[a..b], a);
    s[a..b]
  }

  /** The trim is the only slice framed by spaces whose ends are not
      spaces. */
  lemma TrimUnique(s: string, r: string, k: int)
    requires SpaceFramed(s, r, k) && TrimmedEnds(r)
    ensures Trim(s) == r
  {
    if r != [] {
      assert s[k] == r[0] && s[k + |r| - 1] == r[|r| - 1];
    }
  }

  /** A string whose ends are not spaces is its own trim. */
  lemma TrimKeeps(s: string)
    requires |s| > 0 && !IsSpace(s[0]) && !IsSpace(s[|s| - 1])
    ensures Trim(s) == s
  {
    assert s[0..|s|] == s;
    TrimUnique(s, s, 0);
  }

  // ---------------------------------------------------------------------
  // Regular expressions and global replacement
  // ---------------------------------------------------------------------

  /** One character position of a regular expression. */
  datatype Atom =
    | Exact(c: char)                     // the character itself
    | Fold(c: char)                      // the character under the `i` flag
    | DigitOneToSix                      // [1-6]
    | AnyOf(cs: string, orSpace: bool)   // [cs], with \s inside when orSpace
    | NoneOfRanges(rs: seq<(char, char)>) // [^rs] under the `i` flag, ranges in lower case

  predicate AtomMatches(a: Atom, c: char) {
    match a
    case Exact(d) => c == d
    case Fold(d) => AsciiLower(c) == AsciiLower(d)
    case DigitOneToSix => '1' <= c <= '6'
    case AnyOf(cs, orSpace) => c in cs || (orSpace && IsSpace(c))
    case NoneOfRanges(rs) => forall k :: 0 <= k < |rs| ==> !(rs[k].0 <= AsciiLower(c) <= rs[k].1)
  }

  type Pattern = seq<Atom>

  /** The pattern that matches exactly `s`. */
  function Lit(s: string): (p: Pattern)
    ensures |p| == |s|
  {
    seq(|s|, i requires 0 <= i < |s| => Exact(s[i]))
  }

  /** The pattern that matches `s` under the `i` flag. */
  function Ci(s: string): (p: Pattern)
    ensures |p| == |s|
  {
    seq(|s|, i requires 0 <= i < |s| => Fold(s[i]))
  }

  predicate MatchesAt(s: string, p: Pattern, i: int) {
    0 <= i && i + |p| <= |s| &&
    forall k :: 0 <= k < |p| ==> AtomMatches(p[k], s[i + k])
  }

  /** Dropping the first character shifts every match one place left. */
  lemma MatchesAtTail(s: string, p: Pattern, i: int)
    requires |s| > 0 && 0 <= i
    ensures MatchesAt(s[1..], p, i) <==> MatchesAt(s, p, i + 1)
  {
    if 0 <= i && i + |p| <= |s[1..]| {
      forall k | 0 <= k < |p| ensures AtomMatches(p[k], s[1..][i + k]) == AtomMatches(p[k], s[i + 1 + k]) {
        assert s[1..][i + k] == s[i + 1 + k];
      }
    }
  }

  /** A match at position `i` is a match at the start of `s[i..]`. */
  lemma MatchesAtSuffix(s: string, p: Pattern, i: int)
    requires 0 <= i <= |s|
    ensures MatchesAt(s[i..], p, 0) <==> MatchesAt(s, p, i)
  {
    if i + |p| <= |s| {
      forall k | 0 <= k < |p| ensures AtomMatches(p[k], s[i..][k]) == AtomMatches(p[k], s[i + k]) {
        assert s[i..][k] == s[i + k];
      }
    }
  }

  /** The first position at or after `from` where `p` matches, or -1. */
  function FindMatch(s: string, p: Pattern, from: nat): (r: int)
    requires from <= |s|
    ensures r == -1 || (from <= r && MatchesAt(s, p, r))
    ensures r == -1 ==> forall k :: from <= k <= |s| ==> !MatchesAt(s, p, k)
    ensures r != -1 ==> forall k :: from <= k < r ==> !MatchesAt(s, p, k)
    decreases |s| - from
  {
    if MatchesAt(s, p, from) then from
    else if from == |s| then -1
    else FindMatch(s, p, from + 1)
  }

  /** The first position at or after `i` that does not hold a space. */
  function SkipSpaces(s: string, i: nat): (j: nat)
    requires i <= |s|
    ensures i <= j <= |s| && (j == |s| || !IsSpace(s[j]))
    ensures forall k :: i <= k < j ==> IsSpace(s[k])
    decreases |s| - i
  {
    if i < |s| && IsSpace(s[i]) then SkipSpaces(s, i + 1) else i
  }

  /** The first position at or after `i` that does not hold `_`. */
  function SkipUnderscores(s: string, i: nat): (j: nat)
    requires i <= |s|
    ensures i <= j <= |s| && (j == |s| || s[j] != '_')
    ensures forall k :: i <= k < j ==> s[k] == '_'
    decreases |s| - i
  {
    if i < |s| && s[i] == '_' then SkipUnderscores(s, i + 1) else i
  }

  /** The regular expressions the converter replaces with. */
  datatype Regex =
    | Fixed(p: Pattern)    // one atom per matched character
    | Block(name: string)  // /<name\b[^<]*(?:(?!<\/name>)<[^<]*)*<\/name>/gi
    | BrTag                // /<br\s*\/?>/gi
    | AnyTag               // /<[^>]*>/g
    | Spaces               // /\s+/g
    | Underscores          // /_{2,}/g

  /** Only fixed patterns of at least one character: no regex here matches
      the empty string. */
  predicate ValidRegex(re: Regex) {
    re.Fixed? ==> |re.p| > 0
  }

  /** The length of the match of `re` that the regex engine finds when it
      tries the start of `s`, or 0 when it finds none. */
  function MatchLen(s: string, re: Regex): (n: nat)
    requires ValidRegex(re)
    ensures n <= |s|
  {
    match re
    case Fixed(p) => if MatchesAt(s, p, 0) then |p| else 0
    case Block(name) =>
      // The lazy body cannot run past a closer, so the match ends at the
      // first closing tag after the opening one, if there is any.
      var open := Ci("<" + name);
      if !MatchesAt(s, open, 0) then 0
      else if |open| < |s| && IsWordChar(s[|open|]) then 0
      else
        var close := Ci("</" + name + ">");
        var k := FindMatch(s, close, |open|);
        if k == -1 then 0 else k + |close|
    case BrTag =>
      if !MatchesAt(s, Ci("<br"), 0) then 0
      else
        var j := SkipSpaces(s, 3);
        var j' := if j < |s| && s[j] == '/' then j + 1 else j;
        if j' < |s| && s[j'] == '>' then j' + 1 else 0
    case AnyTag =>
      if s != [] && s[0] == '<' then
        var k := IndexOf(s, ">", 1);
        if k == -1 then 0 else k + 1
      else 0
    case Spaces => SkipSpaces(s, 0)
    case Underscores =>
      var n := SkipUnderscores(s, 0);
      if n >= 2 then n else 0
  }

  /** The match of `/_{2,}/` at the start of `s`. */
  lemma MatchLenUnderscores(s: string)
    ensures MatchLen(s, Underscores) == if SkipUnderscores(s, 0) >= 2 then SkipUnderscores(s, 0) else 0
  {
  }

  /** No position of `s` starts a match of `re`. */
  predicate NoMatch(s: string, re: Regex)
    requires ValidRegex(re)
  {
    forall i :: 0 <= i < |s| ==> MatchLen(s[i..], re) == 0
  }

  /** `s.replace(re, rep)` for a global regex that never matches the empty
      string: leftmost matches, left to right, never overlapping, and the
      replacement text is never rescanned. */
  function ReplaceAll(s: string, re: Regex, rep: string): (r: string)
    requires ValidRegex(re)
    ensures NoMatch(s, re) ==> r == s
    ensures forall c :: c in r ==> c in s || c in rep
    decreases |s|
  {
    if s == [] then []
    else
      var n := MatchLen(s, re);
      if n > 0 then
        assert s[0..] == s;
        rep + ReplaceAll(s[n..], re, rep)
      else
        NoMatchTail(s, re);
        [s[0]] + ReplaceAll(s[1..], re, rep)
  }

  lemma NoMatchTail(s: string, re: Regex)
    requires ValidRegex(re) && |s| > 0
    ensures NoMatch(s, re) ==> NoMatch(s[1..], re)
  {
    forall i | 0 <= i < |s[1..]| ensures s[1..][i..] == s[i + 1..] { }
  }

  /** Every match of `re` starts with `<`. */
  predicate OpensWithLt(re: Regex) {
    match re
    case Fixed(p) => |p| > 0 && (p[0] == Exact('<') || p[0] == Fold('<'))
    case Spaces => false
    case Underscores => false
    case _ => true
  }

  lemma FoldLt(c: char)
    requires AtomMatches(Fold('<'), c)
    ensures c == '<'
  {
  }

  /** A string without `<` holds no match of a regex that opens with `<`. */
  lemma NoMatchWithoutLt(s: string, re: Regex)
    requires ValidRegex(re) && OpensWithLt(re) && '<' !in s
    ensures NoMatch(s, re)
  {
    forall i | 0 <= i < |s| ensures MatchLen(s[i..], re) == 0 {
      assert s[i..][0] == s[i];
      NoMatchHere(s[i..], re);
    }
  }

  /** A string without `c` holds no match of a pattern that opens with `c`. */
  lemma NoMatchWithout(s: string, p: Pattern, c: char)
    requires |p| > 0 && p[0] == Exact(c) && c !in s
    ensures NoMatch(s, Fixed(p))
  {
    forall i | 0 <= i < |s| ensures MatchLen(s[i..], Fixed(p)) == 0 {
      assert s[i..][0] == s[i];
    }
  }

  /** A prefix in which no match starts passes through `ReplaceAll` unchanged. */
  lemma {:induction false} ReplaceAllPassPrefix(t: string, u: string, re: Regex, rep: string)
    requires ValidRegex(re)
    requires forall i :: 0 <= i < |t| ==> MatchLen((t + u)[i..], re) == 0
    ensures ReplaceAll(t + u, re, rep) == t + ReplaceAll(u, re, rep)
    decreases |t|
  {
    if t == [] {
      assert t + u == u;
    } else {
      var s := t + u;
      assert s[0..] == s;
      assert MatchLen(s, re) == 0;
      assert s[1..] == t[1..] + u;
      assert ReplaceAll(s, re, rep) == [s[0]] + ReplaceAll(s[1..], re, rep);
      forall i | 0 <= i < |t[1..]| ensures MatchLen((t[1..] + u)[i..], re) == 0 {
        assert (t[1..] + u)[i..] == s[i + 1..];
      }
      ReplaceAllPassPrefix(t[1..], u, re, rep);
      ConsSplit(t, ReplaceAll(u, re, rep));
    }
  }

  /** Putting the first element back in front of the rest. */
  lemma ConsSplit<T>(t: seq<T>, x: seq<T>)
    requires t != []
    ensures [t[0]] + (t[1..] + x) == t + x
  {
    assert [t[0]] + t[1..] == t;
  }

  /** A prefix without the first character of a pattern passes through. */
  lemma ReplaceAllPassWithout(t: string, u: string, p: Pattern, c: char, rep: string)
    requires |p| > 0 && p[0] == Exact(c) && c !in t
    ensures ReplaceAll(t + u, Fixed(p), rep) == t + ReplaceAll(u, Fixed(p), rep)
  {
    forall i | 0 <= i < |t| ensures MatchLen((t + u)[i..], Fixed(p)) == 0 {
      assert (t + u)[i..][0] == t[i];
    }
    ReplaceAllPassPrefix(t, u, Fixed(p), rep);
  }

  /** A match at the very start is replaced and scanning resumes after it. */
  lemma ReplaceAllMatchPrefix(t: string, u: string, re: Regex, rep: string)
    requires ValidRegex(re) && MatchLen(t + u, re) == |t| > 0
    ensures ReplaceAll(t + u, re, rep) == rep + ReplaceAll(u, re, rep)
  {
    assert (t + u)[|t|..] == u;
  }

  /** Replacing a one-character class replaces each matching character. */
  lemma {:induction false} ReplaceEachChar(s: string, a: Atom, rep: char)
    ensures var r := ReplaceAll(s, Fixed([a]), [rep]);
      |r| == |s| && forall i :: 0 <= i < |s| ==> r[i] == if AtomMatches(a, s[i]) then rep else s[i]
    decreases |s|
  {
    if s != [] {
      ReplaceEachChar(s[1..], a, rep);
      var r := ReplaceAll(s, Fixed([a]), [rep]);
      assert [a][0] == a;
      assert MatchesAt(s, [a], 0) <==> AtomMatches(a, s[0]);
      assert r == [if AtomMatches(a, s[0]) then rep else s[0]] + ReplaceAll(s[1..], Fixed([a]), [rep]);
    }
  }

  /** The concatenation of `f(c)` over the characters `c` of `s`. */
  function Flat(f: char -> string, s: string): string
    decreases |s|
  {
    if s == [] then [] else f(s[0]) + Flat(f, s[1..])
  }

  function Single(c: char): string { [c] }

  lemma {:induction false} FlatSingle(s: string)
    ensures Flat(Single, s) == s
    decreases |s|
  {
    if s != [] {
      FlatSingle(s[1..]);
      assert s == [s[0]] + s[1..];
    }
  }

  /** A replacement that acts on each piece `f(c)` on its own, turning it
      into `g(c)`, turns the concatenation of the pieces into that of the
      results. */
  lemma {:induction false} ReplaceAllFlat(s: string, f: char -> string, g: char -> string, re: Regex, rep: string)
    requires ValidRegex(re)
    requires forall c, u :: ReplaceAll(f(c) + u, re, rep) == g(c) + ReplaceAll(u, re, rep)
    ensures ReplaceAll(Flat(f, s), re, rep) == Flat(g, s)
    decreases |s|
  {
    if s != [] {
      ReplaceAllFlat(s[1..], f, g, re, rep);
      var u := Flat(f, s[1..]);
      assert ReplaceAll(f(s[0]) + u, re, rep) == g(s[0]) + ReplaceAll(u, re, rep);
    }
  }

  /** A one-character pattern replaces the first character or keeps it. */
  lemma ReplaceAllOneChar(c: char, u: string, a: Atom, rep: string)
    ensures ReplaceAll([c] + u, Fixed([a]), rep) ==
      (if AtomMatches(a, c) then rep else [c]) + ReplaceAll(u, Fixed([a]), rep)
  {
    var s := [c] + u;
    assert [a][0] == a;
    assert s[0] == c;
    assert MatchesAt(s, [a], 0) <==> AtomMatches(a, c);
    assert s[1..] == u;
  }

  /** A literal at the very start is replaced. */
  lemma ReplaceAllLitStart(w: string, u: string, rep: string)
    requires |w| > 0
    ensures ReplaceAll(w + u, Fixed(Lit(w)), rep) == rep + ReplaceAll(u, Fixed(Lit(w)), rep)
  {
    assert MatchesAt(w + u, Lit(w), 0) by {
      forall k | 0 <= k < |w| ensures (w + u)[k] == w[k] { }
    }
    ReplaceAllMatchPrefix(w, u, Fixed(Lit(w)), rep);
  }

  /** A piece that differs from the literal in its first two characters and
      holds no later copy of the literal's first character passes through. */
  lemma ReplaceAllPassLit(t: string, u: string, w: string, rep: string)
    requires |w| >= 2 && |t| >= 1
    requires t[0] != w[0] || (|t| >= 2 && t[1] != w[1])
    requires forall k :: 1 <= k < |t| ==> t[k] != w[0]
    ensures ReplaceAll(t + u, Fixed(Lit(w)), rep) == t + ReplaceAll(u, Fixed(Lit(w)), rep)
  {
    var p := Lit(w);
    assert p[0] == Exact(w[0]) && p[1] == Exact(w[1]);
    forall i | 0 <= i < |t| ensures MatchLen((t + u)[i..], Fixed(p)) == 0 {
      var x := (t + u)[i..];
      assert x[0] == t[i];
      if i == 0 && |t| >= 2 {
        assert x[1] == t[1];
      }
    }
    ReplaceAllPassPrefix(t, u, Fixed(p), rep);
  }

  /** The defining equation of a global replacement: the text before the
      leftmost match is kept, that match becomes `rep`, and the replacement
      goes on after it. */
  lemma ReplaceAllFirstMatch(s: string, re: Regex, rep: string, k: nat)
    requires ValidRegex(re) && k < |s|
    requires forall i :: 0 <= i < k ==> MatchLen(s[i..], re) == 0
    requires MatchLen(s[k..], re) > 0
    ensures k + MatchLen(s[k..], re) <= |s|
    ensures ReplaceAll(s, re, rep) == s[..k] + rep + ReplaceAll(s[k + MatchLen(s[k..], re)..], re, rep)
  {
    var n := MatchLen(s[k..], re);
    ReplaceAllSplit(s, re, rep, k);
    ReplaceAllAtMatch(s[k..], re, rep);
    assert s[k..][n..] == s[k + n..];
  }

  /** The text before the leftmost match passes through unchanged. */
  lemma ReplaceAllSplit(s: string, re: Regex, rep: string, k: nat)
    requires ValidRegex(re) && k < |s|
    requires forall i :: 0 <= i < k ==> MatchLen(s[i..], re) == 0
    ensures ReplaceAll(s, re, rep) == s[..k] + ReplaceAll(s[k..], re, rep)
  {
    var t, u := s[..k], s[k..];
    assert t + u == s;
    forall i | 0 <= i < |t| ensures MatchLen((t + u)[i..], re) == 0 {
    }
    ReplaceAllPassPrefix(t, u, re, rep);
  }

  /** A match at the start is replaced and the rest is replaced in turn. */
  lemma ReplaceAllAtMatch(u: string, re: Regex, rep: string)
    requires ValidRegex(re) && MatchLen(u, re) > 0
    ensures ReplaceAll(u, re, rep) == rep + ReplaceAll(u[MatchLen(u, re)..], re, rep)
  {
    assert u != [];
  }

  /** A text matches its own case-insensitive pattern at its start. */
  lemma CiAtStart(w: string, u: string)
    ensures MatchesAt(w + u, Ci(w), 0)
  {
    forall k | 0 <= k < |w| ensures AtomMatches(Ci(w)[k], (w + u)[k]) {
      assert (w + u)[k] == w[k];
    }
  }

  /** A string that does not start with `<` starts no match of a regex that
      opens with `<`. */
  lemma NoMatchHere(s: string, re: Regex)
    requires ValidRegex(re) && OpensWithLt(re) && s != [] && s[0] != '<'
    ensures MatchLen(s, re) == 0
  {
    match re
    case Fixed(p) =>
      if MatchesAt(s, p, 0) {
        assert AtomMatches(p[0], s[0]);
        if p[0] == Fold('<') { FoldLt(s[0]); }
      }
    case Block(name) =>
      var open := Ci("<" + name);
      assert open[0] == Fold('<');
      if MatchesAt(s, open, 0) { FoldLt(s[0]); }
    case BrTag =>
      var open := Ci("<br");
      assert open[0] == Fold('<');
      if MatchesAt(s, open, 0) { FoldLt(s[0]); }
    case AnyTag =>
  }

  /** A prefix without `<` passes through a regex that opens with `<`. */
  lemma ReplaceAllPassNoLt(t: string, u: string, re: Regex, rep: string)
    requires ValidRegex(re) && OpensWithLt(re) && '<' !in t
    ensures ReplaceAll(t + u, re, rep) == t + ReplaceAll(u, re, rep)
  {
    forall i | 0 <= i < |t| ensures MatchLen((t + u)[i..], re) == 0 {
      assert (t + u)[i..][0] == t[i];
      NoMatchHere((t + u)[i..], re);
    }
    ReplaceAllPassPrefix(t, u, re, rep);
  }

  /** A string whose only `<` is its first character, where a fixed pattern
      opening with `<` fails at position `j`, is left unchanged. */
  lemma ReplaceAllMissLt(s: string, p: Pattern, rep: string, j: nat)
    requires |p| >= 2 && p[0] == Fold('<') && s != [] && '<' !in s[1..]
    requires 1 <= j < |p| && (j >= |s| || !AtomMatches(p[j], s[j]))
    ensures ReplaceAll(s, Fixed(p), rep) == s
  {
    forall i | 0 <= i < |s| ensures MatchLen(s[i..], Fixed(p)) == 0 {
      if i == 0 {
        assert s[0..] == s;
      } else {
        assert s[i..][0] == s[1..][i - 1];
        NoMatchHere(s[i..], Fixed(p));
      }
    }
  }

  // ---------------------------------------------------------------------
  // indexOf / includes
  // ---------------------------------------------------------------------

  /** Adjacent slices concatenate to the slice they span. */
  lemma SliceSplit<T>(s: seq<T>, a: int, b: int, c: int)
    requires 0 <= a <= b <= c <= |s|
    ensures s[a..c] == s[a..b] + s[b..c]
  {
  }

  predicate OccursAt(s: string, pat: string, k: int) {
    0 <= k && k + |pat| <= |s| && s[k..k + |pat|] == pat
  }

  /** `s.indexOf(pat, from)` for `0 <= from <= |s|`: the first occurrence at
      or after `from`, or -1. */
  function IndexOf(s: string, pat: string, from: nat): (r: int)
    requires from <= |s|
    ensures r == -1 || (from <= r && OccursAt(s, pat, r))
    ensures r == -1 ==> forall k :: from <= k <= |s| ==> !OccursAt(s, pat, k)
    ensures r != -1 ==> forall k :: from <= k < r ==> !OccursAt(s, pat, k)
    decreases |s| - from
  {
    if OccursAt(s, pat, from) then from
    else if from == |s| then -1
    else IndexOf(s, pat, from + 1)
  }

  /** A character that does not occur is not found. */
  lemma IndexOfAbsent(s: string, c: char, from: nat)
    requires from <= |s| && c !in s
    ensures IndexOf(s, [c], from) == -1
  {
    forall k | from <= k <= |s| ensures !OccursAt(s, [c], k) {
      if k < |s| {
        assert s[k..k + 1] == [s[k]];
      }
    }
  }

  /** `s.includes(pat)`. */
  predicate Contains(s: string, pat: string) {
    IndexOf(s, pat, 0) != -1
  }

  lemma ContainsOccurrence(s: string, pat: string)
    ensures Contains(s, pat) <==> exists k :: 0 <= k <= |s| && OccursAt(s, pat, k)
  {
  }

  // ---------------------------------------------------------------------
  // split
  // ---------------------------------------------------------------------

  /** `s.split(c)[0]`: the text before the first `c`, or all of `s`. */
  function BeforeFirst(s: string, c: char): (r: string)
    ensures |r| <= |s| && r == s[..|r|]
    ensures c !in r
    ensures |r| < |s| ==> s[|r|] == c
  {
    if s == [] || s[0] == c then [] else [s[0]] + BeforeFirst(s[1..], c)
  }

  /** The text before the first separator is the first field. */
  lemma BeforeFirstField(a: string, c: char, b: string)
    requires c !in a
    ensures BeforeFirst(a + [c] + b, c) == a
  {
    var s := a + [c] + b;
    var r := BeforeFirst(s, c);
    assert s[|a|] == c;
    assert forall k :: 0 <= k < |a| ==> s[k] == a[k];
    assert s[..|a|] == a;
  }

  predicate AllDigits(s: string) {
    forall i :: 0 <= i < |s| ==> IsDigit(s[i])
  }

  /** Read the first field of `s` up to `_` and what follows the `_`. */
  function NextField(s: string): (string, string) {
    var f := BeforeFirst(s, '_');
    (f, if |f| < |s| then s[|f| + 1..] else [])
  }

  lemma NextFieldOf(f: string, rest: string)
    requires AllDigits(f)
    ensures NextField(f + "_" + rest) == (f, rest)
  {
    assert '_' !in f by {
      forall i | 0 <= i < |f| ensures f[i] != '_' { assert IsDigit(f[i]); }
    }
    BeforeFirstField(f, '_', rest);
    assert (f + "_" + rest)[|f| + 1..] == rest;
  }

  /** `s.split(/\r?\n/)`: pieces between line feeds, each piece that ends
      right before a line feed losing one carriage return. */
  function SplitLines(s: string): (lines: seq<string>)
    ensures |lines| >= 1
    ensures forall k :: 0 <= k < |lines| ==> '\n' !in lines[k]
    decreases |s|
  {
    var i := IndexOf(s, "\n", 0);
    if i == -1 then
      IndexOfMissing(s, '\n');
      [s]
    else
      IndexOfBefore(s, '\n', i);
      var piece := s[..i];
      var line := if |piece| > 0 && piece[|piece| - 1] == '\r' then piece[..|piece| - 1] else piece;
      [line] + SplitLines(s[i + 1..])
  }

  lemma IndexOfMissing(s: string, c: char)
    requires IndexOf(s, [c], 0) == -1
    ensures c !in s
  {
    forall k | 0 <= k < |s| ensures s[k] != c {
      assert !OccursAt(s, [c], k);
      assert s[k..k + 1] == [s[k]];
    }
  }

  lemma IndexOfBefore(s: string, c: char, i: int)
    requires IndexOf(s, [c], 0) == i != -1
    ensures c !in s[..i] && s[i] == c
  {
    forall k | 0 <= k < i ensures s[k] != c {
      assert !OccursAt(s, [c], k);
      assert s[k..k + 1] == [s[k]];
    }
    assert s[i..i + 1] == [c];
  }

  /** A text without carriage returns is its lines joined by line feeds. */
  lemma {:induction false} SplitLinesJoin(s: string)
    requires '\r' !in s
    ensures Join(SplitLines(s), "\n") == s
    decreases |s|
  {
    var i := IndexOf(s, "\n", 0);
    if i != -1 {
      var rest := s[i + 1..];
      SplitLinesFirst(s, i);
      SplitLinesJoin(rest);
      JoinCons(s[..i], SplitLines(rest), "\n");
    }
  }

  /** Lines without line feeds, none ending in a carriage return, joined
      by CRLF line ends, split back into the same lines. */
  lemma {:induction false} SplitLinesJoinCrlf(ls: seq<string>)
    requires |ls| >= 1
    requires forall k :: 0 <= k < |ls| ==> '\n' !in ls[k] && (ls[k] == [] || ls[k][|ls[k]| - 1] != '\r')
    ensures SplitLines(Join(ls, "\r\n")) == ls
    decreases |ls|
  {
    if |ls| == 1 {
      IndexOfAbsent(ls[0], '\n', 0);
    } else {
      var rest := Join(ls[1..], "\r\n");
      CrlfLineFirst(ls[0], rest);
      SplitLinesJoinCrlf(ls[1..]);
    }
  }

  /** A line ended by CRLF is the first line, and the rest follows it. */
  lemma CrlfLineFirst(a: string, rest: string)
    requires '\n' !in a && (a == [] || a[|a| - 1] != '\r')
    ensures SplitLines(a + "\r\n" + rest) == [a] + SplitLines(rest)
  {
    var s := a + "\r\n" + rest;
    var i := |a| + 1;
    assert OccursAt(s, "\n", i) by { assert s[i..i + 1] == "\n"; }
    forall k | 0 <= k < i ensures !OccursAt(s, "\n", k) {
      assert s[k..k + 1] == [s[k]];
      if k < |a| { assert s[k] == a[k]; }
    }
    assert IndexOf(s, "\n", 0) == i by {
      var r := IndexOf(s, "\n", 0);
      assert r != -1;
    }
    assert s[..i] == a + "\r";
    assert s[i + 1..] == rest;
  }

  /** Without carriage returns the first line is the text before the first
      line feed, and the rest follows that line feed. */
  lemma SplitLinesFirst(s: string, i: int)
    requires '\r' !in s && IndexOf(s, "\n", 0) == i != -1
    ensures SplitLines(s) == [s[..i]] + SplitLines(s[i + 1..])
    ensures s == s[..i] + "\n" + s[i + 1..] && '\r' !in s[i + 1..]
  {
    IndexOfBefore(s, '\n', i);
    if |s[..i]| > 0 {
      assert s[..i][|s[..i]| - 1] == s[i - 1];
    }
    AroundIndex(s, i);
    var rest := s[i + 1..];
    forall k | 0 <= k < |rest| ensures rest[k] != '\r' {
      assert rest[k] == s[i + 1 + k];
    }
  }

  /** A sequence is what comes before index `i`, the element there and
      what follows. */
  lemma AroundIndex<T>(s: seq<T>, i: int)
    requires 0 <= i < |s|
    ensures s == s[..i] + [s[i]] + s[i + 1..]
  {
  }

  lemma JoinCons(a: string, xs: seq<string>, sep: string)
    requires xs != []
    ensures Join([a] + xs, sep) == a + sep + Join(xs, sep)
  {
    assert ([a] + xs)[1..] == xs;
  }

  /** `lines.join(sep)`. */
  function Join(xs: seq<string>, sep: string): (r: string)
    ensures |xs| == 1 ==> r == xs[0]
    ensures xs == [] ==> r == ""
  {
    if xs == [] then ""
    else if |xs| == 1 then xs[0]
    else xs[0] + sep + Join(xs[1..], sep)
  }

  // ---------------------------------------------------------------------
  // Numbers
  // ---------------------------------------------------------------------

  function DigitChar(d: nat): (c: char)
    requires d < 10
    ensures IsDigit(c)
  {
    ('0' as int + d) as char
  }

  function DigitValue(c: char): (d: nat)
    requires IsDigit(c)
    ensures d < 10 && DigitChar(d) == c
  {
    c as int - '0' as int
  }

  /** `String(n)` for a natural number: its decimal digits. */
  function NatToString(n: nat): (r: string)
    ensures 1 <= |r|
    ensures forall i :: 0 <= i < |r| ==> IsDigit(r[i])
    ensures n < 10 <==> |r| == 1
    ensures n >= 10 ==> r[0] != '0'
    decreases n
  {
    if n < 10 then [DigitChar(n)] else NatToString(n / 10) + [DigitChar(n % 10)]
  }

  /** The value of a run of decimal digits. */
  function ParseNat(s: string): nat
    requires forall i :: 0 <= i < |s| ==> IsDigit(s[i])
  {
    if s == [] then 0 else ParseNat(s[..|s| - 1]) * 10 + DigitValue(s[|s| - 1])
  }

  lemma {:induction false} ParseNatToString(n: nat)
    ensures ParseNat(NatToString(n)) == n
    decreases n
  {
    var r := NatToString(n);
    if n >= 10 {
      assert r[..|r| - 1] == NatToString(n / 10);
      ParseNatToString(n / 10);
    }
  }

  /** `s.padStart(width, '0')`. */
  function PadZeros(s: string, width: nat): (r: string)
    ensures |r| == if |s| >= width then |s| else width
    ensures r[|r| - |s|..] == s
    ensures forall i :: 0 <= i < |r| - |s| ==> r[i] == '0'
  {
    if |s| >= width then s else seq(width - |s|, _ => '0') + s
  }

  /** Leading zeros do not change the value of a digit run. */
  lemma {:induction false} ParseNatLeadingZeros(z: string, s: string)
    requires forall i :: 0 <= i < |z| ==> z[i] == '0'
    requires forall i :: 0 <= i < |s| ==> IsDigit(s[i])
    ensures ParseNat(z + s) == ParseNat(s)
    decreases |s|
  {
    if s == [] {
      assert z + s == z;
      ParseNatZeros(z);
    } else {
      assert (z + s)[..|z + s| - 1] == z + s[..|s| - 1];
      ParseNatLeadingZeros(z, s[..|s| - 1]);
    }
  }

  lemma {:induction false} ParseNatZeros(z: string)
    requires forall i :: 0 <= i < |z| ==> z[i] == '0'
    ensures ParseNat(z) == 0
    decreases |z|
  {
    if z != [] {
      ParseNatZeros(z[..|z| - 1]);
    }
  }

  /** Padding with zeros keeps the value and gives at least `width` digits. */
  lemma PadZerosValue(n: nat, width: nat)
    ensures var r := PadZeros(NatToString(n), width);
      && |r| >= width
      && (forall i :: 0 <= i < |r| ==> IsDigit(r[i]))
      && ParseNat(r) == n
  {
    var s := NatToString(n);
    var r := PadZeros(s, width);
    ParseNatToString(n);
    PaddedValue(s, width);
  }

  lemma PaddedValue(s: string, width: nat)
    requires AllDigits(s)
    ensures var r := PadZeros(s, width); |r| >= width && AllDigits(r) && ParseNat(r) == ParseNat(s)
  {
    var r := PadZeros(s, width);
    if |s| < width {
      var z := r[..|r| - |s|];
      assert r == z + s;
      ParseNatLeadingZeros(z, s);
    }
  }
}
