/**
 * The output file name convert.js derives for an email:
 * `<year>_<MM>_<DD>_<hh>_<mm>_<ss>_<sender>_to_<receiver>.pdf`, the date
 * read from the message (the clock and time zone are inputs here) and
 * the two tokens from the first sender and the first recipient.
 */
module OutputFilename {
  import opened Wrappers
  import opened JsText

  /** The characters `sanitizeFilename` keeps, in lower case. */
  predicate IsKept(c: char) {
    IsAsciiLower(c) || IsDigit(c) || c == '_' || c == '-'
  }

  /** `[^a-z0-9_-]` with the `i` flag. */
  const Unsafe: Atom := NoneOfRanges([('a', 'z'), ('0', '9'), ('_', '_'), ('-', '-')])

  lemma UnsafeChars(c: char)
    ensures AtomMatches(Unsafe, c) <==> !IsKept(AsciiLower(c))
  {
    var rs := Unsafe.rs;
    var l := AsciiLower(c);
    assert rs[0] == ('a', 'z') && rs[1] == ('0', '9') && rs[2] == ('_', '_') && rs[3] == ('-', '-');
    if IsKept(l) {
      var k := if IsAsciiLower(l) then 0 else if IsDigit(l) then 1 else if l == '_' then 2 else 3;
      assert rs[k].0 <= l <= rs[k].1;
    } else {
      forall k | 0 <= k < |rs| ensures !(rs[k].0 <= l <= rs[k].1) {
        assert k == 0 || k == 1 || k == 2 || k == 3;
      }
    }
  }

  /** `str.replace(/[^a-z0-9_-]/gi, '_').toLowerCase()`. The regex has no
      `u` flag, so it replaces each code unit: a character outside the
      Basic Multilingual Plane becomes two `_`. */
  function SanitizeFilename(str: string): (r: string)
    ensures |r| == Utf16Length(str)
    ensures forall i :: 0 <= i < |r| ==> IsKept(r[i])
    ensures forall i :: 0 <= i < |r| ==>
      r[i] == if IsKept(AsciiLower(RegexUnits(str)[i])) then AsciiLower(RegexUnits(str)[i]) else '_'
  {
    var units := RegexUnits(str);
    var replaced := ReplaceAll(units, Fixed([Unsafe]), "_");
    ReplaceEachChar(units, Unsafe, '_');
    assert forall i :: 0 <= i < |units| ==> (AtomMatches(Unsafe, units[i]) <==> !IsKept(AsciiLower(units[i]))) by {
      forall i | 0 <= i < |units| ensures AtomMatches(Unsafe, units[i]) <==> !IsKept(AsciiLower(units[i])) {
        UnsafeChars(units[i]);
      }
    }
    AsciiLowerString(replaced)
  }

  /** Without characters outside the Basic Multilingual Plane, each
      character is kept in lower case or becomes one `_`. */
  lemma SanitizeBmp(str: string)
    requires forall i :: 0 <= i < |str| ==> !Astral(str[i])
    ensures |SanitizeFilename(str)| == |str|
    ensures forall i :: 0 <= i < |str| ==>
      SanitizeFilename(str)[i] == if IsKept(AsciiLower(str[i])) then AsciiLower(str[i]) else '_'
  {
    RegexUnitsBmp(str);
  }

  /** A character outside the Basic Multilingual Plane, such as an emoji,
      becomes two `_`, one per code unit. */
  lemma SanitizeAstral(c: char)
    requires Astral(c)
    ensures SanitizeFilename([c]) == "__"
  {
    assert RegexUnits([c]) == "\U{FFFD}\U{FFFD}" + RegexUnits([]);
    assert !IsKept(AsciiLower('\U{FFFD}'));
  }

  /** One entry of a parsed address list; an absent name or address is "". */
  datatype Address = Address(name: string, address: string)

  /** The token for the first entry of an address list: its sanitized name,
      else the sanitized text before its first `@`, else `unknown`. */
  function Token(entries: Option<seq<Address>>, unknown: string): string
  {
    if entries.Some? && |entries.value| > 0 then
      var a := entries.value[0];
      if a.name != "" then SanitizeFilename(a.name)
      else if a.address != "" then SanitizeFilename(BeforeFirst(a.address, '@'))
      else unknown
    else unknown
  }

  /** The date parts the name is built from, as the local-time getters
      return them (`getMonth() + 1` for the month). */
  datatype DateTime = DateTime(year: nat, month: nat, day: nat, hours: nat, minutes: nat, seconds: nat)

  /** `String(n).padStart(2, '0')`. */
  function Pad2(n: nat): string {
    PadZeros(NatToString(n), 2)
  }

  /** The part after the date: both tokens and the extension. */
  function TokensPart(from: Option<seq<Address>>, to: Option<seq<Address>>): string {
    Token(from, "unknown_sender") + "_to_" + Token(to, "unknown_receiver") + ".pdf"
  }

  /** The name `generateOutputFilename` builds. */
  function OutputFilename(d: DateTime, from: Option<seq<Address>>, to: Option<seq<Address>>): string {
    NatToString(d.year) + "_" + (Pad2(d.month) + "_" + (Pad2(d.day) + "_" + (
    Pad2(d.hours) + "_" + (Pad2(d.minutes) + "_" + (Pad2(d.seconds) + "_" + TokensPart(from, to))))))
  }

  // ---------------------------------------------------------------------
  // Properties
  // ---------------------------------------------------------------------

  /** A padded field is at least two digits with the part's value. */
  lemma Pad2Value(n: nat)
    ensures AllDigits(Pad2(n)) && |Pad2(n)| >= 2 && ParseNat(Pad2(n)) == n
  {
    PadZerosValue(n, 2);
  }

  /** Read the six leading date fields of a file name back as a date. */
  function ReadStamp(s: string): Option<DateTime> {
    var (y, s1) := NextField(s);
    var (mo, s2) := NextField(s1);
    var (dd, s3) := NextField(s2);
    var (hh, s4) := NextField(s3);
    var (mi, s5) := NextField(s4);
    var (ss, _) := NextField(s5);
    if AllDigits(y) && AllDigits(mo) && AllDigits(dd) && AllDigits(hh) && AllDigits(mi) && AllDigits(ss) then
      Some(DateTime(ParseNat(y), ParseNat(mo), ParseNat(dd), ParseNat(hh), ParseNat(mi), ParseNat(ss)))
    else None
  }

  /** The date can be read back from the file name, each field with at
      least two digits but the year: no field overflows into the next,
      whatever the tokens hold. */
  lemma ReadStampOutputFilename(d: DateTime, from: Option<seq<Address>>, to: Option<seq<Address>>)
    ensures ReadStamp(OutputFilename(d, from, to)) == Some(d)
    ensures forall n :: n in [d.month, d.day, d.hours, d.minutes, d.seconds] ==> |Pad2(n)| >= 2
  {
    var y := NatToString(d.year);
    ParseNatToString(d.year);
    Pad2Value(d.month);
    Pad2Value(d.day);
    Pad2Value(d.hours);
    Pad2Value(d.minutes);
    Pad2Value(d.seconds);
    var tail := TokensPart(from, to);
    var r5 := Pad2(d.seconds) + "_" + tail;
    var r4 := Pad2(d.minutes) + "_" + r5;
    var r3 := Pad2(d.hours) + "_" + r4;
    var r2 := Pad2(d.day) + "_" + r3;
    var r1 := Pad2(d.month) + "_" + r2;
    var r0 := y + "_" + r1;
    assert OutputFilename(d, from, to) == r0;
    NextFieldOf(y, r1);
    NextFieldOf(Pad2(d.month), r2);
    NextFieldOf(Pad2(d.day), r3);
    NextFieldOf(Pad2(d.hours), r4);
    NextFieldOf(Pad2(d.minutes), r5);
    NextFieldOf(Pad2(d.seconds), tail);
  }

  /** Only characters a file name may hold on every platform. */
  predicate PortableName(s: string) {
    forall i :: 0 <= i < |s| ==> IsKept(s[i]) || s[i] == '.'
  }

  /** Only `[a-z0-9_-]`: what the sanitizer keeps. */
  predicate KeptOnly(s: string) {
    forall i :: 0 <= i < |s| ==> IsKept(s[i])
  }

  lemma KeptConcat(a: string, b: string)
    requires KeptOnly(a) && KeptOnly(b)
    ensures KeptOnly(a + b)
  {
    forall i | 0 <= i < |a + b| ensures IsKept((a + b)[i]) {
      if i >= |a| { assert (a + b)[i] == b[i - |a|]; }
    }
  }

  /** `[a-z0-9_-]*` followed by `.pdf`. */
  predicate PortablePdf(s: string) {
    |s| >= 4 && s[|s| - 4..] == ".pdf" && KeptOnly(s[..|s| - 4])
  }

  /** Such a name is portable as a whole. */
  lemma PdfPortable(s: string)
    requires PortablePdf(s)
    ensures PortableName(s)
  {
    var k := |s| - 4;
    forall i | 0 <= i < |s| ensures IsKept(s[i]) || s[i] == '.' {
      if i < k { assert s[i] == s[..k][i]; } else { assert s[i] == s[k..][i - k]; }
    }
  }

  /** Prefixing a digit field and `_` keeps a portable name and its ending. */
  lemma PortableField(f: string, n: string)
    requires AllDigits(f) && PortablePdf(n)
    ensures PortablePdf(f + "_" + n)
  {
    var r := f + "_" + n;
    assert KeptOnly(f + "_");
    KeptConcat(f + "_", n[..|n| - 4]);
    assert r[..|r| - 4] == (f + "_") + n[..|n| - 4];
    assert r[|r| - 4..] == n[|n| - 4..];
  }

  /** The same for a two-digit date field. */
  lemma PaddedField(k: nat, n: string)
    requires PortablePdf(n)
    ensures PortablePdf(Pad2(k) + "_" + n)
  {
    Pad2Value(k);
    PortableField(Pad2(k), n);
  }

  /** A token holds only `[a-z0-9_-]`: a sanitized name, or the fallback. */
  lemma PortableToken(entries: Option<seq<Address>>, unknown: string)
    requires KeptOnly(unknown)
    ensures KeptOnly(Token(entries, unknown))
  {
  }

  lemma FallbacksKept()
    ensures KeptOnly("unknown_sender") && KeptOnly("unknown_receiver") && KeptOnly("_to_")
  {
  }

  lemma PortableTokensPart(from: Option<seq<Address>>, to: Option<seq<Address>>)
    ensures PortablePdf(TokensPart(from, to))
  {
    var mid, ext := "_to_", ".pdf";
    FallbacksKept();
    PortableToken(from, "unknown_sender");
    PortableToken(to, "unknown_receiver");
    var s := Token(from, "unknown_sender");
    var t := Token(to, "unknown_receiver");
    KeptConcat(s, mid);
    KeptConcat(s + mid, t);
    var n := s + mid + t + ext;
    assert n[..|n| - 4] == s + mid + t;
    assert n[|n| - 4..] == ext;
  }

  /** The file name is `[a-z0-9_-]*` followed by `.pdf`: every character
      before the extension is a lower-case ASCII letter, a digit, `_` or
      `-`. */
  lemma OutputFilenameChars(d: DateTime, from: Option<seq<Address>>, to: Option<seq<Address>>)
    ensures PortableName(OutputFilename(d, from, to))
    ensures var n := OutputFilename(d, from, to); |n| >= 4 && n[|n| - 4..] == ".pdf" && KeptOnly(n[..|n| - 4])
  {
    var n0 := TokensPart(from, to);
    PortableTokensPart(from, to);
    PaddedField(d.seconds, n0);
    var n1 := Pad2(d.seconds) + "_" + n0;
    PaddedField(d.minutes, n1);
    var n2 := Pad2(d.minutes) + "_" + n1;
    PaddedField(d.hours, n2);
    var n3 := Pad2(d.hours) + "_" + n2;
    PaddedField(d.day, n3);
    var n4 := Pad2(d.day) + "_" + n3;
    PaddedField(d.month, n4);
    var n5 := Pad2(d.month) + "_" + n4;
    ParseNatToString(d.year);
    PortableField(NatToString(d.year), n5);
    assert NatToString(d.year) + "_" + n5 == OutputFilename(d, from, to);
    PdfPortable(OutputFilename(d, from, to));
  }

  /** The token is empty only when the entry has no name and its address
      starts with `@`. */
  lemma TokenEmpty(entries: Option<seq<Address>>, unknown: string)
    requires unknown != ""
    ensures Token(entries, unknown) == "" <==>
      entries.Some? && |entries.value| > 0 && entries.value[0].name == "" &&
      entries.value[0].address != "" && entries.value[0].address[0] == '@'
  {
    if entries.Some? && |entries.value| > 0 {
      var a := entries.value[0];
      if a.name == "" && a.address != "" {
        assert BeforeFirst(a.address, '@') == "" <==> a.address[0] == '@';
      }
    }
  }
}
