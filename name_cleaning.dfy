/**
 * The underscore clean-up shared by `cleanEmailForFilename`
 * (src/pdfGenerator.js) and `sanitizeFilename`
 * (src/attachmentProcessor.js): runs of `_` collapse to one, then one
 * leading and one trailing `_` are dropped.
 */
module NameCleaning {
  import opened JsText

  /** The characters both cleaners replace: `<>:"/\|?*`. */
  const Reserved: string := "<>:\"/\\|?*"

  /** No two consecutive `_`. */
  predicate NoDoubleUnderscore(s: string) {
    forall i :: 0 <= i < |s| - 1 ==> !(s[i] == '_' && s[i + 1] == '_')
  }

  /** Neither the first nor the last character is `_`. */
  predicate NoEdgeUnderscore(s: string) {
    s == [] || (s[0] != '_' && s[|s| - 1] != '_')
  }

  /** `s.replace(/_{2,}/g, '_')`. */
  function CollapseUnderscores(s: string): (r: string)
    ensures forall c :: c in r ==> c in s || c == '_'
    ensures NoDoubleUnderscore(s) ==> r == s
  {
    NoDoubleNoMatch(s);
    ReplaceAll(s, Underscores, "_")
  }

  lemma NoDoubleNoMatch(s: string)
    ensures NoDoubleUnderscore(s) ==> NoMatch(s, Underscores)
  {
    forall i | 0 <= i < |s| && NoDoubleUnderscore(s) ensures MatchLen(s[i..], Underscores) == 0 {
      var t := s[i..];
      if |t| >= 2 {
        assert t[0] == s[i] && t[1] == s[i + 1];
      }
    }
  }

  /** What collapsing `s` into `r` guarantees: no `__` is left, and the
      result starts with `_` exactly when the input does. */
  predicate Collapsed(s: string, r: string) {
    && NoDoubleUnderscore(r)
    && (r == [] <==> s == [])
    && (r != [] ==> (r[0] == '_' <==> s[0] == '_'))
  }

  lemma {:induction false} CollapseFacts(s: string)
    ensures Collapsed(s, ReplaceAll(s, Underscores, "_"))
    decreases |s|
  {
    if s != [] {
      var n := MatchLen(s, Underscores);
      if n > 0 {
        CollapseFacts(s[n..]);
        CollapseRunStep(s);
      } else {
        CollapseFacts(s[1..]);
        CollapseKeepStep(s);
      }
    }
  }

  /** A run of two or more `_` becomes one, and what follows the run does
      not start with `_`. */
  lemma CollapseRunStep(s: string)
    requires s != [] && MatchLen(s, Underscores) > 0
    requires var n := MatchLen(s, Underscores); Collapsed(s[n..], ReplaceAll(s[n..], Underscores, "_"))
    ensures Collapsed(s, ReplaceAll(s, Underscores, "_"))
  {
    var n := MatchLen(s, Underscores);
    var j := SkipUnderscores(s, 0);
    MatchLenUnderscores(s);
    var r := ReplaceAll(s, Underscores, "_");
    var rest := ReplaceAll(s[n..], Underscores, "_");
    assert r == "_" + rest;
    assert rest != [] ==> rest[0] != '_' by {
      if rest != [] { assert s[n..][0] == s[j]; }
    }
    forall i | 0 <= i < |r| - 1 ensures !(r[i] == '_' && r[i + 1] == '_') {
      if i > 0 { assert r[i] == rest[i - 1] && r[i + 1] == rest[i]; }
    }
  }

  /** A character that starts no run is kept; a lone `_` is followed by a
      character other than `_`. */
  lemma CollapseKeepStep(s: string)
    requires s != [] && MatchLen(s, Underscores) == 0
    requires Collapsed(s[1..], ReplaceAll(s[1..], Underscores, "_"))
    ensures Collapsed(s, ReplaceAll(s, Underscores, "_"))
  {
    var r := ReplaceAll(s, Underscores, "_");
    var rest := ReplaceAll(s[1..], Underscores, "_");
    assert r == [s[0]] + rest;
    if |s| >= 2 {
      assert s[1..][0] == s[1];
    }
    forall i | 0 <= i < |r| - 1 ensures !(r[i] == '_' && r[i + 1] == '_') {
      if i > 0 { assert r[i] == rest[i - 1] && r[i + 1] == rest[i]; }
    }
  }

  /** `s.replace(/^_|_$/g, '')`: the leading alternative is tried first, and
      a trailing `_` is removed only when it is not the one just removed. */
  function TrimEdgeUnderscores(s: string): (r: string)
    ensures |r| <= |s|
    ensures LeadCut(s) + |r| <= |s| && r == s[LeadCut(s)..LeadCut(s) + |r|]
    ensures |r| >= |s| - LeadCut(s) - 1
    ensures |r| < |s| - LeadCut(s) <==> |s| > LeadCut(s) && s[|s| - 1] == '_'
  {
    var t := if s != [] && s[0] == '_' then s[1..] else s;
    var r := if t != [] && t[|t| - 1] == '_' then t[..|t| - 1] else t;
    var a := LeadCut(s);
    assert r == s[a..a + |r|];
    r
  }

  /** How many characters `^_` removes. */
  function LeadCut(s: string): (a: nat)
    ensures a <= |s|
  {
    if s != [] && s[0] == '_' then 1 else 0
  }

  /** The cleaned string is a slice of its input with no edge `_`, and
      without `__` when the input had none. */
  lemma TrimEdgeFacts(s: string)
    requires NoDoubleUnderscore(s)
    ensures var r := TrimEdgeUnderscores(s);
      NoDoubleUnderscore(r) && NoEdgeUnderscore(r)
  {
    var r := TrimEdgeUnderscores(s);
    var a := LeadCut(s);
    forall i | 0 <= i < |r| - 1 ensures !(r[i] == '_' && r[i + 1] == '_') {
      assert r[i] == s[a + i] && r[i + 1] == s[a + i + 1];
    }
    if r != [] {
      if a == 1 {
        assert r[0] == s[1];
      }
    }
  }

  /** Collapsing and edge trimming, the last two steps of both cleaners. */
  function CleanUnderscores(s: string): (r: string)
    ensures NoDoubleUnderscore(r) && NoEdgeUnderscore(r)
    ensures forall c :: c in r ==> c in s || c == '_'
  {
    var c := CollapseUnderscores(s);
    CollapseFacts(s);
    TrimEdgeFacts(c);
    var r := TrimEdgeUnderscores(c);
    assert forall x :: x in r ==> x in c;
    r
  }

  /** Collapsing and trimming `_` brings in no reserved or white-space
      character. */
  lemma CleanUnderscoresSafe(s: string)
    requires forall c :: c in s ==> c !in Reserved && !IsSpace(c)
    ensures FileSafe(CleanUnderscores(s))
  {
    var r := CleanUnderscores(s);
    ReservedChars('_');
    forall i | 0 <= i < |r| ensures r[i] !in Reserved && !IsSpace(r[i]) {
      assert r[i] in r;
    }
  }

  /** A string with no `_` at all passes unchanged. */
  lemma CleanWithoutUnderscore(s: string)
    requires '_' !in s
    ensures CleanUnderscores(s) == s
  {
    assert NoDoubleUnderscore(s);
  }

  /** No character a file name may not hold: none of `<>:"/\|?*` and no
      white space. */
  predicate FileSafe(s: string) {
    forall i :: 0 <= i < |s| ==> s[i] !in Reserved && !IsSpace(s[i])
  }

  /** The reserved characters, one by one. */
  lemma ReservedChars(c: char)
    ensures c in Reserved <==> (c == '<' || c == '>' || c == ':' || c == '"' || c == '/' || c == '\\'
      || c == '|' || c == '?' || c == '*')
  {
    if c in Reserved {
      var k :| 0 <= k < |Reserved| && Reserved[k] == c;
      assert k < 9;
    } else {
      assert Reserved[0] == '<' && Reserved[1] == '>' && Reserved[2] == ':' && Reserved[3] == '"';
      assert Reserved[4] == '/' && Reserved[5] == '\\' && Reserved[6] == '|' && Reserved[7] == '?' && Reserved[8] == '*';
    }
  }

  /** A name of letters, digits, `_`, `-` and `.` is safe. */
  lemma PlainFileSafe(s: string)
    requires forall i :: 0 <= i < |s| ==> IsWordChar(s[i]) || s[i] == '-' || s[i] == '.'
    ensures FileSafe(s)
  {
    forall i | 0 <= i < |s| ensures s[i] !in Reserved && !IsSpace(s[i]) {
      ReservedChars(s[i]);
    }
  }

  lemma FileSafeConcat(a: string, b: string)
    requires FileSafe(a) && FileSafe(b)
    ensures FileSafe(a + b)
  {
    forall i | 0 <= i < |a + b| ensures (a + b)[i] !in Reserved && !IsSpace((a + b)[i]) {
      if i >= |a| { assert (a + b)[i] == b[i - |a|]; }
    }
  }
}
