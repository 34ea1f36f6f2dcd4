/**
 The string operations the XML writers and readers are made of: first occurrence,
 single-character replacement, escaping, and value extraction between tags.
 */
module Text {
  import opened Wrappers

  /** Position of the first occurrence of `pat`. */
  function Find(s: string, pat: string): (r: Option<nat>)
    ensures r.Some? ==> r.value + |pat| <= |s|
  {
    if pat <= s then Some(0)
    else if s == "" then None
    else
      var r := Find(s[1..], pat);
      if r.Some? then Some(r.value + 1) else None
  }

  function Shift(n: nat, r: Option<nat>): Option<nat> {
    if r.Some? then Some(n + r.value) else None
  }

  /** What `Find` finds: the pattern is there, and nowhere earlier. */
  lemma {:induction false} FindSpec(s: string, pat: string)
    ensures var r := Find(s, pat);
            && (r.Some? ==> pat <= s[r.value..] && forall i :: 0 <= i < r.value ==> !(pat <= s[i..]))
            && (r.None? ==> forall i :: 0 <= i <= |s| ==> !(pat <= s[i..]))
  {
    assert s[0..] == s;
    if !(pat <= s) && s != "" {
      FindSpec(s[1..], pat);
      assert forall i :: 1 <= i <= |s| ==> s[i..] == s[1..][i - 1..];
    }
  }

  lemma Associate(a: string, b: string, c: string)
    ensures (a + b) + c == a + (b + c)
  {
  }

  lemma TailOfSum(a: string, b: string)
    requires a != ""
    ensures (a + b)[0] == a[0] && (a + b)[1..] == a[1..] + b
  {
  }

  predicate Free(s: string, c: char) { forall i :: 0 <= i < |s| ==> s[i] != c }

  lemma FindHere(pat: string, rest: string)
    ensures Find(pat + rest, pat) == Some(0)
  {
  }

  /** A stretch without the pattern's first character cannot start an occurrence. */
  lemma {:induction false} FindPast(a: string, b: string, pat: string)
    requires pat != "" && Free(a, pat[0])
    ensures Find(a + b, pat) == Shift(|a|, Find(b, pat))
  {
    if a == "" {
      assert a + b == b;
    } else {
      var s := a + b;
      TailOfSum(a, b);
      assert !(pat <= s) by { assert pat[0] != s[0]; }
      FindPast(a[1..], b, pat);
    }
  }

  /** The strings differ at a position both have. */
  ghost predicate Differs(a: string, b: string) {
    exists k :: 0 <= k < |a| && k < |b| && a[k] != b[k]
  }

  lemma DiffersNotPrefix(a: string, b: string, rest: string)
    requires Differs(a, b)
    ensures !(b <= a + rest)
  {
    var k :| 0 <= k < |a| && k < |b| && a[k] != b[k];
    assert (a + rest)[k] != b[k];
  }

  lemma NoStraddle(a: string, b: string, pat: string)
    requires b != "" ==> b[0] !in pat
    ensures pat <= a + b <==> pat <= a || (a == "" && pat <= b)
  {
    var s := a + b;
    if a == "" {
      assert s == b;
    } else if |pat| <= |a| {
      assert s[..|pat|] == a[..|pat|];
    } else if b != "" {
      assert s[|a|] == b[0] && pat[|a|] in pat;
    }
  }

  /** Where no occurrence can straddle the seam, search one part after the other. */
  lemma {:induction false} FindSplit(a: string, b: string, pat: string)
    requires pat != "" && (b != "" ==> b[0] !in pat)
    ensures Find(a + b, pat) == if Find(a, pat).Some? then Find(a, pat) else Shift(|a|, Find(b, pat))
  {
    NoStraddle(a, b, pat);
    if a == "" {
      assert a + b == b;
    } else {
      TailOfSum(a, b);
      FindSplit(a[1..], b, pat);
    }
  }

  // -------------------------------------------------------------------- escaping

  /** `str::replace` of one character. */
  function Replace(s: string, c: char, t: string): string {
    if s == "" then "" else (if s[0] == c then t else [s[0]]) + Replace(s[1..], c, t)
  }

  /** Five replacements in a row, the ampersand first. */
  function XmlEscape(s: string): string {
    Replace(Replace(Replace(Replace(Replace(s, '&', "&amp;"), '<', "&lt;"), '>', "&gt;"), '\"', "&quot;"), '\'', "&apos;")
  }

  function Entity(c: char): (r: string)
    ensures |r| > 0
  {
    if c == '&' then "&amp;"
    else if c == '<' then "&lt;"
    else if c == '>' then "&gt;"
    else if c == '\"' then "&quot;"
    else if c == '\'' then "&apos;"
    else [c]
  }

  /** The one-pass form: each character on its own. */
  function EscapeEach(s: string): string {
    if s == "" then "" else Entity(s[0]) + EscapeEach(s[1..])
  }

  lemma {:induction false} ReplaceAppend(a: string, b: string, c: char, t: string)
    ensures Replace(a + b, c, t) == Replace(a, c, t) + Replace(b, c, t)
  {
    if a == "" {
      assert a + b == b;
    } else {
      TailOfSum(a, b);
      ReplaceAppend(a[1..], b, c, t);
    }
  }

  lemma {:induction false} ReplaceNothing(a: string, c: char, t: string)
    requires Free(a, c)
    ensures Replace(a, c, t) == a
  {
    if a == "" {
    } else {
      ReplaceNothing(a[1..], c, t);
    }
  }

  lemma ReplaceOne(c: char, d: char, t: string)
    ensures Replace([d], c, t) == if d == c then t else [d]
  {
    assert [d][1..] == "";
  }

  lemma XmlEscapeAppend(a: string, b: string)
    ensures XmlEscape(a + b) == XmlEscape(a) + XmlEscape(b)
  {
    var a1, b1 := Replace(a, '&', "&amp;"), Replace(b, '&', "&amp;");
    var a2, b2 := Replace(a1, '<', "&lt;"), Replace(b1, '<', "&lt;");
    var a3, b3 := Replace(a2, '>', "&gt;"), Replace(b2, '>', "&gt;");
    var a4, b4 := Replace(a3, '\"', "&quot;"), Replace(b3, '\"', "&quot;");
    ReplaceAppend(a, b, '&', "&amp;");
    ReplaceAppend(a1, b1, '<', "&lt;");
    ReplaceAppend(a2, b2, '>', "&gt;");
    ReplaceAppend(a3, b3, '\"', "&quot;");
    ReplaceAppend(a4, b4, '\'', "&apos;");
  }

  /** The replacements after the ampersand's leave a string without their characters alone. */
  lemma NothingToEscape(s: string)
    requires Free(s, '<') && Free(s, '>') && Free(s, '\"') && Free(s, '\'')
    ensures Replace(Replace(Replace(Replace(s, '<', "&lt;"), '>', "&gt;"), '\"', "&quot;"), '\'', "&apos;") == s
  {
    ReplaceNothing(s, '<', "&lt;");
    ReplaceNothing(s, '>', "&gt;");
    ReplaceNothing(s, '\"', "&quot;");
    ReplaceNothing(s, '\'', "&apos;");
  }

  lemma AngleOne(c: char)
    requires c == '<' || c == '>'
    ensures XmlEscape([c]) == Entity(c)
  {
    ReplaceOne('&', c, "&amp;");
    ReplaceOne('<', c, "&lt;");
    ReplaceOne('>', c, "&gt;");
    if c == '<' {
      ReplaceNothing("&lt;", '>', "&gt;");
    }
    ReplaceNothing(Entity(c), '\"', "&quot;");
    ReplaceNothing(Entity(c), '\'', "&apos;");
  }

  lemma QuoteOne(c: char)
    requires c == '\"' || c == '\''
    ensures XmlEscape([c]) == Entity(c)
  {
    ReplaceOne('&', c, "&amp;");
    ReplaceOne('<', c, "&lt;");
    ReplaceOne('>', c, "&gt;");
    ReplaceOne('\"', c, "&quot;");
    if c == '\"' {
      ReplaceNothing("&quot;", '\'', "&apos;");
    } else {
      ReplaceOne('\'', c, "&apos;");
    }
  }

  lemma XmlEscapeOne(c: char)
    ensures XmlEscape([c]) == Entity(c)
  {
    if c == '<' || c == '>' {
      AngleOne(c);
    } else if c == '\"' || c == '\'' {
      QuoteOne(c);
    } else {
      ReplaceOne('&', c, "&amp;");
      NothingToEscape(Entity(c));
    }
  }

  /** The chained replacements never touch what an earlier one wrote. */
  lemma {:induction false} XmlEscapeIsOnePass(s: string)
    ensures XmlEscape(s) == EscapeEach(s)
  {
    if s == "" {
    } else {
      assert s == [s[0]] + s[1..];
      XmlEscapeAppend([s[0]], s[1..]);
      XmlEscapeOne(s[0]);
      XmlEscapeIsOnePass(s[1..]);
    }
  }

  /** Decode the five predefined entities (XML 1.0, section 4.6). */
  function Unescape(s: string): string
    decreases |s|
  {
    if s == "" then ""
    else if "&amp;" <= s then "&" + Unescape(s[5..])
    else if "&lt;" <= s then "<" + Unescape(s[4..])
    else if "&gt;" <= s then ">" + Unescape(s[4..])
    else if "&quot;" <= s then "\"" + Unescape(s[6..])
    else if "&apos;" <= s then "'" + Unescape(s[6..])
    else [s[0]] + Unescape(s[1..])
  }

  lemma UnescapeEntity(c: char, rest: string)
    ensures Unescape(Entity(c) + rest) == [c] + Unescape(rest)
  {
    var s := Entity(c) + rest;
    assert s[|Entity(c)|..] == rest;
    assert s[0] == Entity(c)[0];
    if c == '&' {
      assert "&amp;" <= s;
    } else if c == '<' {
      assert s[1] == 'l' && "&lt;" <= s;
    } else if c == '>' {
      assert s[1] == 'g' && "&gt;" <= s;
    } else if c == '\"' {
      assert s[1] == 'q' && "&quot;" <= s;
    } else if c == '\'' {
      assert s[1] == 'a' && s[2] == 'p' && "&apos;" <= s;
    }
  }

  lemma {:induction false} UnescapeInverts(s: string)
    ensures Unescape(XmlEscape(s)) == s
  {
    XmlEscapeIsOnePass(s);
    if s != "" {
      UnescapeEntity(s[0], EscapeEach(s[1..]));
      XmlEscapeIsOnePass(s[1..]);
      UnescapeInverts(s[1..]);
    }
  }

  /** Escaped text holds no angle bracket and no quote, so it cannot close a tag or an attribute. */
  lemma {:induction false} EscapedFree(s: string, c: char)
    requires c == '<' || c == '>' || c == '\"' || c == '\''
    ensures Free(XmlEscape(s), c)
  {
    XmlEscapeIsOnePass(s);
    EscapeEachFree(s, c);
  }

  lemma {:induction false} EscapeEachFree(s: string, c: char)
    requires c == '<' || c == '>' || c == '\"' || c == '\''
    ensures Free(EscapeEach(s), c)
  {
    if s == "" {
    } else {
      EscapeEachFree(s[1..], c);
    }
  }

  predicate Special(c: char) { c == '&' || c == '<' || c == '>' || c == '\"' || c == '\'' }

  /** Escaping leaves a string alone exactly when it holds no special character. */
  lemma {:induction false} EscapeIdentity(s: string)
    ensures XmlEscape(s) == s <==> forall i :: 0 <= i < |s| ==> !Special(s[i])
  {
    XmlEscapeIsOnePass(s);
    EscapeGrows(s);
    if s != "" {
      XmlEscapeIsOnePass(s[1..]);
      EscapeIdentity(s[1..]);
      EscapeGrows(s[1..]);
      if !Special(s[0]) {
        assert EscapeEach(s)[1..] == EscapeEach(s[1..]);
      } else {
        assert |EscapeEach(s)| > |s|;
      }
    }
  }

  lemma {:induction false} EscapeGrows(s: string)
    ensures |EscapeEach(s)| >= |s|
  {
    if s == "" {
    } else {
      EscapeGrows(s[1..]);
    }
  }

  // ------------------------------------------------------------------ extraction

  function Open(tag: string): string { "<" + tag + ">" }

  function Close(tag: string): string { "</" + tag + ">" }

  /** The text before the first occurrence of `end`. */
  function Before(s: string, end: string): Option<string> {
    var at := Find(s, end);
    if at.None? then None else Some(s[..at.value])
  }

  /** The text between the first `<tag>` and the first `</tag>` after it. */
  function ExtractXmlValue(xml: string, tag: string): Option<string> {
    var at := Find(xml, Open(tag));
    if at.None? then None else Before(xml[at.value + |Open(tag)|..], Close(tag))
  }

  lemma FindClose(value: string, after: string, tag: string)
    requires Free(value, '<')
    ensures Find(value + (Close(tag) + after), Close(tag)) == Some(|value|)
  {
    FindPast(value, Close(tag) + after, Close(tag));
    FindHere(Close(tag), after);
  }

  lemma BeforeClose(value: string, after: string, tag: string)
    requires Free(value, '<')
    ensures Before(value + (Close(tag) + after), Close(tag)) == Some(value)
  {
    FindClose(value, after, tag);
    assert (value + (Close(tag) + after))[..|value|] == value;
  }

  /** Extraction where the first opening tag, at `at`, is followed by `value</tag>`. */
  lemma Extracted(xml: string, tag: string, at: nat, value: string, after: string)
    requires Find(xml, Open(tag)) == Some(at)
    requires xml[at + |Open(tag)|..] == value + (Close(tag) + after)
    requires Free(value, '<')
    ensures ExtractXmlValue(xml, tag) == Some(value)
  {
    BeforeClose(value, after, tag);
  }
}
