/** Python's `html.escape(s)` with its default `quote=True`: five `str.replace`
    passes, `&` first, then `<`, `>`, `"` and `'`. */
module HtmlEscape {

  /** `s.replace(c, t)` for a single character c. */
  function Replace(s: string, c: char, t: string): string {
    if s == [] then [] else (if s[0] == c then t else [s[0]]) + Replace(s[1..], c, t)
  }

  /** `html.escape(s)`, pass by pass as the standard library writes it. */
  function Escape(s: string): string {
    var s1 := Replace(s, '&', "&amp;");
    var s2 := Replace(s1, '<', "&lt;");
    var s3 := Replace(s2, '>', "&gt;");
    var s4 := Replace(s3, '"', "&quot;");
    Replace(s4, '\'', "&#x27;")
  }

  /** The replacement one character gets. */
  function EscapeChar(c: char): string {
    match c
    case '&' => "&amp;"
    case '<' => "&lt;"
    case '>' => "&gt;"
    case '"' => "&quot;"
    case '\'' => "&#x27;"
    case _ => [c]
  }

  /** Character-by-character reference definition of the escape. */
  function EscapeEach(s: string): string {
    if s == [] then [] else EscapeChar(s[0]) + EscapeEach(s[1..])
  }

  predicate IsPrefix(p: string, t: string) {
    |p| <= |t| && t[..|p|] == p
  }

  /** t starts with one of the five entities the escape produces. */
  predicate StartsEntity(t: string) {
    IsPrefix("&amp;", t) || IsPrefix("&lt;", t) || IsPrefix("&gt;", t) ||
    IsPrefix("&quot;", t) || IsPrefix("&#x27;", t)
  }

  /** Free of the five characters `html.escape` handles: no raw `<`, `>`, `"`
      or `'`, and every `&` begins one of its entities. This is what an
      HTML-like label needs of its text. Other characters, the backslash among
      them, pass unchanged. */
  predicate Escaped(t: string) {
    && (forall i :: 0 <= i < |t| ==> t[i] != '<' && t[i] != '>' && t[i] != '"' && t[i] != '\'')
    && (forall i :: 0 <= i < |t| && t[i] == '&' ==> StartsEntity(t[i..]))
  }

  /** Decoding of the five entities (any other text is kept as is). */
  function Unescape(t: string): string {
    if t == [] then []
    else if IsPrefix("&amp;", t) then "&" + Unescape(t[5..])
    else if IsPrefix("&lt;", t) then "<" + Unescape(t[4..])
    else if IsPrefix("&gt;", t) then ">" + Unescape(t[4..])
    else if IsPrefix("&quot;", t) then "\"" + Unescape(t[6..])
    else if IsPrefix("&#x27;", t) then "'" + Unescape(t[6..])
    else [t[0]] + Unescape(t[1..])
  }

  lemma {:induction false} ReplaceAppend(a: string, b: string, c: char, t: string)
    ensures Replace(a + b, c, t) == Replace(a, c, t) + Replace(b, c, t)
  {
    if a != [] {
      assert (a + b)[1..] == a[1..] + b;
      ReplaceAppend(a[1..], b, c, t);
    } else {
      assert a + b == b;
    }
  }

  lemma {:induction false} ReplaceAbsent(s: string, c: char, t: string)
    requires c !in s
    ensures Replace(s, c, t) == s
  {
    if s != [] {
      ReplaceAbsent(s[1..], c, t);
    }
  }

  lemma ReplaceOne(c: char, t: string)
    ensures Replace([c], c, t) == t
  {
    assert [c][1..] == [];
  }

  lemma ReplaceOther(d: char, c: char, t: string)
    requires d != c
    ensures Replace([d], c, t) == [d]
  {
    assert [d][1..] == [];
  }

  /** The five passes never touch what an earlier pass produced, so they act on
      each character independently: the chain equals the per-character escape. */
  lemma {:induction false} EscapeIsEscapeEach(s: string)
    ensures Escape(s) == EscapeEach(s)
  {
    if s != [] {
      var c := s[0];
      assert s == [c] + s[1..];
      EscapeAppend([c], s[1..]);
      EscapeIsEscapeEach(s[1..]);
      EscapeOneChar(c);
    }
  }

  lemma EscapeAppend(a: string, b: string)
    ensures Escape(a + b) == Escape(a) + Escape(b)
  {
    var a1, b1 := Replace(a, '&', "&amp;"), Replace(b, '&', "&amp;");
    ReplaceAppend(a, b, '&', "&amp;");
    var a2, b2 := Replace(a1, '<', "&lt;"), Replace(b1, '<', "&lt;");
    ReplaceAppend(a1, b1, '<', "&lt;");
    var a3, b3 := Replace(a2, '>', "&gt;"), Replace(b2, '>', "&gt;");
    ReplaceAppend(a2, b2, '>', "&gt;");
    var a4, b4 := Replace(a3, '"', "&quot;"), Replace(b3, '"', "&quot;");
    ReplaceAppend(a3, b3, '"', "&quot;");
    ReplaceAppend(a4, b4, '\'', "&#x27;");
  }

  /** The chain applied to one character: each pass either replaces it or leaves
      it, and no later pass finds anything to replace in an inserted entity. */
  lemma EscapeOneChar(c: char)
    ensures Escape([c]) == EscapeChar(c)
  {
    if c == '&' {
      EscapeOneAmp();
    } else if c == '<' {
      EscapeOneLt();
    } else if c == '>' {
      EscapeOneGt();
    } else if c == '"' {
      EscapeOneQuot();
    } else if c == '\'' {
      EscapeOneApos();
    } else {
      EscapeOnePlain(c);
    }
  }

  lemma EscapeOneAmp()
    ensures Escape("&") == "&amp;"
  {
    var amp := "&amp;";
    var s1 := Replace("&", '&', amp);
    assert s1 == amp by { ReplaceOne('&', amp); }
    var s2 := Replace(s1, '<', "&lt;");
    assert s2 == amp by { ReplaceAbsent(amp, '<', "&lt;"); }
    var s3 := Replace(s2, '>', "&gt;");
    assert s3 == amp by { ReplaceAbsent(amp, '>', "&gt;"); }
    var s4 := Replace(s3, '"', "&quot;");
    assert s4 == amp by { ReplaceAbsent(amp, '"', "&quot;"); }
    assert Replace(s4, '\'', "&#x27;") == amp by { ReplaceAbsent(amp, '\'', "&#x27;"); }
  }

  lemma EscapeOneLt()
    ensures Escape("<") == "&lt;"
  {
    var lt := "&lt;";
    var s1 := Replace("<", '&', "&amp;");
    assert s1 == "<" by { ReplaceOther('<', '&', "&amp;"); }
    var s2 := Replace(s1, '<', lt);
    assert s2 == lt by { ReplaceOne('<', lt); }
    var s3 := Replace(s2, '>', "&gt;");
    assert s3 == lt by { ReplaceAbsent(lt, '>', "&gt;"); }
    var s4 := Replace(s3, '"', "&quot;");
    assert s4 == lt by { ReplaceAbsent(lt, '"', "&quot;"); }
    assert Replace(s4, '\'', "&#x27;") == lt by { ReplaceAbsent(lt, '\'', "&#x27;"); }
  }

  lemma EscapeOneGt()
    ensures Escape(">") == "&gt;"
  {
    var gt := "&gt;";
    var s1 := Replace(">", '&', "&amp;");
    assert s1 == ">" by { ReplaceOther('>', '&', "&amp;"); }
    var s2 := Replace(s1, '<', "&lt;");
    assert s2 == ">" by { ReplaceOther('>', '<', "&lt;"); }
    var s3 := Replace(s2, '>', gt);
    assert s3 == gt by { ReplaceOne('>', gt); }
    var s4 := Replace(s3, '"', "&quot;");
    assert s4 == gt by { ReplaceAbsent(gt, '"', "&quot;"); }
    assert Replace(s4, '\'', "&#x27;") == gt by { ReplaceAbsent(gt, '\'', "&#x27;"); }
  }

  lemma EscapeOneQuot()
    ensures Escape("\"") == "&quot;"
  {
    var quot := "&quot;";
    var s1 := Replace("\"", '&', "&amp;");
    assert s1 == "\"" by { ReplaceOther('"', '&', "&amp;"); }
    var s2 := Replace(s1, '<', "&lt;");
    assert s2 == "\"" by { ReplaceOther('"', '<', "&lt;"); }
    var s3 := Replace(s2, '>', "&gt;");
    assert s3 == "\"" by { ReplaceOther('"', '>', "&gt;"); }
    var s4 := Replace(s3, '"', quot);
    assert s4 == quot by { ReplaceOne('"', quot); }
    assert Replace(s4, '\'', "&#x27;") == quot by { ReplaceAbsent(quot, '\'', "&#x27;"); }
  }

  lemma EscapeOneApos()
    ensures Escape("'") == "&#x27;"
  {
    var s1 := Replace("'", '&', "&amp;");
    assert s1 == "'" by { ReplaceOther('\'', '&', "&amp;"); }
    var s2 := Replace(s1, '<', "&lt;");
    assert s2 == "'" by { ReplaceOther('\'', '<', "&lt;"); }
    var s3 := Replace(s2, '>', "&gt;");
    assert s3 == "'" by { ReplaceOther('\'', '>', "&gt;"); }
    var s4 := Replace(s3, '"', "&quot;");
    assert s4 == "'" by { ReplaceOther('\'', '"', "&quot;"); }
    assert Replace(s4, '\'', "&#x27;") == "&#x27;" by { ReplaceOne('\'', "&#x27;"); }
  }

  /** A character other than the five passes through all of them. */
  lemma EscapeOnePlain(c: char)
    requires c != '&' && c != '<' && c != '>' && c != '"' && c != '\''
    ensures Escape([c]) == [c]
  {
    var s1 := Replace([c], '&', "&amp;");
    assert s1 == [c] by { ReplaceOther(c, '&', "&amp;"); }
    var s2 := Replace(s1, '<', "&lt;");
    assert s2 == [c] by { ReplaceOther(c, '<', "&lt;"); }
    var s3 := Replace(s2, '>', "&gt;");
    assert s3 == [c] by { ReplaceOther(c, '>', "&gt;"); }
    var s4 := Replace(s3, '"', "&quot;");
    assert s4 == [c] by { ReplaceOther(c, '"', "&quot;"); }
    assert Replace(s4, '\'', "&#x27;") == [c] by { ReplaceOther(c, '\'', "&#x27;"); }
  }

  /** What one character's replacement looks like from the outside: no raw
      markup character, and an `&` only at its start, where an entity begins. */
  lemma EscapeCharShape(c: char, rest: string)
    ensures forall i :: 0 <= i < |EscapeChar(c)| ==> EscapeChar(c)[i] !in "<>\"'"
    ensures forall i :: 0 < i < |EscapeChar(c)| ==> EscapeChar(c)[i] != '&'
    ensures EscapeChar(c)[0] == '&' ==> StartsEntity(EscapeChar(c) + rest)
    ensures EscapeChar(c)[0] != '&' ==> EscapeChar(c) == [c]
  {
    var t := EscapeChar(c) + rest;
    if c == '&' {
      assert t[..5] == "&amp;";
    } else if c == '<' {
      assert t[..4] == "&lt;";
    } else if c == '>' {
      assert t[..4] == "&gt;";
    } else if c == '"' {
      assert t[..6] == "&quot;";
    } else if c == '\'' {
      assert t[..6] == "&#x27;";
    }
  }

  /** The escaped text carries no raw markup character and every `&` in it
      begins an entity. */
  lemma EscapeIsSafe(s: string)
    ensures Escaped(Escape(s))
  {
    EscapeIsEscapeEach(s);
    EscapeEachSafe(s);
  }

  lemma {:induction false} EscapeEachSafe(s: string)
    ensures Escaped(EscapeEach(s))
  {
    if s != [] {
      EscapeEachSafe(s[1..]);
      var head, rest := EscapeChar(s[0]), EscapeEach(s[1..]);
      EscapeCharShape(s[0], rest);
      var t := head + rest;
      assert EscapeEach(s) == t;
      forall i | 0 <= i < |t|
        ensures t[i] != '<' && t[i] != '>' && t[i] != '"' && t[i] != '\''
      {
        if i < |head| {
          assert t[i] == head[i];
        } else {
          assert t[i] == rest[i - |head|];
        }
      }
      forall i | 0 <= i < |t| && t[i] == '&'
        ensures StartsEntity(t[i..])
      {
        if i < |head| {
          assert t[i] == head[i];
        } else {
          assert t[i] == rest[i - |head|];
          assert t[i..] == rest[i - |head|..];
        }
      }
    }
  }

  /** Unescaping the escaped text gives back the original string. */
  lemma EscapeRoundTrip(s: string)
    ensures Unescape(Escape(s)) == s
  {
    EscapeIsEscapeEach(s);
    UnescapeEscapeEach(s);
  }

  lemma {:induction false} UnescapeEscapeEach(s: string)
    ensures Unescape(EscapeEach(s)) == s
  {
    if s != [] {
      var c, rest := s[0], EscapeEach(s[1..]);
      var head := EscapeChar(c);
      var t := head + rest;
      assert EscapeEach(s) == t;
      UnescapeEscapeEach(s[1..]);
      EscapeCharShape(c, rest);
      assert t[|head|..] == rest;
      UnescapeHead(c, rest);
      assert s == [c] + s[1..];
    }
  }

  /** Unescape takes back exactly one character's replacement. */
  lemma UnescapeHead(c: char, rest: string)
    ensures Unescape(EscapeChar(c) + rest) == [c] + Unescape(rest)
  {
    if c == '&' {
      UnescapeAmp(rest);
    } else if c == '<' {
      UnescapeLt(rest);
    } else if c == '>' {
      UnescapeGt(rest);
    } else if c == '"' {
      UnescapeQuot(rest);
    } else if c == '\'' {
      UnescapeApos(rest);
    } else {
      UnescapePlain(c, rest);
    }
  }

  lemma UnescapeAmp(rest: string)
    ensures Unescape("&amp;" + rest) == "&" + Unescape(rest)
  {
    var t := "&amp;" + rest;
    assert t[..5] == "&amp;";
    assert t[5..] == rest;
  }

  lemma UnescapeLt(rest: string)
    ensures Unescape("&lt;" + rest) == "<" + Unescape(rest)
  {
    var t := "&lt;" + rest;
    assert t[1] == 'l';
    assert !IsPrefix("&amp;", t) by { if |t| >= 5 { assert t[..5][1] == 'l'; } }
    assert t[..4] == "&lt;";
    assert t[4..] == rest;
  }

  lemma UnescapeGt(rest: string)
    ensures Unescape("&gt;" + rest) == ">" + Unescape(rest)
  {
    var t := "&gt;" + rest;
    assert t[1] == 'g';
    assert !IsPrefix("&amp;", t) by { if |t| >= 5 { assert t[..5][1] == 'g'; } }
    assert !IsPrefix("&lt;", t) by { if |t| >= 4 { assert t[..4][1] == 'g'; } }
    assert t[..4] == "&gt;";
    assert t[4..] == rest;
  }

  lemma UnescapeQuot(rest: string)
    ensures Unescape("&quot;" + rest) == "\"" + Unescape(rest)
  {
    var t := "&quot;" + rest;
    assert t[1] == 'q';
    assert !IsPrefix("&amp;", t) by { if |t| >= 5 { assert t[..5][1] == 'q'; } }
    assert !IsPrefix("&lt;", t) by { if |t| >= 4 { assert t[..4][1] == 'q'; } }
    assert !IsPrefix("&gt;", t) by { if |t| >= 4 { assert t[..4][1] == 'q'; } }
    assert t[..6] == "&quot;";
    assert t[6..] == rest;
  }

  lemma UnescapeApos(rest: string)
    ensures Unescape("&#x27;" + rest) == "'" + Unescape(rest)
  {
    var t := "&#x27;" + rest;
    assert t[1] == '#';
    assert !IsPrefix("&amp;", t) by { if |t| >= 5 { assert t[..5][1] == '#'; } }
    assert !IsPrefix("&lt;", t) by { if |t| >= 4 { assert t[..4][1] == '#'; } }
    assert !IsPrefix("&gt;", t) by { if |t| >= 4 { assert t[..4][1] == '#'; } }
    assert !IsPrefix("&quot;", t) by { if |t| >= 6 { assert t[..6][1] == '#'; } }
    assert t[..6] == "&#x27;";
    assert t[6..] == rest;
  }

  lemma UnescapePlain(c: char, rest: string)
    requires c != '&'
    ensures Unescape([c] + rest) == [c] + Unescape(rest)
  {
    var t := [c] + rest;
    assert t[0] == c;
    assert !StartsEntity(t);
    assert t[1..] == rest;
  }

  /** Text free of the five special characters passes unchanged. */
  lemma {:induction false} EscapePlain(s: string)
    requires forall i :: 0 <= i < |s| ==> s[i] !in "&<>\"'"
    ensures Escape(s) == s
  {
    EscapeIsEscapeEach(s);
    EscapeEachPlain(s);
  }

  lemma {:induction false} EscapeEachPlain(s: string)
    requires forall i :: 0 <= i < |s| ==> s[i] !in "&<>\"'"
    ensures EscapeEach(s) == s
  {
    if s != [] {
      assert s[0] !in "&<>\"'";
      EscapeEachPlain(s[1..]);
      assert s == [s[0]] + s[1..];
    }
  }
}
