/** HTML escaping of text runs (src/utils/html.ts). */
module Html {

  /** The characters the escaping pattern `[&<>"']` matches. */
  predicate IsSpecial(c: char) {
    c == '&' || c == '<' || c == '>' || c == '"' || c == '\''
  }

  /** The `HTML_ESCAPE` table. */
  const EscapeTable: map<char, string> :=
    map['&' := "&amp;", '<' := "&lt;", '>' := "&gt;", '"' := "&quot;", '\'' := "&#39;"]

  /** The replacement of one character: its table entry when the pattern matches it,
      the character itself otherwise. */
  function EscapeChar(c: char): (r: string)
    ensures IsSpecial(c) ==> |r| > 1 && r[0] == '&' && r[|r| - 1] == ';'
    ensures !IsSpecial(c) <==> r == [c]
    ensures forall j :: 0 <= j < |r| ==> r[j] != '<' && r[j] != '>' && r[j] != '"' && r[j] != '\''
  {
    if IsSpecial(c) && c in EscapeTable && EscapeTable[c] != "" then EscapeTable[c] else [c]
  }

  predicate HasSpecial(s: string) {
    exists i :: 0 <= i < |s| && IsSpecial(s[i])
  }

  /** `escapeHtml(value)`: every character replaced by its escape, in order. */
  function EscapeHtml(s: string): (r: string)
    ensures |r| >= |s|
    ensures forall j :: 0 <= j < |r| ==> r[j] != '<' && r[j] != '>' && r[j] != '"' && r[j] != '\''
  {
    if s == [] then [] else EscapeChar(s[0]) + EscapeHtml(s[1..])
  }

  /** Escaping is a per-character map, so it distributes over concatenation. */
  lemma {:induction false} EscapeConcat(a: string, b: string)
    ensures EscapeHtml(a + b) == EscapeHtml(a) + EscapeHtml(b)
  {
    if a != [] {
      assert (a + b)[1..] == a[1..] + b;
      EscapeConcat(a[1..], b);
    } else {
      assert a + b == b;
    }
  }

  /** Each special character becomes its entity. */
  lemma EscapeEntities()
    ensures EscapeHtml("&") == "&amp;" && EscapeHtml("<") == "&lt;" && EscapeHtml(">") == "&gt;"
    ensures EscapeHtml("\"") == "&quot;" && EscapeHtml("'") == "&#39;"
  {
  }

  /** A text without special characters is copied unchanged. */
  lemma {:induction false} EscapeIdentity(s: string)
    requires !HasSpecial(s)
    ensures EscapeHtml(s) == s
  {
    if s != [] {
      assert !IsSpecial(s[0]);
      assert !HasSpecial(s[1..]) by {
        forall i | 0 <= i < |s[1..]| ensures !IsSpecial(s[1..][i]) {
          assert s[1..][i] == s[i + 1];
        }
      }
      EscapeIdentity(s[1..]);
    }
  }

  /** The escaped text has the length of the input exactly when the input holds no
      special character; otherwise it is strictly longer. */
  lemma {:induction false} EscapeLength(s: string)
    ensures |EscapeHtml(s)| == |s| <==> !HasSpecial(s)
    ensures HasSpecial(s) ==> |EscapeHtml(s)| > |s|
  {
    if s != [] {
      EscapeLength(s[1..]);
      if IsSpecial(s[0]) {
        assert HasSpecial(s);
      } else {
        assert HasSpecial(s) <==> HasSpecial(s[1..]) by {
          if HasSpecial(s) {
            var i :| 0 <= i < |s| && IsSpecial(s[i]);
            assert i > 0 && s[1..][i - 1] == s[i];
          }
          if HasSpecial(s[1..]) {
            var i :| 0 <= i < |s[1..]| && IsSpecial(s[1..][i]);
            assert s[i + 1] == s[1..][i];
          }
        }
      }
    }
  }

  /** Reading the five entities back: the inverse of `EscapeHtml`. */
  function UnescapeHtml(s: string): (r: string)
    ensures |r| <= |s|
  {
    if s == [] then []
    else if "&amp;" <= s then "&" + UnescapeHtml(s[5..])
    else if "&lt;" <= s then "<" + UnescapeHtml(s[4..])
    else if "&gt;" <= s then ">" + UnescapeHtml(s[4..])
    else if "&quot;" <= s then "\"" + UnescapeHtml(s[6..])
    else if "&#39;" <= s then "'" + UnescapeHtml(s[5..])
    else [s[0]] + UnescapeHtml(s[1..])
  }

  /** Escaping loses nothing: the original text can be read back. */
  lemma {:induction false} UnescapeEscape(s: string)
    ensures UnescapeHtml(EscapeHtml(s)) == s
  {
    if s != [] {
      assert EscapeHtml(s) == EscapeChar(s[0]) + EscapeHtml(s[1..]);
      UnescapeChar(s[0], EscapeHtml(s[1..]));
      UnescapeEscape(s[1..]);
      assert s == [s[0]] + s[1..];
    }
  }

  /** Unescaping reads one escaped character back, whatever follows it. */
  lemma UnescapeChar(c: char, rest: string)
    ensures UnescapeHtml(EscapeChar(c) + rest) == [c] + UnescapeHtml(rest)
  {
    var e := EscapeChar(c);
    if !IsSpecial(c) {
      UnescapePlain(c, rest);
    } else {
      assert e == EscapeTable[c];
      UnescapeEntity(e, c, rest);
    }
  }

  lemma UnescapePlain(c: char, rest: string)
    requires c != '&'
    ensures UnescapeHtml([c] + rest) == [c] + UnescapeHtml(rest)
  {
    var t := [c] + rest;
    assert t[0] == c && t[1..] == rest;
  }

  /** Each entry of the table is read back by its own branch of `UnescapeHtml`. */
  lemma UnescapeEntity(e: string, c: char, rest: string)
    requires c in EscapeTable && e == EscapeTable[c]
    ensures UnescapeHtml(e + rest) == [c] + UnescapeHtml(rest)
  {
    var t := e + rest;
    assert e <= t && t[|e|..] == rest;
    if c != '&' {
      assert t[1] == e[1] != 'a';
    }
    if c != '&' && c != '<' {
      assert t[1] == e[1] != 'l';
    }
    if c == '"' || c == '\'' {
      assert t[1] == e[1] != 'g';
    }
    if c == '\'' {
      assert t[1] == e[1] != 'q';
    }
  }

  /** Escaping is injective. */
  lemma EscapeInjective(a: string, b: string)
    requires EscapeHtml(a) == EscapeHtml(b)
    ensures a == b
  {
    UnescapeEscape(a);
    UnescapeEscape(b);
  }
}
