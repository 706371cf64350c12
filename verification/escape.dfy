/**
 * The HTML escaping used for the "no results" message: each of the five
 * characters & < > " ' is replaced by its character reference, every
 * other character is kept (js/search.js, escapeHtml).
 */
module HtmlEscape {
  import opened Text

  predicate IsSpecial(c: char) {
    c == '&' || c == '<' || c == '>' || c == '"' || c == '\''
  }

  /** The replacement the escaping table gives each character. */
  function EscapeChar(c: char): (r: string)
    ensures IsSpecial(c) ==> |r| > 1 && r[0] == '&'
    ensures !IsSpecial(c) ==> r == [c]
  {
    match c
    case '&' => "&amp;"
    case '<' => "&lt;"
    case '>' => "&gt;"
    case '"' => "&quot;"
    case '\'' => "&#39;"
    case _ => [c]
  }

  /** escapeHtml: the global replace of /[&<>"']/ through the table above. */
  function EscapeHtml(s: string): string {
    if s == [] then [] else EscapeChar(s[0]) + EscapeHtml(s[1..])
  }

  /** Escaping works one character at a time. */
  lemma EscapeHtmlCons(c: char, rest: string)
    ensures EscapeHtml([c] + rest) == EscapeChar(c) + EscapeHtml(rest)
  {
    assert ([c] + rest)[0] == c && ([c] + rest)[1..] == rest;
  }

  /** The character a string starts with once a leading reference is decoded, and how many characters it took. */
  function Lead(s: string): (r: (char, nat))
    requires s != []
    ensures 1 <= r.1 <= |s|
  {
    if StartsWith(s, "&amp;") then ('&', 5)
    else if StartsWith(s, "&lt;") then ('<', 4)
    else if StartsWith(s, "&gt;") then ('>', 4)
    else if StartsWith(s, "&quot;") then ('"', 6)
    else if StartsWith(s, "&#39;") then ('\'', 5)
    else (s[0], 1)
  }

  /** The decoder of the five character references, scanning left to right. */
  function Unescape(s: string): string
    decreases |s|
  {
    if s == [] then [] else [Lead(s).0] + Unescape(s[Lead(s).1..])
  }

  /** No character that could open a tag or close an attribute value is left. */
  predicate IsMarkupSafe(s: string) {
    forall i :: 0 <= i < |s| ==> s[i] != '<' && s[i] != '>' && s[i] != '"' && s[i] != '\''
  }

  predicate IsPlain(s: string) {
    forall i :: 0 <= i < |s| ==> !IsSpecial(s[i])
  }

  lemma {:induction false} EscapeHtmlSafe(s: string)
    ensures IsMarkupSafe(EscapeHtml(s))
  {
    if s != [] {
      EscapeHtmlSafe(s[1..]);
      var e, t := EscapeChar(s[0]), EscapeHtml(s[1..]);
      assert EscapeHtml(s) == e + t;
      forall i | 0 <= i < |e + t| ensures (e + t)[i] != '<' && (e + t)[i] != '>' && (e + t)[i] != '"' && (e + t)[i] != '\'' {
        if i >= |e| {
          assert (e + t)[i] == t[i - |e|];
        }
      }
    }
  }

  /** Escaping never shortens a string, and lengthens every string that holds a special character. */
  lemma {:induction false} EscapeHtmlLength(s: string)
    ensures |EscapeHtml(s)| >= |s|
    ensures |EscapeHtml(s)| == |s| <==> IsPlain(s)
  {
    if s != [] {
      EscapeHtmlLength(s[1..]);
      assert IsPlain(s) <==> !IsSpecial(s[0]) && IsPlain(s[1..]) by {
        if !IsSpecial(s[0]) && IsPlain(s[1..]) {
          forall i | 0 < i < |s| ensures !IsSpecial(s[i]) {
            assert s[i] == s[1..][i - 1];
          }
        }
      }
    }
  }

  /** Escaping is the identity exactly on strings with none of the five special characters. */
  lemma {:induction false} EscapeHtmlIdentity(s: string)
    ensures EscapeHtml(s) == s <==> IsPlain(s)
  {
    EscapeHtmlLength(s);
    if IsPlain(s) && s != [] {
      assert IsPlain(s[1..]) by {
        forall i | 0 <= i < |s[1..]| ensures !IsSpecial(s[1..][i]) {
          assert s[1..][i] == s[i + 1];
        }
      }
      EscapeHtmlIdentity(s[1..]);
    }
  }

  lemma LeadEscapeChar(c: char, rest: string)
    ensures Lead(EscapeChar(c) + rest) == (c, |EscapeChar(c)|)
  {
    var e := EscapeChar(c) + rest;
    if c == '&' {
      assert e[..5] == "&amp;";
    } else if c == '<' {
      assert e[1] == 'l' && e[..4] == "&lt;";
    } else if c == '>' {
      assert e[1] == 'g' && e[..4] == "&gt;";
    } else if c == '"' {
      assert e[1] == 'q' && e[..6] == "&quot;";
    } else if c == '\'' {
      assert e[1] == '#' && e[..5] == "&#39;";
    } else {
      assert e[0] == c;
    }
  }

  lemma UnescapeEscapeChar(c: char, rest: string)
    ensures Unescape(EscapeChar(c) + rest) == [c] + Unescape(rest)
  {
    LeadEscapeChar(c, rest);
    assert (EscapeChar(c) + rest)[|EscapeChar(c)|..] == rest;
  }

  /** Decoding the five references in an escaped string gives back the original. */
  lemma {:induction false} UnescapeEscapeHtml(s: string)
    ensures Unescape(EscapeHtml(s)) == s
  {
    if s != [] {
      UnescapeEscapeChar(s[0], EscapeHtml(s[1..]));
      UnescapeEscapeHtml(s[1..]);
    }
  }

  /** Escaping is injective: distinct queries give distinct messages. */
  lemma EscapeHtmlInjective(s: string, t: string)
    requires EscapeHtml(s) == EscapeHtml(t)
    ensures s == t
  {
    UnescapeEscapeHtml(s);
    UnescapeEscapeHtml(t);
  }
}
