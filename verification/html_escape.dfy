/** The code-block escaper of the client Markdown renderer. The renderer
    assigns the text to a detached element's `textContent` and reads back its
    `innerHTML`; the result is defined by the "escaping a string" algorithm of
    the HTML Standard (section 13.3, serializing HTML fragments) in text mode:
    `&`, U+00A0, `<` and `>` become `&amp;`, `&nbsp;`, `&lt;` and `&gt;`. */
module HtmlEscape {
  import opened Text

  const Nbsp: char := '\U{00A0}'

  function EscapeChar(c: char): string
  {
    if c == '&' then "&amp;"
    else if c == Nbsp then "&nbsp;"
    else if c == '<' then "&lt;"
    else if c == '>' then "&gt;"
    else [c]
  }

  /** `escapeHtml` in markdown-parser.js: text-mode serialization. */
  function Escape(s: string): (r: string)
    ensures |r| >= |s|
    decreases |s|
  {
    if |s| == 0 then "" else EscapeChar(s[0]) + Escape(s[1..])
  }

  /** Reads text back, decoding exactly the four references `Escape` emits. */
  function Unescape(s: string): string
    decreases |s|
  {
    if |s| == 0 then ""
    else if StartsWith(s, "&amp;") then "&" + Unescape(s[5..])
    else if StartsWith(s, "&nbsp;") then [Nbsp] + Unescape(s[6..])
    else if StartsWith(s, "&lt;") then "<" + Unescape(s[4..])
    else if StartsWith(s, "&gt;") then ">" + Unescape(s[4..])
    else [s[0]] + Unescape(s[1..])
  }

  /** Escaped text contains no raw markup character and no raw no-break space. */
  lemma {:induction false} EscapeHasNoMarkup(s: string)
    ensures forall i :: 0 <= i < |Escape(s)| ==> Escape(s)[i] != '<' && Escape(s)[i] != '>' && Escape(s)[i] != Nbsp
    decreases |s|
  {
    if |s| > 0 {
      EscapeHasNoMarkup(s[1..]);
      var e := EscapeChar(s[0]);
      var rest := Escape(s[1..]);
      assert Escape(s) == e + rest;
      forall i | 0 <= i < |e + rest|
        ensures (e + rest)[i] != '<' && (e + rest)[i] != '>' && (e + rest)[i] != Nbsp
      {
        if i >= |e| {
          assert (e + rest)[i] == rest[i - |e|];
        }
      }
    }
  }

  lemma {:induction false} UnescapeAfterChar(c: char, rest: string)
    ensures Unescape(EscapeChar(c) + rest) == [c] + Unescape(rest)
  {
    if c == '&' {
      UnescapeAmp(rest);
    } else if c == Nbsp {
      UnescapeNbsp(rest);
    } else if c == '<' {
      UnescapeLt(rest);
    } else if c == '>' {
      UnescapeGt(rest);
    } else {
      var x := [c] + rest;
      assert x[0] == c && x[1..] == rest;
      assert !StartsWith(x, "&amp;") && !StartsWith(x, "&nbsp;") && !StartsWith(x, "&lt;") && !StartsWith(x, "&gt;") by {
        if |x| >= 4 { assert x[..4][0] == c; }
      }
    }
  }

  lemma {:induction false} UnescapeAmp(rest: string)
    ensures Unescape("&amp;" + rest) == "&" + Unescape(rest)
  {
    var x := "&amp;" + rest;
    assert x[..5] == "&amp;" && x[5..] == rest;
  }

  lemma {:induction false} UnescapeNbsp(rest: string)
    ensures Unescape("&nbsp;" + rest) == [Nbsp] + Unescape(rest)
  {
    var x := "&nbsp;" + rest;
    assert x[..6] == "&nbsp;" && x[6..] == rest;
    assert x[1] == 'n' && !StartsWith(x, "&amp;") by { assert x[..5][1] == x[1]; }
  }

  lemma {:induction false} UnescapeLt(rest: string)
    ensures Unescape("&lt;" + rest) == "<" + Unescape(rest)
  {
    var x := "&lt;" + rest;
    assert x[..4] == "&lt;" && x[4..] == rest;
    assert x[1] == 'l';
    assert !StartsWith(x, "&amp;") by { if |x| >= 5 { assert x[..5][1] == x[1]; } }
    assert !StartsWith(x, "&nbsp;") by { if |x| >= 6 { assert x[..6][1] == x[1]; } }
  }

  lemma {:induction false} UnescapeGt(rest: string)
    ensures Unescape("&gt;" + rest) == ">" + Unescape(rest)
  {
    var x := "&gt;" + rest;
    assert x[..4] == "&gt;" && x[4..] == rest;
    assert x[1] == 'g';
    assert !StartsWith(x, "&amp;") by { if |x| >= 5 { assert x[..5][1] == x[1]; } }
    assert !StartsWith(x, "&nbsp;") by { if |x| >= 6 { assert x[..6][1] == x[1]; } }
    assert !StartsWith(x, "&lt;") by { assert x[..4][1] == x[1]; }
  }

  /** Decoding the escaped text gives back the original text. */
  lemma {:induction false} EscapeRoundTrip(s: string)
    ensures Unescape(Escape(s)) == s
    decreases |s|
  {
    if |s| > 0 {
      UnescapeAfterChar(s[0], Escape(s[1..]));
      EscapeRoundTrip(s[1..]);
    }
  }

  /** Text without any of the four special characters is left as it is. */
  lemma {:induction false} EscapePlain(s: string)
    requires forall i :: 0 <= i < |s| ==> s[i] != '&' && s[i] != '<' && s[i] != '>' && s[i] != Nbsp
    ensures Escape(s) == s
    decreases |s|
  {
    if |s| > 0 {
      EscapePlain(s[1..]);
    }
  }

  /** The characters the four references are spelled with. */
  predicate IsRefChar(c: char)
  {
    c == '&' || c == ';' || c == 'a' || c == 'm' || c == 'p' || c == 'n'
    || c == 'b' || c == 's' || c == 'l' || c == 't' || c == 'g'
  }

  /** Every character of the escaped text comes from the input or from one
      of the four references. */
  lemma {:induction false} EscapeChars(s: string)
    ensures forall x :: x in Escape(s) ==> x in s || IsRefChar(x)
    decreases |s|
  {
    if |s| > 0 {
      EscapeChars(s[1..]);
      var e := EscapeChar(s[0]);
      assert Escape(s) == e + Escape(s[1..]);
      assert forall x :: x in e ==> x == s[0] || IsRefChar(x);
      assert forall x :: x in s[1..] ==> x in s;
    }
  }
}
