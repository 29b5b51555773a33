/** `escapeXml` of the build script: five global replacements, `&` first,
    producing the predefined entities of XML 1.0 (section 4.6, predefined
    entities) for `&`, `<`, `>`, `"` and `'`. */
module XmlEscape {
  import opened Text

  /** One of the five characters XML 1.0 section 4.6 predefines entities for. */
  predicate IsXmlSpecial(c: char)
  {
    c == '&' || c == '<' || c == '>' || c == '"' || c == '\''
  }

  /** One `.replace(/c/g, rep)` pass. */
  function ReplaceChar(s: string, c: char, rep: string): string
  {
    ReplaceAll(s, [c], rep)
  }

  /** The five passes exactly as the source chains them. */
  function FivePasses(s: string): string
  {
    var a := ReplaceChar(s, '&', "&amp;");
    var b := ReplaceChar(a, '<', "&lt;");
    var c := ReplaceChar(b, '>', "&gt;");
    var d := ReplaceChar(c, '"', "&quot;");
    ReplaceChar(d, '\'', "&apos;")
  }

  function EntityOf(c: char): string
  {
    if c == '&' then "&amp;"
    else if c == '<' then "&lt;"
    else if c == '>' then "&gt;"
    else if c == '"' then "&quot;"
    else if c == '\'' then "&apos;"
    else [c]
  }

  /** Character-by-character reference escaper. */
  function EscapeEach(s: string): string
    decreases |s|
  {
    if |s| == 0 then "" else EntityOf(s[0]) + EscapeEach(s[1..])
  }

  /** Reads XML character data back, decoding the five predefined entities. */
  function Unescape(s: string): string
    decreases |s|
  {
    if |s| == 0 then ""
    else if StartsWith(s, "&amp;") then "&" + Unescape(s[5..])
    else if StartsWith(s, "&lt;") then "<" + Unescape(s[4..])
    else if StartsWith(s, "&gt;") then ">" + Unescape(s[4..])
    else if StartsWith(s, "&quot;") then "\"" + Unescape(s[6..])
    else if StartsWith(s, "&apos;") then "'" + Unescape(s[6..])
    else [s[0]] + Unescape(s[1..])
  }

  /** A single-character pass distributes over concatenation. */
  lemma {:induction false} ReplaceCharAppend(a: string, b: string, c: char, rep: string)
    ensures ReplaceChar(a + b, c, rep) == ReplaceChar(a, c, rep) + ReplaceChar(b, c, rep)
    decreases |a|
  {
    if |a| > 0 {
      assert (a + b)[1..] == a[1..] + b;
      assert (a + b)[0] == a[0];
      assert StartsWith(a + b, [c]) == StartsWith(a, [c]);
      ReplaceCharAppend(a[1..], b, c, rep);
    } else {
      assert a + b == b;
    }
  }

  /** A pass over text that lacks its character changes nothing. */
  lemma {:induction false} ReplaceCharAbsent(s: string, c: char, rep: string)
    requires forall i :: 0 <= i < |s| ==> s[i] != c
    ensures ReplaceChar(s, c, rep) == s
    decreases |s|
  {
    if |s| > 0 {
      assert s[..1] == [s[0]];
      assert !StartsWith(s, [c]);
      ReplaceCharAbsent(s[1..], c, rep);
    }
  }

  lemma {:induction false} ReplaceCharSingle(x: char, c: char, rep: string)
    ensures ReplaceChar([x], c, rep) == (if x == c then rep else [x])
  {
    assert [x][..1] == [x];
    assert [x][1..] == "";
    assert ReplaceAll("", [c], rep) == "";
  }

  /** The five chained passes, applied to one character. */
  lemma {:induction false} FivePassesChar(x: char)
    ensures FivePasses([x]) == EntityOf(x)
  {
    ReplaceCharSingle(x, '&', "&amp;");
    if x == '&' {
      FiveOfAmp();
    } else if x == '<' {
      FiveOfLt();
    } else if x == '>' {
      FiveOfGt();
    } else {
      ReplaceCharSingle(x, '<', "&lt;");
      ReplaceCharSingle(x, '>', "&gt;");
      ReplaceCharSingle(x, '"', "&quot;");
      if x == '"' {
        ReplaceCharAbsent("&quot;", '\'', "&apos;");
      } else {
        ReplaceCharSingle(x, '\'', "&apos;");
      }
    }
  }

  lemma {:induction false} FiveOfAmp()
    ensures FivePasses("&") == "&amp;"
  {
    ReplaceCharSingle('&', '&', "&amp;");
    var a := "&amp;";
    ReplaceCharAbsent(a, '<', "&lt;");
    ReplaceCharAbsent(a, '>', "&gt;");
    ReplaceCharAbsent(a, '"', "&quot;");
    ReplaceCharAbsent(a, '\'', "&apos;");
  }

  lemma {:induction false} FiveOfLt()
    ensures FivePasses("<") == "&lt;"
  {
    ReplaceCharSingle('<', '&', "&amp;");
    ReplaceCharSingle('<', '<', "&lt;");
    var b := "&lt;";
    ReplaceCharAbsent(b, '>', "&gt;");
    ReplaceCharAbsent(b, '"', "&quot;");
    ReplaceCharAbsent(b, '\'', "&apos;");
  }

  lemma {:induction false} FiveOfGt()
    ensures FivePasses(">") == "&gt;"
  {
    ReplaceCharSingle('>', '&', "&amp;");
    ReplaceCharSingle('>', '<', "&lt;");
    ReplaceCharSingle('>', '>', "&gt;");
    var c := "&gt;";
    ReplaceCharAbsent(c, '"', "&quot;");
    ReplaceCharAbsent(c, '\'', "&apos;");
  }

  lemma {:induction false} FivePassesAppend(a: string, b: string)
    ensures FivePasses(a + b) == FivePasses(a) + FivePasses(b)
  {
    var a1, b1 := ReplaceChar(a, '&', "&amp;"), ReplaceChar(b, '&', "&amp;");
    ReplaceCharAppend(a, b, '&', "&amp;");
    var a2, b2 := ReplaceChar(a1, '<', "&lt;"), ReplaceChar(b1, '<', "&lt;");
    ReplaceCharAppend(a1, b1, '<', "&lt;");
    var a3, b3 := ReplaceChar(a2, '>', "&gt;"), ReplaceChar(b2, '>', "&gt;");
    ReplaceCharAppend(a2, b2, '>', "&gt;");
    var a4, b4 := ReplaceChar(a3, '"', "&quot;"), ReplaceChar(b3, '"', "&quot;");
    ReplaceCharAppend(a3, b3, '"', "&quot;");
    ReplaceCharAppend(a4, b4, '\'', "&apos;");
  }

  /** The source's chain of five passes escapes each character on its own:
      the later passes never touch the entities the `&` pass produced. */
  lemma {:induction false} FivePassesIsCharwise(s: string)
    ensures FivePasses(s) == EscapeEach(s)
    decreases |s|
  {
    if |s| == 0 {
      ReplaceCharAbsent("", '&', "&amp;");
      ReplaceCharAbsent("", '<', "&lt;");
      ReplaceCharAbsent("", '>', "&gt;");
      ReplaceCharAbsent("", '"', "&quot;");
      ReplaceCharAbsent("", '\'', "&apos;");
    } else {
      assert s == [s[0]] + s[1..];
      FivePassesAppend([s[0]], s[1..]);
      FivePassesChar(s[0]);
      FivePassesIsCharwise(s[1..]);
    }
  }

  lemma {:induction false} EscapeEachHasNoSpecials(s: string)
    ensures forall i :: 0 <= i < |EscapeEach(s)| ==>
              var c := EscapeEach(s)[i]; c != '<' && c != '>' && c != '"' && c != '\''
    decreases |s|
  {
    if |s| > 0 {
      EscapeEachHasNoSpecials(s[1..]);
      var e := EntityOf(s[0]);
      var rest := EscapeEach(s[1..]);
      forall i | 0 <= i < |e + rest|
        ensures var c := (e + rest)[i]; c != '<' && c != '>' && c != '"' && c != '\''
      {
        if i >= |e| {
          assert (e + rest)[i] == rest[i - |e|];
        }
      }
    }
  }

  lemma {:induction false} UnescapeAfterEntity(c: char, rest: string)
    ensures Unescape(EntityOf(c) + rest) == [c] + Unescape(rest)
  {
    if c == '&' {
      UnescapeAmp(rest);
    } else if c == '<' {
      UnescapeLt(rest);
    } else if c == '>' {
      UnescapeGt(rest);
    } else if c == '"' {
      UnescapeQuot(rest);
    } else if c == '\'' {
      UnescapeApos(rest);
    } else {
      var t := [c] + rest;
      assert t[0] == c && t[1..] == rest;
      NotAnEntity(t, "&amp;");
      NotAnEntity(t, "&lt;");
      NotAnEntity(t, "&gt;");
      NotAnEntity(t, "&quot;");
      NotAnEntity(t, "&apos;");
    }
  }

  lemma {:induction false} UnescapeAmp(rest: string)
    ensures Unescape("&amp;" + rest) == "&" + Unescape(rest)
  {
    var t := "&amp;" + rest;
    assert t[..5] == "&amp;" && t[5..] == rest;
  }

  lemma {:induction false} UnescapeLt(rest: string)
    ensures Unescape("&lt;" + rest) == "<" + Unescape(rest)
  {
    var t := "&lt;" + rest;
    assert t[..4] == "&lt;" && t[4..] == rest;
    NotThere(t, "&amp;", 1);
  }

  lemma {:induction false} UnescapeGt(rest: string)
    ensures Unescape("&gt;" + rest) == ">" + Unescape(rest)
  {
    var t := "&gt;" + rest;
    assert t[..4] == "&gt;" && t[4..] == rest;
    NotThere(t, "&amp;", 1);
    NotThere(t, "&lt;", 1);
  }

  lemma {:induction false} UnescapeQuot(rest: string)
    ensures Unescape("&quot;" + rest) == "\"" + Unescape(rest)
  {
    var t := "&quot;" + rest;
    assert t[..6] == "&quot;" && t[6..] == rest;
    NotThere(t, "&amp;", 1);
    NotThere(t, "&lt;", 1);
    NotThere(t, "&gt;", 1);
  }

  lemma {:induction false} UnescapeApos(rest: string)
    ensures Unescape("&apos;" + rest) == "'" + Unescape(rest)
  {
    var t := "&apos;" + rest;
    assert t[..6] == "&apos;" && t[6..] == rest;
    NotThere(t, "&amp;", 2);
    NotThere(t, "&lt;", 1);
    NotThere(t, "&gt;", 1);
    NotThere(t, "&quot;", 1);
  }

  /** Text that differs from an entity at some position does not start
      with it. */
  lemma {:induction false} NotThere(t: string, entity: string, i: nat)
    requires i < |entity| && i < |t| && t[i] != entity[i]
    ensures !StartsWith(t, entity)
  {
    if |entity| <= |t| {
      assert t[..|entity|][i] == t[i];
    }
  }

  /** Text that does not start with `&` starts with no entity. */
  lemma {:induction false} NotAnEntity(t: string, entity: string)
    requires |t| > 0 && t[0] != '&' && |entity| > 0 && entity[0] == '&'
    ensures !StartsWith(t, entity)
  {
    if |entity| <= |t| {
      assert t[..|entity|][0] == t[0];
    }
  }

  lemma {:induction false} EscapeEachRoundTrip(s: string)
    ensures Unescape(EscapeEach(s)) == s
    decreases |s|
  {
    if |s| > 0 {
      UnescapeAfterEntity(s[0], EscapeEach(s[1..]));
      EscapeEachRoundTrip(s[1..]);
    }
  }

  /** `escapeXml(unsafe)`: falsy input gives `''`; otherwise the five passes.
      The result has no raw `<`, `>`, `"` or `'`, and decoding the predefined
      entities gives back the input. */
  function EscapeXml(unsafe: string): (r: string)
    ensures forall i :: 0 <= i < |r| ==> r[i] != '<' && r[i] != '>' && r[i] != '"' && r[i] != '\''
    ensures Unescape(r) == unsafe
  {
    if |unsafe| == 0 then ""
    else
      FivePassesIsCharwise(unsafe);
      EscapeEachHasNoSpecials(unsafe);
      EscapeEachRoundTrip(unsafe);
      FivePasses(unsafe)
  }
}
