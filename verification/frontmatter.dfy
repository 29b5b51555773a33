/** The two frontmatter parsers: `parseFrontmatter` of the client
    (js/markdown-parser.js) and the inline parser of `buildBlogIndex`
    (build/build.js). Both split the block into lines, split each line at
    its first `:`, and store trimmed keys left to right; they differ in the
    block delimiters and in what a bracketed value becomes. */
module Frontmatter {
  import opened Text

  /** A stored value: a string or, in the build parser, a list of strings. */
  datatype Value = Str(s: string) | List(items: seq<string>)

  /** `String(value)`: an array's elements joined with commas. */
  function ValueText(v: Value): string
  {
    match v
    case Str(s) => s
    case List(items) => Join(items, ",")
  }

  /** `slice(1, -1)`: drops the first and last character; fewer than two
      characters give the empty string. */
  function Inner(v: string): (r: string)
    ensures |v| >= 2 ==> v == v[..1] + r + v[|v| - 1..]
    ensures |v| < 2 ==> r == ""
  {
    if |v| >= 2 then v[1..|v| - 1] else ""
  }

  predicate Bracketed(v: string)
  {
    StartsWith(v, "[") && EndsWith(v, "]")
  }

  predicate Quoted(v: string)
  {
    StartsWith(v, "\"") && EndsWith(v, "\"")
  }

  /** `const [key, ...valueParts] = line.split(':')` and the guard
      `key && valueParts.length > 0`: the trimmed key and the trimmed,
      re-joined value, or None when the line is skipped. */
  function SplitLine(line: string): Option<(string, string)>
  {
    var parts := Split(line, ":");
    if parts[0] != "" && |parts| > 1 then Some((Trim(parts[0]), Trim(Join(parts[1..], ":"))))
    else None
  }

  /** A line is split at its FIRST colon; the value keeps any later colons.
      It is skipped exactly when it has no colon or the colon comes first. */
  lemma {:induction false} SplitLineAtFirstColon(line: string)
    ensures var k := FindChar(line, ':', 0);
            SplitLine(line) == if 0 < k < |line| then Some((Trim(line[..k]), Trim(line[k + 1..]))) else None
  {
    var k := FindChar(line, ':', 0);
    FindCharSkips(line, ':', 0);
    if k < |line| {
      var a, b := line[..k], line[k + 1..];
      assert ':' !in a by {
        forall j | 0 <= j < |a| ensures a[j] != ':' { assert a[j] == line[j]; }
      }
      assert line == a + [':'] + b;
      SplitAtChar(a, ':', b);
      SplitLineParts(line, a, Split(b, ":"));
      JoinSplit(b, ":");
    } else {
      assert ':' !in line;
      SplitAbsent(line, ':');
      SplitLineParts(line, line, []);
    }
  }

  lemma {:induction false} SplitLineParts(line: string, a: string, rest: seq<string>)
    requires Split(line, ":") == [a] + rest
    ensures SplitLine(line) == if a != "" && |rest| > 0 then Some((Trim(a), Trim(Join(rest, ":")))) else None
  {
    assert (([a] + rest)[1..]) == rest;
  }

  /** A line after `SplitLine`: a key and its raw value, or None. */
  type Entry = Option<(string, string)>

  function Entries(lines: seq<string>): (es: seq<Entry>)
    ensures |es| == |lines|
  {
    seq(|lines|, i requires 0 <= i < |lines| => SplitLine(lines[i]))
  }

  predicate HasKey(e: Entry, k: string)
  {
    e.Some? && e.value.0 == k
  }

  /** Reference definition of duplicate handling: the raw value of the LAST
      entry whose key is `k`. */
  function LastFor(es: seq<Entry>, k: string): (r: Option<string>)
    ensures r.Some? ==> exists i :: 0 <= i < |es| && HasKey(es[i], k) && es[i].value.1 == r.value
                          && forall j :: i < j < |es| ==> !HasKey(es[j], k)
    ensures r.None? ==> forall i :: 0 <= i < |es| ==> !HasKey(es[i], k)
    decreases |es|
  {
    if |es| == 0 then None
    else if HasKey(es[|es| - 1], k) then Some(es[|es| - 1].value.1)
    else
      var init := es[..|es| - 1];
      var r := LastFor(init, k);
      assert forall i :: 0 <= i < |init| ==> init[i] == es[i];
      r
  }

  /** Assigning to this key of a plain object sets the object's prototype
      (to an array value) or does nothing (to a string value); no property
      of that name is stored, and the fields the site reads are unaffected. */
  const ProtoKey: string := "__proto__"

  /** The `forEach` over the lines: every entry stores its converted value
      under its key, later entries overwriting earlier ones, except that the
      value of a `__proto__` line is converted but not stored. `conv` gives
      the value to store, or None when converting throws, which aborts the
      whole parse. */
  function Collect<V>(es: seq<Entry>, acc: map<string, V>, conv: string -> Option<V>): Option<map<string, V>>
    decreases |es|
  {
    if |es| == 0 then Some(acc)
    else
      match Collect(es[..|es| - 1], acc, conv)
      case None => None
      case Some(m) =>
        match es[|es| - 1]
        case None => Some(m)
        case Some((k, v)) =>
          match conv(v)
          case None => None
          case Some(x) => if k == ProtoKey then Some(m) else Some(m[k := x])
  }

  /** Whether some entry's value fails to convert. */
  predicate Fails<V>(es: seq<Entry>, conv: string -> Option<V>)
  {
    exists i :: 0 <= i < |es| && es[i].Some? && conv(es[i].value.1).None?
  }

  /** The parse aborts exactly when some entry's value fails to convert. */
  lemma {:induction false} CollectThrowsIff<V>(es: seq<Entry>, acc: map<string, V>, conv: string -> Option<V>)
    ensures Collect(es, acc, conv).None? <==> Fails(es, conv)
    decreases |es|
  {
    if |es| > 0 {
      var init := es[..|es| - 1];
      CollectThrowsIff(init, acc, conv);
      assert forall i :: 0 <= i < |init| ==> init[i] == es[i];
      if Fails(es, conv) && !Fails(init, conv) {
        var i :| 0 <= i < |es| && es[i].Some? && conv(es[i].value.1).None?;
        assert i == |es| - 1;
      }
    }
  }

  /** When the parse completes, a key other than `__proto__` holds the
      converted value of its last entry; other keys keep their prior value. */
  lemma {:induction false} CollectLastWins<V>(es: seq<Entry>, acc: map<string, V>, conv: string -> Option<V>)
    requires Collect(es, acc, conv).Some?
    ensures var m := Collect(es, acc, conv).value;
            forall k :: (k in m <==> k in acc || (k != ProtoKey && LastFor(es, k).Some?))
                        && (k != ProtoKey && LastFor(es, k).Some? ==> Some(m[k]) == conv(LastFor(es, k).value))
                        && ((k == ProtoKey || LastFor(es, k).None?) && k in acc ==> m[k] == acc[k])
    decreases |es|
  {
    if |es| > 0 {
      var init := es[..|es| - 1];
      CollectLastWins(init, acc, conv);
      var m0, m := Collect(init, acc, conv).value, Collect(es, acc, conv).value;
      forall k ensures LastFor(es, k) == if HasKey(es[|es| - 1], k) then Some(es[|es| - 1].value.1) else LastFor(init, k) {
      }
      match es[|es| - 1]
      case None =>
        assert m == m0;
      case Some((k0, v)) =>
        assert m == if k0 == ProtoKey then m0 else m0[k0 := conv(v).value];
    }
  }

  // ---------------------------------------------------------------------
  // The client parser (js/markdown-parser.js).

  datatype Parsed = Parsed(metadata: map<string, string>, content: string)

  /** A bracketed value becomes an array, and calling `startsWith` on that
      array throws; a quoted value loses its quotes. */
  function ClientValue(v: string): Option<string>
  {
    if Bracketed(v) then None
    else if Quoted(v) then Some(Inner(v))
    else Some(v)
  }

  /** `/^---\n([\s\S]*?)\n---\n([\s\S]*)$/`: where the closing `\n---\n`
      starts, the first one after the opening `---\n`. */
  function ClientBlockEnd(md: string): Option<nat>
  {
    if StartsWith(md, "---\n") then FindFrom(md, "\n---\n", 4) else None
  }

  function ParseFrontmatter(md: string): (r: Outcome<Parsed>)
    ensures ClientBlockEnd(md).None? ==> r == Returns(Parsed(map[], md))
    ensures r.Throws? ==> r.error == TypeError
  {
    match ClientBlockEnd(md)
    case None => Returns(Parsed(map[], md))
    case Some(k) =>
      match Collect(Entries(Split(md[4..k], "\n")), map[], ClientValue)
      case None => Throws(TypeError)
      case Some(m) => Returns(Parsed(m, md[k + 5..]))
  }

  /** Whether some entry's value is bracketed. */
  predicate HasListValue(es: seq<Entry>)
  {
    exists i :: 0 <= i < |es| && es[i].Some? && Bracketed(es[i].value.1)
  }

  /** The client parser throws exactly when the block has a well-formed line
      with a bracketed value (`Entries` are the split lines). */
  lemma {:induction false} ClientThrowsOnLists(md: string)
    requires ClientBlockEnd(md).Some?
    ensures ParseFrontmatter(md).Throws? <==> HasListValue(Entries(Split(md[4..ClientBlockEnd(md).value], "\n")))
  {
    var k := ClientBlockEnd(md).value;
    var es := Entries(Split(md[4..k], "\n"));
    assert ParseFrontmatter(md).Throws? <==> Collect(es, map[], ClientValue).None?;
    ClientCollectThrows(es);
  }

  lemma {:induction false} ClientCollectThrows(es: seq<Entry>)
    ensures Collect(es, map[], ClientValue).None? <==> HasListValue(es)
  {
    CollectThrowsIff(es, map[], ClientValue);
    assert forall i :: 0 <= i < |es| && es[i].Some? ==> (ClientValue(es[i].value.1).None? <==> Bracketed(es[i].value.1));
  }

  /** A document with a block: the content is everything after the closing
      `---\n`, and each key other than `__proto__` holds its last line's
      value without surrounding quotes. */
  lemma {:induction false} ClientMetadata(md: string)
    requires ClientBlockEnd(md).Some? && ParseFrontmatter(md).Returns?
    ensures var k := ClientBlockEnd(md).value;
            var es := Entries(Split(md[4..k], "\n"));
            var p := ParseFrontmatter(md).value;
            && md == "---\n" + md[4..k] + "\n---\n" + p.content
            && forall key :: (key in p.metadata <==> key != ProtoKey && LastFor(es, key).Some?)
                             && (key != ProtoKey && LastFor(es, key).Some? ==>
                                   Some(p.metadata[key]) == ClientValue(LastFor(es, key).value))
  {
    var k := ClientBlockEnd(md).value;
    var es := Entries(Split(md[4..k], "\n"));
    CollectLastWins(es, map[], ClientValue);
    assert md[..4] == "---\n";
    assert md[k..k + 5] == "\n---\n";
    assert md == md[..4] + md[4..k] + md[k..k + 5] + md[k + 5..];
  }

  // ---------------------------------------------------------------------
  // The build parser (build/build.js).

  /** A bracketed value becomes the list of its trimmed comma-separated
      pieces; only a string value loses surrounding quotes. */
  function BuildValue(v: string): Value
  {
    if Bracketed(v) then List(MapSeq(Trim, Split(Inner(v), ",")))
    else if Quoted(v) then Str(Inner(v))
    else Str(v)
  }

  function BuildConv(v: string): Option<Value>
  {
    Some(BuildValue(v))
  }

  /** `/^---\n([\s\S]*?)\n---/`: where the block ends, the first `\n---`
      after the opening `---\n`; no newline is needed after it. */
  function BuildBlockEnd(content: string): Option<nat>
  {
    if StartsWith(content, "---\n") then FindFrom(content, "\n---", 4) else None
  }

  /** The metadata of a post file, or None when the file has no block and
      is skipped. */
  function BuildFrontmatter(content: string): (r: Option<map<string, Value>>)
    ensures r.Some? <==> BuildBlockEnd(content).Some?
  {
    match BuildBlockEnd(content)
    case None => None
    case Some(k) =>
      var es := Entries(Split(content[4..k], "\n"));
      CollectThrowsIff(es, map[], BuildConv);
      Collect(es, map[], BuildConv)
  }

  /** Each key of a post's metadata other than `__proto__` holds the
      converted value of its last well-formed line. */
  lemma {:induction false} BuildMetadata(content: string)
    requires BuildBlockEnd(content).Some?
    ensures var es := Entries(Split(content[4..BuildBlockEnd(content).value], "\n"));
            var m := BuildFrontmatter(content).value;
            forall key :: (key in m <==> key != ProtoKey && LastFor(es, key).Some?)
                          && (key != ProtoKey && LastFor(es, key).Some? ==> m[key] == BuildValue(LastFor(es, key).value))
  {
    var es := Entries(Split(content[4..BuildBlockEnd(content).value], "\n"));
    CollectThrowsIff(es, map[], BuildConv);
    CollectLastWins(es, map[], BuildConv);
  }

  /** `[]` is a list with one empty element. */
  lemma {:induction false} EmptyListValue()
    ensures BuildValue("[]") == List([""])
  {
    assert Bracketed("[]");
    assert Inner("[]") == "";
    assert Split("", ",") == [""];
    assert Trim("") == "";
  }

  /** Quotes inside list elements are kept. */
  lemma {:induction false} QuotedListValue()
    ensures BuildValue("[\"x\"]") == List(["\"x\""])
  {
    var q := "\"x\"";
    QuotedListInner();
    assert ',' !in q;
    SplitAbsent(q, ',');
    assert Trim(q) == q by {
      assert NoSpaceEnds(q);
      TrimOfTrimmed(q);
    }
    assert MapSeq(Trim, [q]) == [q];
  }

  lemma {:induction false} QuotedListInner()
    ensures Bracketed("[\"x\"]")
    ensures Inner("[\"x\"]") == "\"x\""
  {
    var v := "[\"x\"]";
    assert v[..1] == "[" && v[|v| - 1..] == "]";
  }

  /** `content.replace(/^---\n[\s\S]*?\n---\n/, '')`: the post body, which
      needs a newline after the closing `---`. */
  function StripBlock(content: string): (body: string)
    ensures body == content || (StartsWith(content, "---\n") && EndsWith(content, body) && |body| + 9 <= |content|)
  {
    if StartsWith(content, "---\n") then
      match FindFrom(content, "\n---\n", 4)
      case None => content
      case Some(k) => content[k + 5..]
    else content
  }

  /** A block whose text `m` holds no `\n---\n` before the closing
      delimiter is removed whole, and the rest of the text is the body. */
  lemma {:induction false} StripBlockOf(m: string, b: string)
    requires !Contains(m + "\n---", "\n---\n")
    ensures var s := "---\n" + m + "\n---\n" + b;
            ClientBlockEnd(s) == Some(4 + |m|) && StripBlock(s) == b
  {
    var s := "---\n" + m + "\n---\n" + b;
    var x := m + "\n---";
    var n := 4 + |m|;
    assert s[..4] == "---\n";
    assert s[n..n + 5] == "\n---\n";
    assert s[4..n + 4] == x;
    forall j | 4 <= j < n
      ensures !OccursAt(s, "\n---\n", j)
    {
      assert s[j..j + 5] == x[j - 4..j + 1];
      assert !OccursAt(x, "\n---\n", j - 4);
    }
    FindFromAt(s, "\n---\n", 4, n);
    assert s[n + 5..] == b;
  }

  /** Conversely, a text with a block is the opening `---\n`, a block text
      without an earlier `\n---\n`, the closing `\n---\n` and the body. */
  lemma {:induction false} StripBlockParts(content: string)
    requires ClientBlockEnd(content).Some?
    ensures var k := ClientBlockEnd(content).value;
            4 <= k && k + 5 <= |content|
            && content == "---\n" + content[4..k] + "\n---\n" + StripBlock(content)
            && !Contains(content[4..k] + "\n---", "\n---\n")
  {
    var k := ClientBlockEnd(content).value;
    var x := content[4..k] + "\n---";
    assert content[k..k + 5] == "\n---\n";
    assert content[k..k + 4] == content[k..k + 5][..4] == "\n---";
    assert content[4..k + 4] == content[4..k] + content[k..k + 4];
    assert forall i :: 0 <= i < |x| ==> x[i] == content[4 + i];
    forall j | 0 <= j <= |x|
      ensures !OccursAt(x, "\n---\n", j)
    {
      if OccursAt(x, "\n---\n", j) {
        assert content[4 + j..9 + j] == x[j..j + 5];
        assert 4 <= 4 + j < k && OccursAt(content, "\n---\n", 4 + j);
      }
    }
    assert content == content[..4] + content[4..k] + content[k..k + 5] + content[k + 5..];
  }

  /** The body is the whole text exactly when there is no block. */
  lemma {:induction false} StripBlockKeeps(content: string)
    ensures StripBlock(content) == content <==> ClientBlockEnd(content).None?
  {
  }
}
