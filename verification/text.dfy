/** String helpers shared by every module: the JavaScript notions of white
    space, trimming, substring search, `split`, `join` and literal global
    replacement, stated once and proved once. */
module Text {

  datatype Option<T> = None | Some(value: T)

  /** What a JavaScript exception carries, as far as the model needs it. */
  datatype Error =
    | TypeError                          // a method called on a value that lacks it
    | ApiError(status: int, url: string) // `GitHub API Error: {status} - {url}` (build)
    | StatusError(status: int)           // `GitHub API Error: {status}` (browser)
    | NetworkError                       // a rejected `fetch`
    | SyntaxError                        // a response body that is not JSON

  /** The outcome of a call that may throw. */
  datatype Outcome<T> = Returns(value: T) | Throws(error: Error)

  /** The characters that JavaScript's `\s` and `String.prototype.trim` treat
      as white space: ECMAScript WhiteSpace plus LineTerminator. */
  predicate IsJsSpace(c: char)
  {
    || c == '\t' || c == '\n' || c == '\U{000B}' || c == '\U{000C}' || c == '\r'
    || c == ' ' || c == '\U{00A0}' || c == '\U{1680}'
    || ('\U{2000}' <= c <= '\U{200A}')
    || c == '\U{2028}' || c == '\U{2029}' || c == '\U{202F}' || c == '\U{205F}'
    || c == '\U{3000}' || c == '\U{FEFF}'
  }

  /** The characters that end a line for the `^`, `$` and `.` of a JavaScript
      regular expression in multiline mode. */
  predicate IsLineTerminator(c: char)
  {
    c == '\n' || c == '\r' || c == '\U{2028}' || c == '\U{2029}'
  }

  predicate NoSpaceEnds(s: string)
  {
    |s| == 0 || (!IsJsSpace(s[0]) && !IsJsSpace(s[|s| - 1]))
  }

  predicate StartsWith(s: string, p: string)
  {
    |p| <= |s| && s[..|p|] == p
  }

  predicate EndsWith(s: string, p: string)
  {
    |p| <= |s| && s[|s| - |p|..] == p
  }

  /** `p` occurs in `s` starting at index `j`. */
  predicate OccursAt(s: string, p: string, j: int)
  {
    0 <= j && j + |p| <= |s| && s[j..j + |p|] == p
  }

  predicate Contains(s: string, p: string)
  {
    exists j :: 0 <= j <= |s| && OccursAt(s, p, j)
  }

  predicate HasChar(s: string, c: char)
  {
    exists i :: 0 <= i < |s| && s[i] == c
  }

  /** `String.prototype.trimStart`. */
  function TrimStart(s: string): (r: string)
    ensures |r| <= |s| && r == s[|s| - |r|..]
    ensures forall i :: 0 <= i < |s| - |r| ==> IsJsSpace(s[i])
    ensures |r| > 0 ==> !IsJsSpace(r[0])
    decreases |s|
  {
    if |s| > 0 && IsJsSpace(s[0]) then TrimStart(s[1..]) else s
  }

  /** `String.prototype.trimEnd`. */
  function TrimEnd(s: string): (r: string)
    ensures |r| <= |s| && r == s[..|r|]
    ensures forall i :: |r| <= i < |s| ==> IsJsSpace(s[i])
    ensures |r| > 0 ==> !IsJsSpace(r[|r| - 1])
    decreases |s|
  {
    if |s| > 0 && IsJsSpace(s[|s| - 1]) then TrimEnd(s[..|s| - 1]) else s
  }

  /** Number of white-space characters `trim` drops from the front. */
  function Lead(s: string): nat
  {
    |s| - |TrimStart(s)|
  }

  /** `String.prototype.trim`: the infix of `s` left after dropping white
      space at both ends; it neither starts nor ends with white space. */
  function Trim(s: string): (r: string)
    ensures NoSpaceEnds(r)
    ensures Lead(s) + |r| <= |s| && r == s[Lead(s)..Lead(s) + |r|]
    ensures forall k :: 0 <= k < Lead(s) ==> IsJsSpace(s[k])
    ensures forall k :: Lead(s) + |r| <= k < |s| ==> IsJsSpace(s[k])
  {
    var a := TrimStart(s);
    var r := TrimEnd(a);
    TrimParts(s, a, r);
    r
  }

  /** What trimming both ends amounts to, from what each end's trimming
      promises. */
  lemma {:induction false} TrimParts(s: string, a: string, r: string)
    requires |a| <= |s| && a == s[|s| - |a|..] && |r| <= |a| && r == a[..|r|]
    requires forall k :: |r| <= k < |a| ==> IsJsSpace(a[k])
    requires |a| > 0 ==> !IsJsSpace(a[0])
    requires |r| > 0 ==> !IsJsSpace(r[|r| - 1])
    ensures NoSpaceEnds(r)
    ensures |s| - |a| + |r| <= |s| && r == s[|s| - |a|..|s| - |a| + |r|]
    ensures forall k :: |s| - |a| + |r| <= k < |s| ==> IsJsSpace(s[k])
  {
    var i := |s| - |a|;
    assert r == s[i..i + |r|] by {
      assert a[..|r|] == s[i..i + |r|];
    }
    forall k | i + |r| <= k < |s| ensures IsJsSpace(s[k]) {
      assert s[k] == a[k - i];
    }
    if |r| > 0 {
      assert r[0] == a[0];
    }
  }

  lemma {:induction false} TrimOfTrimmed(s: string)
    requires NoSpaceEnds(s)
    ensures Trim(s) == s
  {
  }

  /** Index of the first occurrence of `p` in `s` at or after `from`. */
  function FindFrom(s: string, p: string, from: nat): (k: Option<nat>)
    requires |p| > 0
    ensures k.Some? ==> from <= k.value && OccursAt(s, p, k.value)
                        && forall j :: from <= j < k.value ==> !OccursAt(s, p, j)
    ensures k.None? ==> forall j :: from <= j ==> !OccursAt(s, p, j)
    decreases |s| - from
  {
    if from + |p| > |s| then None
    else if s[from..from + |p|] == p then Some(from)
    else FindFrom(s, p, from + 1)
  }

  /** Locating a pattern: it occurs at `k` and nowhere between `from` and `k`. */
  lemma {:induction false} FindFromAt(s: string, p: string, from: nat, k: nat)
    requires |p| > 0 && from <= k && OccursAt(s, p, k)
    requires forall j :: from <= j < k ==> !OccursAt(s, p, j)
    ensures FindFrom(s, p, from) == Some(k)
  {
    match FindFrom(s, p, from)
    case None =>
    case Some(r) =>
  }

  /** Index of the first `c` in `s` at or after `from`, or `|s|` if none. */
  function FindChar(s: string, c: char, from: nat): (k: nat)
    requires from <= |s|
    ensures from <= k <= |s|
    ensures k < |s| ==> s[k] == c
    decreases |s| - from
  {
    if from == |s| then |s|
    else if s[from] == c then from
    else FindChar(s, c, from + 1)
  }

  /** Nothing before the index `FindChar` returns holds `c`. */
  lemma {:induction false} FindCharSkips(s: string, c: char, from: nat)
    requires from <= |s|
    ensures forall j :: from <= j < FindChar(s, c, from) ==> s[j] != c
    decreases |s| - from
  {
    if from < |s| && s[from] != c {
      FindCharSkips(s, c, from + 1);
    }
  }

  /** Locating a character: `k` holds `c` (or is the end) and nothing
      between `from` and `k` does. */
  lemma {:induction false} FindCharAt(s: string, c: char, from: nat, k: nat)
    requires from <= k <= |s|
    requires c !in s[from..k]
    requires k < |s| ==> s[k] == c
    ensures FindChar(s, c, from) == k
    decreases k - from
  {
    if from < k {
      assert s[from..k] == [s[from]] + s[from + 1..k];
      FindCharAt(s, c, from + 1, k);
    }
  }

  /** `Array.prototype.map` over strings. */
  function MapSeq(f: string -> string, xs: seq<string>): (ys: seq<string>)
    ensures |ys| == |xs| && forall i :: 0 <= i < |xs| ==> ys[i] == f(xs[i])
  {
    seq(|xs|, i requires 0 <= i < |xs| => f(xs[i]))
  }

  /** `Array.prototype.join(sep)`. */
  function Join(parts: seq<string>, sep: string): (r: string)
    decreases |parts|
  {
    if |parts| == 0 then ""
    else if |parts| == 1 then parts[0]
    else parts[0] + sep + Join(parts[1..], sep)
  }

  /** `String.prototype.split(sep)` for a non-empty separator: the pieces
      between the leftmost non-overlapping occurrences of `sep`. */
  function Split(s: string, sep: string): (parts: seq<string>)
    requires |sep| > 0
    ensures |parts| >= 1
    ensures forall i :: 0 <= i < |parts| ==> !Contains(parts[i], sep)
    decreases |s|
  {
    match FindFrom(s, sep, 0)
    case None => [s]
    case Some(k) =>
      var head := s[..k];
      assert !Contains(head, sep) by {
        forall j | OccursAt(head, sep, j) ensures false {
          assert s[j..j + |sep|] == head[j..j + |sep|];
          assert OccursAt(s, sep, j);
        }
      }
      [head] + Split(s[k + |sep|..], sep)
  }

  /** A string without the separator character splits into itself. */
  lemma {:induction false} SplitAbsent(s: string, c: char)
    requires c !in s
    ensures Split(s, [c]) == [s]
  {
    forall j | 0 <= j ensures !OccursAt(s, [c], j) {
      if j + 1 <= |s| {
        assert s[j..j + 1][0] == s[j];
      }
    }
  }

  /** Splitting at a character: the text before its first occurrence is the
      first piece, and the rest is split on its own. */
  lemma {:induction false} SplitAtChar(a: string, c: char, b: string)
    requires c !in a
    ensures Split(a + [c] + b, [c]) == [a] + Split(b, [c])
  {
    var s := a + [c] + b;
    assert s[|a|..|a| + 1] == [c];
    forall j | 0 <= j < |a| ensures !OccursAt(s, [c], j) {
      assert s[j..j + 1][0] == a[j];
    }
    FindFromAt(s, [c], 0, |a|);
    assert s[..|a|] == a && s[|a| + 1..] == b;
  }

  /** Splitting and re-joining with the same separator gives back the input. */
  lemma {:induction false} JoinSplit(s: string, sep: string)
    requires |sep| > 0
    ensures Join(Split(s, sep), sep) == s
    decreases |s|
  {
    var parts := Split(s, sep);
    match FindFrom(s, sep, 0)
    case None =>
      assert parts == [s];
    case Some(k) =>
      var rest := s[k + |sep|..];
      var tail := Split(rest, sep);
      assert parts == [s[..k]] + tail;
      JoinSplit(rest, sep);
      assert parts[1..] == tail;
      assert |parts| >= 2;
      assert Join(parts, sep) == s[..k] + sep + Join(tail, sep);
      assert s == s[..k] + sep + rest;
  }

  /** Global replacement of the literal `p` by `r`, scanning left to right
      (a JavaScript `replace` with a `/g` regex that has no special
      characters, or `replaceAll` with a string pattern). */
  function ReplaceAll(s: string, p: string, r: string): string
    requires |p| > 0
    decreases |s|
  {
    if |s| == 0 then ""
    else if StartsWith(s, p) then r + ReplaceAll(s[|p|..], p, r)
    else [s[0]] + ReplaceAll(s[1..], p, r)
  }

  lemma {:induction false} ReplaceAllSkips(s: string, p: string, r: string, k: nat)
    requires |p| > 0 && k <= |s|
    requires forall j :: 0 <= j < k ==> !OccursAt(s, p, j)
    ensures ReplaceAll(s, p, r) == s[..k] + ReplaceAll(s[k..], p, r)
    decreases k
  {
    if k > 0 {
      assert !OccursAt(s, p, 0);
      assert !StartsWith(s, p);
      var t := s[1..];
      forall j | 0 <= j < k - 1 ensures !OccursAt(t, p, j) {
        if OccursAt(t, p, j) {
          assert s[j + 1..j + 1 + |p|] == t[j..j + |p|];
          assert OccursAt(s, p, j + 1);
        }
      }
      ReplaceAllSkips(t, p, r, k - 1);
      assert t[k - 1..] == s[k..];
      assert [s[0]] + t[..k - 1] == s[..k];
    }
  }

  /** Replacement copies everything before the first occurrence, then the
      replacement, then carries on after the occurrence. */
  lemma {:induction false} ReplaceAllAtFirst(s: string, p: string, r: string, k: nat)
    requires |p| > 0 && FindFrom(s, p, 0) == Some(k)
    ensures ReplaceAll(s, p, r) == s[..k] + r + ReplaceAll(s[k + |p|..], p, r)
  {
    var t := s[k..];
    var tail := ReplaceAll(s[k + |p|..], p, r);
    ReplaceAllSkips(s, p, r, k);
    assert ReplaceAll(t, p, r) == r + tail by {
      assert OccursAt(s, p, k);
      assert StartsWith(t, p) by {
        assert t[..|p|] == s[k..k + |p|];
      }
      assert t[|p|..] == s[k + |p|..];
    }
  }

  /** Literal global replacement is the same as splitting on the pattern and
      joining with the replacement. */
  lemma {:induction false} ReplaceAllIsSplitJoin(s: string, p: string, r: string)
    requires |p| > 0
    ensures ReplaceAll(s, p, r) == Join(Split(s, p), r)
    decreases |s|
  {
    match FindFrom(s, p, 0)
    case None =>
      ReplaceAllAbsent(s, p, r);
    case Some(k) =>
      var rest := s[k + |p|..];
      var parts := Split(s, p);
      assert parts[1..] == Split(rest, p);
      ReplaceAllAtFirst(s, p, r, k);
      ReplaceAllIsSplitJoin(rest, p, r);
  }

  /** Without an occurrence of the pattern, replacement changes nothing. */
  lemma {:induction false} ReplaceAllAbsent(s: string, p: string, r: string)
    requires |p| > 0 && FindFrom(s, p, 0).None?
    ensures ReplaceAll(s, p, r) == s
  {
    ReplaceAllSkips(s, p, r, |s|);
    assert s[|s|..] == "";
  }

  /** A text without the pattern's first character is left alone. */
  lemma {:induction false} ReplaceAllNoLead(s: string, p: string, r: string)
    requires |p| > 0 && p[0] !in s
    ensures ReplaceAll(s, p, r) == s
  {
    forall j | 0 <= j ensures !OccursAt(s, p, j) {
      if j + |p| <= |s| {
        assert s[j..j + |p|][0] == s[j];
      }
    }
    ReplaceAllAbsent(s, p, r);
  }

  /** A single occurrence, with the pattern's first character nowhere else,
      is replaced in place. */
  lemma {:induction false} ReplaceAllOnce(a: string, p: string, b: string, r: string)
    requires |p| > 0 && p[0] !in a && p[0] !in b
    ensures ReplaceAll(a + p + b, p, r) == a + r + b
  {
    var s := a + p + b;
    forall j | 0 <= j < |a| ensures !OccursAt(s, p, j) {
      if j + |p| <= |s| {
        assert s[j..j + |p|][0] == a[j];
      }
    }
    assert OccursAt(s, p, |a|) by { assert s[|a|..|a| + |p|] == p; }
    FindFromAt(s, p, 0, |a|);
    ReplaceAllAtFirst(s, p, r, |a|);
    assert s[..|a|] == a && s[|a| + |p|..] == b;
    ReplaceAllNoLead(b, p, r);
  }

  function ReplaceFirst(s: string, p: string, r: string): (t: string)
    requires |p| > 0
  {
    match FindFrom(s, p, 0)
    case None => s
    case Some(k) => s[..k] + r + s[k + |p|..]
  }

  /** ASCII lower-casing, the part of `toLowerCase` the model relies on. */
  function LowerChar(c: char): char
  {
    if 'A' <= c <= 'Z' then (c as int + 32) as char else c
  }

  function Lower(s: string): (r: string)
    ensures |r| == |s|
    ensures forall i :: 0 <= i < |s| ==> r[i] == LowerChar(s[i])
  {
    seq(|s|, i requires 0 <= i < |s| => LowerChar(s[i]))
  }

  predicate IsDigit(c: char)
  {
    '0' <= c <= '9'
  }

  /** Decimal rendering of a natural number, as a template literal prints it. */
  function NatToString(n: nat): (r: string)
    ensures |r| > 0
    ensures forall i :: 0 <= i < |r| ==> IsDigit(r[i])
    decreases n
  {
    var d := ['0' + (n % 10) as char];
    if n < 10 then d else NatToString(n / 10) + d
  }

  /** Value of a string of decimal digits. */
  function DigitsValue(s: string): nat
    requires forall i :: 0 <= i < |s| ==> IsDigit(s[i])
    decreases |s|
  {
    if |s| == 0 then 0
    else assert IsDigit(s[|s| - 1]); DigitsValue(s[..|s| - 1]) * 10 + (s[|s| - 1] as int - '0' as int)
  }

  /** Reading back the decimal rendering gives the number. */
  lemma {:induction false} NatToStringRoundTrip(n: nat)
    ensures DigitsValue(NatToString(n)) == n
    decreases n
  {
    var r := NatToString(n);
    var d := ['0' + (n % 10) as char];
    if n >= 10 {
      NatToStringRoundTrip(n / 10);
      assert r[..|r| - 1] == NatToString(n / 10);
    }
  }
}
