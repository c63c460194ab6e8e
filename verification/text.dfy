/** String primitives of Rust's `str` that the cache subsystem relies on:
    whitespace trimming, ASCII case mapping, searching, splitting, joining,
    `lines()` and UTF-8 byte length. A Rust `String` is modelled as the
    sequence of its Unicode scalar values. */
module Text {
  import opened Wrappers
  import opened SeqFacts

  /** Rust's `char::is_whitespace`: the Unicode White_Space property. */
  predicate IsWhitespace(c: char) {
    var n := c as int;
    || 0x09 <= n <= 0x0D
    || n == 0x20 || n == 0x85 || n == 0xA0 || n == 0x1680
    || 0x2000 <= n <= 0x200A
    || n == 0x2028 || n == 0x2029 || n == 0x202F || n == 0x205F || n == 0x3000
  }

  predicate NoWhitespace(s: string) {
    forall i :: 0 <= i < |s| ==> !IsWhitespace(s[i])
  }

  predicate AllWhitespace(s: string) {
    forall i :: 0 <= i < |s| ==> IsWhitespace(s[i])
  }

  // ---------------------------------------------------------------------------
  // Case mapping (ASCII letters only)

  function LowerChar(c: char): char {
    if 'A' <= c <= 'Z' then (c as int + 32) as char else c
  }

  function UpperChar(c: char): char {
    if 'a' <= c <= 'z' then (c as int - 32) as char else c
  }

  /** `to_lowercase`, restricted to ASCII letters. */
  function ToLower(s: string): (r: string)
    ensures |r| == |s|
    ensures forall i :: 0 <= i < |s| ==> r[i] == LowerChar(s[i])
  {
    seq(|s|, i requires 0 <= i < |s| => LowerChar(s[i]))
  }

  /** `to_uppercase`, restricted to ASCII letters. */
  function ToUpper(s: string): (r: string)
    ensures |r| == |s|
    ensures forall i :: 0 <= i < |s| ==> r[i] == UpperChar(s[i])
  {
    seq(|s|, i requires 0 <= i < |s| => UpperChar(s[i]))
  }

  lemma ToLowerIdempotent(s: string)
    ensures ToLower(ToLower(s)) == ToLower(s)
  {
  }

  lemma ToUpperIdempotent(s: string)
    ensures ToUpper(ToUpper(s)) == ToUpper(s)
  {
  }

  lemma ToLowerAppend(a: string, b: string)
    ensures ToLower(a + b) == ToLower(a) + ToLower(b)
  {
  }

  // ---------------------------------------------------------------------------
  // Trimming

  /** No whitespace at either end. */
  predicate Trimmed(s: string) {
    s == [] || (!IsWhitespace(s[0]) && !IsWhitespace(s[|s| - 1]))
  }

  /** Number of whitespace characters at the start of `s`. */
  function LeadingWs(s: string): (k: nat)
    ensures k <= |s|
    ensures AllWhitespace(s[..k])
    ensures k == |s| || !IsWhitespace(s[k])
  {
    if |s| == 0 || !IsWhitespace(s[0]) then 0
    else
      var k' := LeadingWs(s[1..]);
      assert s[..k' + 1] == [s[0]] + s[1..][..k'];
      k' + 1
  }

  /** Number of whitespace characters at the end of `s`. */
  function TrailingWs(s: string): (k: nat)
    ensures k <= |s|
    ensures AllWhitespace(s[|s| - k..])
    ensures k == |s| || !IsWhitespace(s[|s| - k - 1])
  {
    if |s| == 0 || !IsWhitespace(s[|s| - 1]) then 0
    else
      var t := s[..|s| - 1];
      var k' := TrailingWs(t);
      assert s[|s| - (k' + 1)..] == t[|t| - k'..] + [s[|s| - 1]];
      k' + 1
  }

  /** `str::trim`: the slice between the leading and trailing whitespace. */
  function Trim(s: string): (r: string)
    ensures |r| <= |s|
    ensures r == [] || (!IsWhitespace(r[0]) && !IsWhitespace(r[|r| - 1]))
  {
    var a := LeadingWs(s);
    var t := s[a..];
    var b := TrailingWs(t);
    t[..|t| - b]
  }

  /** What `Trim` removes is whitespace: the result is the slice of `s`
      starting at `a`, with only whitespace before and after it. */
  lemma TrimSlice(s: string) returns (a: nat)
    ensures a + |Trim(s)| <= |s|
    ensures s[a..a + |Trim(s)|] == Trim(s)
    ensures AllWhitespace(s[..a]) && AllWhitespace(s[a + |Trim(s)|..])
  {
    a := LeadingWs(s);
    var t := s[a..];
    var b := TrailingWs(t);
    var r := t[..|t| - b];
    assert Trim(s) == r;
    SliceOfSuffix(s, a, |r|);
  }

  /** A string with no surrounding whitespace is its own trim. */
  lemma TrimOfTrimmed(s: string)
    requires s == [] || (!IsWhitespace(s[0]) && !IsWhitespace(s[|s| - 1]))
    ensures Trim(s) == s
  {
    assert LeadingWs(s) == 0;
    assert s[0..] == s;
    if s != [] {
      assert TrailingWs(s) == 0;
    }
  }

  lemma TrimIdempotent(s: string)
    ensures Trim(Trim(s)) == Trim(s)
  {
    TrimOfTrimmed(Trim(s));
  }

  // ---------------------------------------------------------------------------
  // Prefixes, suffixes, search

  predicate StartsWith(s: string, prefix: string) {
    |prefix| <= |s| && s[..|prefix|] == prefix
  }

  predicate EndsWith(s: string, suffix: string) {
    |suffix| <= |s| && s[|s| - |suffix|..] == suffix
  }

  /** `str::find` for a single character: the index of its first occurrence. */
  function Find(s: string, c: char): (r: Option<nat>)
    ensures r.None? <==> c !in s
    ensures r.Some? ==> r.value < |s| && s[r.value] == c && c !in s[..r.value]
  {
    if |s| == 0 then None
    else if s[0] == c then Some(0)
    else
      match Find(s[1..], c)
      case None => None
      case Some(i) =>
        assert s[..i + 1] == [s[0]] + s[1..][..i];
        Some(i + 1)
  }

  /** The first occurrence is the one with none before it. */
  lemma FindFirst(s: string, i: nat, c: char)
    requires i < |s| && s[i] == c && c !in s[..i]
    ensures Find(s, c) == Some(i)
  {
    assert s[i] in s;
    var j := Find(s, c).value;
    assert forall k :: 0 <= k < i ==> s[..i][k] == s[k];
    assert forall k :: 0 <= k < j ==> s[..j][k] == s[k];
  }

  /** `str::contains` for a string pattern. */
  predicate Contains(s: string, sub: string)
    decreases |s|
  {
    StartsWith(s, sub) || (|s| > 0 && Contains(s[1..], sub))
  }

  // ---------------------------------------------------------------------------
  // Splitting and joining

  /** `slice::join` with a separator. */
  function Join(parts: seq<string>, sep: string): string
    decreases |parts|
  {
    if |parts| == 0 then ""
    else if |parts| == 1 then parts[0]
    else parts[0] + sep + Join(parts[1..], sep)
  }

  /** `str::split` on one character: every piece, including empty ones. */
  function Split(s: string, c: char): (r: seq<string>)
    ensures |r| >= 1
    ensures forall i :: 0 <= i < |r| ==> c !in r[i]
    ensures Join(r, [c]) == s
    decreases |s|
  {
    match Find(s, c)
    case None => [s]
    case Some(i) =>
      var rest := Split(s[i + 1..], c);
      assert s == s[..i] + [c] + s[i + 1..];
      [s[..i]] + rest
  }

  /** Length of the maximal run of non-whitespace characters starting `s`. */
  function TokenLen(s: string): (n: nat)
    ensures n <= |s|
    ensures NoWhitespace(s[..n])
    ensures n == |s| || IsWhitespace(s[n])
  {
    if |s| == 0 || IsWhitespace(s[0]) then 0
    else
      var n' := TokenLen(s[1..]);
      assert s[..n' + 1] == [s[0]] + s[1..][..n'];
      n' + 1
  }

  /** `str::split_whitespace`: the non-empty whitespace-free tokens, in order. */
  function SplitWhitespace(s: string): (r: seq<string>)
    ensures forall i :: 0 <= i < |r| ==> |r[i]| > 0 && NoWhitespace(r[i])
    decreases |s|
  {
    var k := LeadingWs(s);
    var t := s[k..];
    if |t| == 0 then []
    else
      assert t[0] == s[k];
      var n := TokenLen(t);
      var rest := SplitWhitespace(t[n..]);
      var tok := t[..n];
      assert |tok| > 0 && NoWhitespace(tok);
      assert forall i :: 0 < i <= |rest| ==> ([tok] + rest)[i] == rest[i - 1];
      [tok] + rest
  }

  /** Splitting a string that starts with a whole token yields that token first. */
  lemma SplitWhitespaceToken(tok: string, rest: string)
    requires |tok| > 0 && NoWhitespace(tok)
    requires rest == [] || IsWhitespace(rest[0])
    ensures SplitWhitespace(tok + rest) == [tok] + SplitWhitespace(rest)
  {
    var s := tok + rest;
    assert LeadingWs(s) == 0;
    assert s[0..] == s;
    TokenLenOfToken(tok, rest);
    assert s[..|tok|] == tok;
    assert s[|tok|..] == rest;
  }

  lemma TokenLenOfToken(tok: string, rest: string)
    requires NoWhitespace(tok)
    requires rest == [] || IsWhitespace(rest[0])
    ensures TokenLen(tok + rest) == |tok|
    decreases |tok|
  {
    if |tok| > 0 {
      assert (tok + rest)[1..] == tok[1..] + rest;
      TokenLenOfToken(tok[1..], rest);
    } else {
      assert tok + rest == rest;
    }
  }

  /** Leading whitespace contributes no token. */
  lemma SplitWhitespaceSkip(ws: string, rest: string)
    requires AllWhitespace(ws)
    requires rest == [] || !IsWhitespace(rest[0])
    ensures SplitWhitespace(ws + rest) == SplitWhitespace(rest)
  {
    LeadingWsOfWs(ws, rest);
    assert (ws + rest)[|ws|..] == rest;
    assert rest[0..] == rest;
    if rest != [] {
      assert LeadingWs(rest) == 0;
    }
  }

  lemma {:induction false} LeadingWsOfWs(ws: string, rest: string)
    requires AllWhitespace(ws)
    requires rest == [] || !IsWhitespace(rest[0])
    ensures LeadingWs(ws + rest) == |ws|
    decreases |ws|
  {
    var s := ws + rest;
    if |ws| > 0 {
      assert s[0] == ws[0] && IsWhitespace(s[0]);
      assert s[1..] == ws[1..] + rest;
      LeadingWsOfWs(ws[1..], rest);
      assert LeadingWs(s) == LeadingWs(s[1..]) + 1;
    } else {
      assert s == rest;
    }
  }

  /** Drops one `\r` at the end of a line, as `lines()` does before a `\n`. */
  function StripCr(line: string): string {
    if |line| > 0 && line[|line| - 1] == '\r' then line[..|line| - 1] else line
  }

  /** `str::lines`: split at `\n`, drop a `\r` just before each `\n`, and do
      not report an empty final line after a terminating `\n`. */
  function Lines(s: string): (r: seq<string>)
    ensures s == [] <==> r == []
    ensures forall i :: 0 <= i < |r| ==> '\n' !in r[i]
    decreases |s|
  {
    if s == [] then []
    else
      match Find(s, '\n')
      case None => [s]
      case Some(i) =>
        var line := s[..i];
        assert forall j :: 0 <= j < |StripCr(line)| ==> StripCr(line)[j] == line[j];
        [StripCr(line)] + Lines(s[i + 1..])
  }

  /** One CRLF-terminated line at the head of a string. */
  lemma LinesCrLf(line: string, rest: string)
    requires '\n' !in line && (line == [] || line[|line| - 1] != '\r')
    ensures Lines(line + "\r\n" + rest) == [line] + Lines(rest)
  {
    var s := line + "\r\n" + rest;
    assert s[..|line| + 1] == line + "\r";
    assert '\n' !in s[..|line| + 1];
    assert s[|line| + 1] == '\n';
    assert Find(s, '\n') == Some(|line| + 1);
    assert s[|line| + 2..] == rest;
    assert StripCr(line + "\r") == line;
  }

  /** The last line, when it holds no `\n`. */
  lemma LinesLast(line: string)
    requires '\n' !in line && line != []
    ensures Lines(line) == [line]
  {
  }

  /** One `\n`-terminated line without `\r` at the head of a string. */
  lemma LinesLf(line: string, rest: string)
    requires '\n' !in line && '\r' !in line
    ensures Lines(line + "\n" + rest) == [line] + Lines(rest)
  {
    var s := line + "\n" + rest;
    assert s[..|line|] == line;
    assert s[|line|] == '\n';
    assert Find(s, '\n') == Some(|line|);
    assert s[|line| + 1..] == rest;
    assert StripCr(line) == line;
  }

  /** Lines of text that uses bare `\n` separators and does not end in `\n`. */
  lemma {:induction false} LinesOfJoin(parts: seq<string>)
    requires |parts| > 0
    requires forall i :: 0 <= i < |parts| ==> '\n' !in parts[i] && '\r' !in parts[i]
    requires parts[|parts| - 1] != []
    ensures Lines(Join(parts, "\n")) == parts
    decreases |parts|
  {
    if |parts| == 1 {
      LinesLast(parts[0]);
    } else {
      var tail := parts[1..];
      assert forall i :: 0 <= i < |tail| ==> '\n' !in tail[i] && '\r' !in tail[i] by {
        forall i | 0 <= i < |tail| ensures '\n' !in tail[i] && '\r' !in tail[i] {
          assert tail[i] == parts[i + 1];
        }
      }
      assert tail[|tail| - 1] == parts[|parts| - 1];
      LinesOfJoin(tail);
      ConsHead(parts);
      LinesOfJoinStep(parts[0], tail);
    }
  }

  lemma LinesOfJoinStep(head: string, tail: seq<string>)
    requires '\n' !in head && '\r' !in head && |tail| > 0
    requires Lines(Join(tail, "\n")) == tail
    ensures Lines(Join([head] + tail, "\n")) == [head] + tail
  {
    var parts := [head] + tail;
    assert parts[0] == head && parts[1..] == tail;
    LinesLf(head, Join(tail, "\n"));
  }

  // ---------------------------------------------------------------------------
  // UTF-8 length

  /** Bytes needed to encode `c` in UTF-8. */
  function Utf8CharLen(c: char): nat {
    if c as int < 0x80 then 1
    else if c as int < 0x800 then 2
    else if c as int < 0x10000 then 3
    else 4
  }

  /** Rust's `str::len`: the length in UTF-8 bytes. */
  function Utf8Len(s: string): (n: nat)
    ensures |s| <= n <= 4 * |s|
  {
    if |s| == 0 then 0 else Utf8CharLen(s[0]) + Utf8Len(s[1..])
  }

  lemma Utf8LenAscii(s: string)
    requires forall i :: 0 <= i < |s| ==> s[i] as int < 0x80
    ensures Utf8Len(s) == |s|
  {
  }
}
