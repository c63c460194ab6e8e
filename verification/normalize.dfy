/** The request and response normalisers that run before a cache key is
    built or a response is stored: header names and values, JSON bodies,
    string values, paths, the sensitive-header filter and the cache headers
    added to a served hit. */
module Normalize {
  import opened Wrappers
  import opened Text
  import opened Decimal
  import opened StringOrder
  import opened Maps
  import opened JsonValue
  import opened SeqFacts
  import Errors

  // ---------------------------------------------------------------------------
  // String values

  /** Every whitespace character is a lone space between two other
      characters: no leading, trailing or repeated whitespace, no line breaks. */
  predicate SingleSpaced(s: string) {
    forall i :: 0 <= i < |s| && IsWhitespace(s[i]) ==> s[i] == ' ' && 0 < i < |s| - 1 && !IsWhitespace(s[i + 1])
  }

  /** `Regex::new(r"\s+").replace_all(s, " ")`: every maximal run of
      whitespace becomes one space. */
  function CollapseWs(s: string): (r: string)
    ensures |r| <= |s|
    decreases |s|
  {
    if |s| == 0 then ""
    else if IsWhitespace(s[0]) then " " + CollapseWs(s[LeadingWs(s)..])
    else [s[0]] + CollapseWs(s[1..])
  }

  /** `str::replace("\r\n", "\n")`, scanning left to right. */
  function ReplaceCrLf(s: string): (r: string)
    ensures |r| <= |s|
    ensures '\r' !in s ==> r == s
    decreases |s|
  {
    if |s| == 0 then ""
    else if |s| >= 2 && s[0] == '\r' && s[1] == '\n' then "\n" + ReplaceCrLf(s[2..])
    else [s[0]] + ReplaceCrLf(s[1..])
  }

  /** `str::replace("\r", "\n")`. */
  function ReplaceCr(s: string): (r: string)
    ensures |r| == |s| && '\r' !in r
    ensures forall i :: 0 <= i < |s| && s[i] != '\r' ==> r[i] == s[i]
  {
    seq(|s|, i requires 0 <= i < |s| => if s[i] == '\r' then '\n' else s[i])
  }

  /** `normalize_string_value`: trim, collapse whitespace runs, then turn
      `\r\n` and `\r` into `\n`. The result is the whitespace-separated words
      of `s` joined by single spaces, so it holds no line break at all and the
      two replacements never change anything. */
  function NormalizeString(s: string): (r: string)
    ensures r == Join(SplitWhitespace(s), " ")
    ensures SingleSpaced(r)
  {
    var c := CollapseWs(Trim(s));
    NormalizeStringIsJoin(s);
    ReplaceCr(ReplaceCrLf(c))
  }

  lemma NormalizeStringIsJoin(s: string)
    ensures CollapseWs(Trim(s)) == Join(SplitWhitespace(s), " ")
    ensures SingleSpaced(CollapseWs(Trim(s)))
    ensures ReplaceCr(ReplaceCrLf(CollapseWs(Trim(s)))) == CollapseWs(Trim(s))
  {
    var c := CollapseWs(Trim(s));
    CollapseIsJoin(Trim(s));
    SplitTrim(s);
    JoinTokensSingleSpaced(SplitWhitespace(s));
    ReplacementsIdle(c);
  }

  /** A single-spaced string holds no carriage return, so neither
      replacement changes it. */
  lemma ReplacementsIdle(c: string)
    requires SingleSpaced(c)
    ensures ReplaceCr(ReplaceCrLf(c)) == c
  {
    assert '\r' !in c by {
      forall i | 0 <= i < |c| ensures c[i] != '\r' {
        assert IsWhitespace('\r');
      }
    }
    assert ReplaceCr(c) == c;
  }

  /** Normalising a normalised string changes nothing. */
  lemma NormalizeStringIdempotent(s: string)
    ensures NormalizeString(NormalizeString(s)) == NormalizeString(s)
  {
    SplitJoin(SplitWhitespace(s));
  }

  /** A non-empty trimmed string is a word, then either nothing or a
      whitespace run followed by a shorter non-empty trimmed string. */
  lemma Decompose(t: string) returns (tok: string, w: string, rest: string)
    requires Trimmed(t) && t != []
    ensures |tok| > 0 && NoWhitespace(tok)
    ensures t == tok + w + rest
    ensures (w == [] && rest == []) || (|w| > 0 && AllWhitespace(w) && rest != [] && Trimmed(rest))
    ensures |rest| < |t|
  {
    var n := TokenLen(t);
    tok := t[..n];
    var r := t[n..];
    if r == [] {
      w, rest := [], [];
      assert t == tok + w + rest;
    } else {
      var k := LeadingWs(r);
      w, rest := r[..k], r[k..];
      assert rest[|rest| - 1] == t[|t| - 1];
      assert t == tok + w + rest;
    }
  }

  lemma {:induction false} CollapseToken(tok: string, rest: string)
    requires NoWhitespace(tok)
    ensures CollapseWs(tok + rest) == tok + CollapseWs(rest)
    decreases |tok|
  {
    if |tok| == 0 {
      AppendNil(rest);
      AppendNil(CollapseWs(rest));
    } else {
      var s := tok + rest;
      assert s[0] == tok[0] && !IsWhitespace(s[0]);
      assert s[1..] == tok[1..] + rest;
      assert CollapseWs(s) == [tok[0]] + CollapseWs(tok[1..] + rest);
      CollapseToken(tok[1..], rest);
      assert [tok[0]] + (tok[1..] + CollapseWs(rest)) == tok + CollapseWs(rest);
    }
  }

  lemma CollapseRun(w: string, rest: string)
    requires |w| > 0 && AllWhitespace(w)
    requires rest == [] || !IsWhitespace(rest[0])
    ensures CollapseWs(w + rest) == " " + CollapseWs(rest)
  {
    LeadingWsOfWs(w, rest);
    assert (w + rest)[|w|..] == rest;
  }

  lemma JoinCons(tok: string, parts: seq<string>, sep: string)
    requires |parts| > 0
    ensures Join([tok] + parts, sep) == tok + sep + Join(parts, sep)
  {
    assert ([tok] + parts)[1..] == parts;
  }

  lemma SplitAllWhitespace(ws: string)
    requires AllWhitespace(ws)
    ensures SplitWhitespace(ws) == []
  {
    LeadingWsOfWs(ws, []);
    AppendNil(ws);
  }

  /** A word, a whitespace run, and what follows: one word, then the words
      of the rest. */
  lemma SplitCons(tok: string, w: string, rest: string)
    requires |tok| > 0 && NoWhitespace(tok)
    requires |w| > 0 && AllWhitespace(w)
    requires rest == [] || !IsWhitespace(rest[0])
    ensures SplitWhitespace(tok + w + rest) == [tok] + SplitWhitespace(rest)
  {
    Assoc3(tok, w, rest);
    SplitWhitespaceToken(tok, w + rest);
    SplitWhitespaceSkip(w, rest);
  }

  /** A word, a whitespace run, and what follows collapse to the word, one
      space, and the collapsed rest. */
  lemma CollapseCons(tok: string, w: string, rest: string)
    requires NoWhitespace(tok)
    requires |w| > 0 && AllWhitespace(w)
    requires rest == [] || !IsWhitespace(rest[0])
    ensures CollapseWs(tok + w + rest) == tok + " " + CollapseWs(rest)
  {
    Assoc3(tok, w, rest);
    CollapseToken(tok, w + rest);
    CollapseRun(w, rest);
    Assoc3(tok, " ", CollapseWs(rest));
  }

  /** A single word splits into itself and collapses to itself. */
  lemma SingleWord(tok: string)
    requires |tok| > 0 && NoWhitespace(tok)
    ensures SplitWhitespace(tok) == [tok]
    ensures CollapseWs(tok) == tok
  {
    AppendNil(tok);
    SplitWhitespaceToken(tok, []);
    SplitAllWhitespace([]);
    AppendNil([tok]);
    CollapseToken(tok, []);
    assert CollapseWs([]) == [];
  }

  lemma SplitNonEmpty(t: string)
    requires Trimmed(t) && t != []
    ensures |SplitWhitespace(t)| > 0
  {
    var tok, w, rest := Decompose(t);
    Assoc3(tok, w, rest);
    SplitWhitespaceToken(tok, w + rest);
  }

  /** The empty string, or a word: no second word follows. */
  lemma DecomposeWord(t: string, tok: string, w: string, rest: string)
    requires t == tok + w + rest && w == [] && rest == []
    ensures t == tok
  {
    AppendNil(tok);
  }

  /** On a trimmed string, collapsing whitespace runs is joining the words. */
  lemma {:induction false} CollapseIsJoin(t: string)
    requires Trimmed(t)
    ensures CollapseWs(t) == Join(SplitWhitespace(t), " ")
    decreases |t|
  {
    if t == [] {
      SplitAllWhitespace(t);
    } else {
      var tok, w, rest := Decompose(t);
      if w == [] {
        DecomposeWord(t, tok, w, rest);
        SingleWord(tok);
      } else {
        CollapseCons(tok, w, rest);
        SplitCons(tok, w, rest);
        CollapseIsJoin(rest);
        SplitNonEmpty(rest);
        JoinCons(tok, SplitWhitespace(rest), " ");
      }
    }
  }

  /** Trailing whitespace adds no word. */
  lemma {:induction false} SplitTrailing(x: string, ws: string)
    requires Trimmed(x) && AllWhitespace(ws)
    ensures SplitWhitespace(x + ws) == SplitWhitespace(x)
    decreases |x|
  {
    if x == [] {
      AppendNil(ws);
      SplitAllWhitespace(ws);
    } else {
      var tok, w, rest := Decompose(x);
      if w == [] {
        DecomposeWord(x, tok, w, rest);
        SplitWordTrailing(tok, ws);
      } else {
        SplitTrailing(rest, ws);
        SplitTrailingStep(tok, w, rest, ws);
      }
    }
  }

  lemma SplitWordTrailing(tok: string, ws: string)
    requires |tok| > 0 && NoWhitespace(tok) && AllWhitespace(ws)
    ensures SplitWhitespace(tok + ws) == SplitWhitespace(tok)
  {
    SingleWord(tok);
    AppendNil(tok + ws);
    if ws != [] {
      SplitCons(tok, ws, []);
      SplitAllWhitespace([]);
      AppendNil([tok]);
    } else {
      AppendNil(tok);
    }
  }

  lemma SplitTrailingStep(tok: string, w: string, rest: string, ws: string)
    requires |tok| > 0 && NoWhitespace(tok)
    requires |w| > 0 && AllWhitespace(w)
    requires rest != [] && !IsWhitespace(rest[0])
    requires SplitWhitespace(rest + ws) == SplitWhitespace(rest)
    ensures SplitWhitespace(tok + w + rest + ws) == SplitWhitespace(tok + w + rest)
  {
    SplitCons(tok, w, rest);
    Assoc4(tok, w, rest, ws);
    SplitCons(tok, w, rest + ws);
  }

  /** Trimming first does not change the words. */
  lemma SplitTrim(s: string)
    ensures SplitWhitespace(Trim(s)) == SplitWhitespace(s)
    ensures Trimmed(Trim(s))
  {
    var r := Trim(s);
    var a := TrimSlice(s);
    SliceParts(s, a, a + |r|);
    SplitAround(s, s[..a], r, s[a + |r|..]);
  }

  /** Whitespace around a trimmed string adds no word. */
  lemma SplitAround(s: string, lead: string, r: string, tail: string)
    requires s == lead + (r + tail)
    requires AllWhitespace(lead) && AllWhitespace(tail) && Trimmed(r)
    ensures SplitWhitespace(s) == SplitWhitespace(r)
  {
    if r == [] {
      AppendNil(tail);
      AllWhitespaceConcat(lead, tail);
      SplitAllWhitespace(lead + tail);
      SplitAllWhitespace(r);
    } else {
      SplitWhitespaceSkip(lead, r + tail);
      SplitTrailing(r, tail);
    }
  }

  lemma AllWhitespaceConcat(a: string, b: string)
    requires AllWhitespace(a) && AllWhitespace(b)
    ensures AllWhitespace(a + b)
  {
    forall i | 0 <= i < |a + b| ensures IsWhitespace((a + b)[i]) {
      if i < |a| { assert (a + b)[i] == a[i]; } else { assert (a + b)[i] == b[i - |a|]; }
    }
  }

  /** Words joined by single spaces form a single-spaced string that starts
      with the first word. */
  lemma {:induction false} JoinTokensSingleSpaced(toks: seq<string>)
    requires forall i :: 0 <= i < |toks| ==> |toks[i]| > 0 && NoWhitespace(toks[i])
    ensures SingleSpaced(Join(toks, " "))
    ensures |toks| > 0 ==> |Join(toks, " ")| >= |toks[0]| && Join(toks, " ")[..|toks[0]|] == toks[0]
    decreases |toks|
  {
    if |toks| == 1 {
      assert toks[0][..|toks[0]|] == toks[0];
    } else if |toks| > 1 {
      var t0 := toks[0];
      var rest := toks[1..];
      JoinTokensSingleSpaced(rest);
      var j' := Join(rest, " ");
      var j := Join(toks, " ");
      assert j == t0 + " " + j';
      assert rest[0] == toks[1];
      assert j'[0] == rest[0][0];
      forall i | 0 <= i < |j| && IsWhitespace(j[i])
        ensures j[i] == ' ' && 0 < i < |j| - 1 && !IsWhitespace(j[i + 1])
      {
        if i == |t0| {
          assert j[i + 1] == j'[0];
        } else if i > |t0| {
          assert j[i] == j'[i - |t0| - 1];
          if i + 1 < |j| {
            assert j[i + 1] == j'[i - |t0|];
          }
        }
      }
      assert j[..|t0|] == t0;
    }
  }

  /** Splitting words joined by single spaces gives the words back. */
  lemma {:induction false} SplitJoin(toks: seq<string>)
    requires forall i :: 0 <= i < |toks| ==> |toks[i]| > 0 && NoWhitespace(toks[i])
    ensures SplitWhitespace(Join(toks, " ")) == toks
    decreases |toks|
  {
    if |toks| == 0 {
      SplitAllWhitespace([]);
    } else if |toks| == 1 {
      SingleWord(toks[0]);
    } else {
      var rest := toks[1..];
      JoinTokensSingleSpaced(rest);
      SplitJoin(rest);
      SplitJoinStep(toks[0], rest);
      ConsHead(toks);
    }
  }

  lemma SplitJoinStep(tok: string, rest: seq<string>)
    requires |tok| > 0 && NoWhitespace(tok)
    requires |rest| > 0 && |rest[0]| > 0 && NoWhitespace(rest[0])
    requires |Join(rest, " ")| >= |rest[0]| && Join(rest, " ")[..|rest[0]|] == rest[0]
    requires SplitWhitespace(Join(rest, " ")) == rest
    ensures SplitWhitespace(Join([tok] + rest, " ")) == [tok] + rest
  {
    var j' := Join(rest, " ");
    JoinCons(tok, rest, " ");
    assert j'[0] == j'[..|rest[0]|][0];
    SplitCons(tok, " ", j');
  }

  // ---------------------------------------------------------------------------
  // JSON values

  /** No object member is `null`, at any depth (array elements may be). */
  predicate NoNullMembers(v: Json) {
    match v
    case Obj(m) => forall k :: k in m ==> !m[k].Null? && NoNullMembers(m[k])
    case Arr(items) => forall i :: 0 <= i < |items| ==> NoNullMembers(items[i])
    case _ => true
  }

  /** `normalize_json_value`. Members whose value is `null` are dropped and
      the rest normalised; elements of arrays are normalised in place, nulls
      included; strings go through `NormalizeString`; other scalars stay.
      Sorting the members is the identity on a key-ordered map. */
  function NormalizeJson(v: Json): (r: Json)
    ensures NoNullMembers(r)
    ensures v.Null? <==> r.Null?
    ensures v.Obj? <==> r.Obj?
    ensures v.Obj? ==> forall k :: k in r.members <==> k in v.members && !v.members[k].Null?
    ensures v.Arr? <==> r.Arr?
    ensures v.Arr? ==> |r.items| == |v.items|
    ensures v.Str? ==> r.Str? && SingleSpaced(r.s)
    ensures v.Bool? || v.Num? || v.Null? ==> r == v
    ensures v.Str? ==> r == Str(NormalizeString(v.s))
    ensures v.Arr? ==> forall i :: 0 <= i < |v.items| ==> r.items[i] == NormalizeJson(v.items[i])
    ensures v.Obj? ==> forall k :: k in r.members ==> r.members[k] == NormalizeJson(v.members[k])
  {
    match v
    case Obj(m) => Obj(map k | k in m && !m[k].Null? :: NormalizeJson(m[k]))
    case Arr(items) => Arr(seq(|items|, i requires 0 <= i < |items| => NormalizeJson(items[i])))
    case Str(s) => Str(NormalizeString(s))
    case _ => v
  }

  /** Normalising a normalised value changes nothing. */
  lemma {:induction false} NormalizeJsonIdempotent(v: Json)
    ensures NormalizeJson(NormalizeJson(v)) == NormalizeJson(v)
  {
    var r := NormalizeJson(v);
    match v
    case Obj(m) =>
      forall k | k in m && !m[k].Null? ensures NormalizeJson(NormalizeJson(m[k])) == NormalizeJson(m[k]) {
        NormalizeJsonIdempotent(m[k]);
      }
      var rr := NormalizeJson(r);
      MapExtensional(rr.members, r.members);
    case Arr(items) =>
      forall i | 0 <= i < |items| ensures NormalizeJson(NormalizeJson(items[i])) == NormalizeJson(items[i]) {
        NormalizeJsonIdempotent(items[i]);
      }
      assert NormalizeJson(r).items == r.items;
    case Str(s) =>
      NormalizeStringIdempotent(s);
    case _ =>
  }

  /** `normalize_body`: an empty body becomes the empty string; text that is
      not JSON stays as it is, as a string; JSON text becomes its normalised
      value. */
  function NormalizeBody(body: string, codec: Codec): (r: Json)
    ensures NoNullMembers(r)
    ensures body == [] ==> r == Str([])
    ensures body != [] && codec.parse(body).None? ==> r == Str(body)
    ensures body != [] && codec.parse(body).Some? ==> r == NormalizeJson(codec.parse(body).value)
  {
    if body == [] then Str("")
    else match codec.parse(body)
      case None => Str(body)
      case Some(j) => NormalizeJson(j)
  }

  /** With a faithful codec, the body text of a value normalises to the
      normalised value itself. */
  lemma NormalizeBodyOfSerialized(v: Json, codec: Codec)
    requires RoundTrips(codec)
    requires codec.serialize(v) != []
    ensures NormalizeBody(codec.serialize(v), codec) == NormalizeJson(v)
  {
  }

  // ---------------------------------------------------------------------------
  // Headers

  /** `normalize_header_name`: trimmed, then ASCII-lowercased. */
  function NormalizeHeaderName(name: string): (r: string)
    ensures |r| == |Trim(name)|
    ensures forall i :: 0 <= i < |r| ==> r[i] == LowerChar(Trim(name)[i])
  {
    ToLower(Trim(name))
  }

  /** A normalised name has no surrounding whitespace and no upper-case
      ASCII letter, so normalising it again changes nothing. */
  lemma NormalizeHeaderNameIdempotent(name: string)
    ensures Trimmed(NormalizeHeaderName(name))
    ensures forall i :: 0 <= i < |NormalizeHeaderName(name)| ==> !('A' <= NormalizeHeaderName(name)[i] <= 'Z')
    ensures NormalizeHeaderName(NormalizeHeaderName(name)) == NormalizeHeaderName(name)
  {
    var r := NormalizeHeaderName(name);
    TrimOfTrimmed(r);
    assert ToLower(r) == r;
  }

  /** `normalize_header_value`: strings are trimmed (their case is kept),
      arrays are normalised element by element, anything else is kept. */
  function NormalizeHeaderValue(v: Json): (r: Json)
    ensures v.Str? ==> r.Str? && Trimmed(r.s) && r == Str(Trim(v.s))
    ensures v.Arr? ==> r.Arr? && |r.items| == |v.items|
    ensures v.Arr? ==> forall i :: 0 <= i < |v.items| ==> r.items[i] == NormalizeHeaderValue(v.items[i])
    ensures !v.Str? && !v.Arr? ==> r == v
  {
    match v
    case Str(s) => Str(Trim(s))
    case Arr(items) => Arr(seq(|items|, i requires 0 <= i < |items| => NormalizeHeaderValue(items[i])))
    case _ => v
  }

  lemma {:induction false} NormalizeHeaderValueIdempotent(v: Json)
    ensures NormalizeHeaderValue(NormalizeHeaderValue(v)) == NormalizeHeaderValue(v)
  {
    match v
    case Str(s) =>
      TrimIdempotent(s);
    case Arr(items) =>
      forall i | 0 <= i < |items|
        ensures NormalizeHeaderValue(NormalizeHeaderValue(items[i])) == NormalizeHeaderValue(items[i])
      {
        NormalizeHeaderValueIdempotent(items[i]);
      }
      assert NormalizeHeaderValue(NormalizeHeaderValue(v)).items == NormalizeHeaderValue(v).items;
    case _ =>
  }

  /** The normalised entries of `headers`, listed in `order`. */
  function HeaderEntries(headers: map<string, Json>, order: seq<string>): (r: seq<(string, Json)>)
    requires forall i :: 0 <= i < |order| ==> order[i] in headers
    ensures |r| == |order|
    ensures forall i :: 0 <= i < |order| ==> r[i].0 == NormalizeHeaderName(order[i])
    ensures forall i :: 0 <= i < |order| ==> r[i].1 == NormalizeHeaderValue(headers[order[i]])
  {
    seq(|order|, i requires 0 <= i < |order| => (NormalizeHeaderName(order[i]), NormalizeHeaderValue(headers[order[i]])))
  }

  /** The header map as `normalize_request` rebuilds it: the normalised
      entries are inserted into an empty map in key order (a serde map is
      walked that way), so a later entry under the same normalised name
      replaces an earlier one. Its names are the normalised input names. */
  function NormalizeHeaderMap(headers: map<string, Json>): (r: map<string, Json>)
    ensures forall k :: k in headers ==> NormalizeHeaderName(k) in r
    ensures forall x :: x in r ==> exists k :: k in headers && NormalizeHeaderName(k) == x
                                               && r[x] == NormalizeHeaderValue(headers[k])
  {
    HeaderMapIn(headers, SortedOf(headers.Keys))
  }

  /** The normalised entries of `headers` inserted in the given order. */
  function HeaderMapIn(headers: map<string, Json>, order: seq<string>): (r: map<string, Json>)
    requires forall k :: k in order <==> k in headers
    ensures forall k :: k in headers ==> NormalizeHeaderName(k) in r
    ensures forall x :: x in r ==> exists k :: k in headers && NormalizeHeaderName(k) == x
                                               && r[x] == NormalizeHeaderValue(headers[k])
  {
    HeaderMapKeys(headers, order);
    InsertAll(map[], HeaderEntries(headers, order))
  }

  lemma HeaderMapKeys(headers: map<string, Json>, order: seq<string>)
    requires forall k :: k in order <==> k in headers
    ensures forall k :: k in headers ==> NormalizeHeaderName(k) in InsertAll(map[], HeaderEntries(headers, order))
    ensures forall x :: x in InsertAll(map[], HeaderEntries(headers, order)) ==>
              exists k :: k in headers && NormalizeHeaderName(k) == x
                          && InsertAll(map[], HeaderEntries(headers, order))[x] == NormalizeHeaderValue(headers[k])
  {
    var entries := HeaderEntries(headers, order);
    forall k | k in headers ensures NormalizeHeaderName(k) in InsertAll(map[], entries) {
      var i :| 0 <= i < |order| && order[i] == k;
      InsertAllHas(entries, i);
    }
    forall x | x in InsertAll(map[], entries)
      ensures exists k :: k in headers && NormalizeHeaderName(k) == x
                          && InsertAll(map[], entries)[x] == NormalizeHeaderValue(headers[k])
    {
      var j := InsertAllSource(entries, x);
      assert order[j] in headers;
    }
  }

  /** When several names normalise to the same one, the value kept is that
      of the greatest original name in string order; with no such clash, a
      header keeps its own value. */
  lemma NormalizeHeaderMapWinner(headers: map<string, Json>, k: string)
    requires k in headers
    requires forall k' :: k' in headers && NormalizeHeaderName(k') == NormalizeHeaderName(k) ==> Leq(k', k)
    ensures NormalizeHeaderMap(headers)[NormalizeHeaderName(k)] == NormalizeHeaderValue(headers[k])
  {
    var order := SortedOf(headers.Keys);
    var i :| 0 <= i < |order| && order[i] == k;
    HeaderMapWinnerAt(headers, order, i);
  }

  lemma HeaderMapWinnerAt(headers: map<string, Json>, order: seq<string>, i: nat)
    requires StrictlySorted(order) && i < |order|
    requires forall k :: k in order <==> k in headers
    requires forall k' :: k' in headers && NormalizeHeaderName(k') == NormalizeHeaderName(order[i]) ==> Leq(k', order[i])
    ensures NormalizeHeaderName(order[i]) in HeaderMapIn(headers, order)
    ensures HeaderMapIn(headers, order)[NormalizeHeaderName(order[i])] == NormalizeHeaderValue(headers[order[i]])
  {
    var entries := HeaderEntries(headers, order);
    forall j | 0 <= j < |order| && entries[j].0 == entries[i].0 ensures Leq(order[j], order[i]) {
      assert order[j] in headers;
    }
    LastEntryIsGreatest(order, entries, i);
    InsertAllLast(entries, i);
  }

  /** In entries listed by ascending names, the last entry under a key is
      the one whose name is greatest among those with that key. */
  lemma LastEntryIsGreatest<V>(order: seq<string>, entries: seq<(string, V)>, i: nat)
    requires StrictlySorted(order) && |entries| == |order| && i < |order|
    requires forall j :: 0 <= j < |order| && entries[j].0 == entries[i].0 ==> Leq(order[j], order[i])
    ensures LastIndex(entries, entries[i].0) == i
  {
    var j := LastIndex(entries, entries[i].0);
    if j != i {
      assert Lt(order[i], order[j]);
      LeqAntisymmetric(order[i], order[j]);
    }
  }

  // ---------------------------------------------------------------------------
  // Paths

  /** The part of `s` before the first `c` (all of `s` when there is none). */
  function CutAt(s: string, c: char): (r: string)
    ensures c !in r
    ensures |r| <= |s| && s[..|r|] == r
    ensures c !in s ==> r == s
  {
    match Find(s, c)
    case None => s
    case Some(i) => s[..i]
  }

  /** `normalize_path` of the request normaliser: trim, drop the query and
      the fragment, drop one trailing `/` unless that would empty the path,
      then make sure it starts with `/`. (The source compares the byte
      length with 1; for a string ending in `/` that is the same as
      comparing the character count.) */
  function NormalizePath(path: string): (r: string)
    ensures |r| > 0 && r[0] == '/'
    ensures '?' !in r && '#' !in r
  {
    Rooted(DropTrailingSlash(StripQuery(Trim(path))))
  }

  /** The path without its query and fragment. */
  function StripQuery(s: string): (r: string)
    ensures '?' !in r && '#' !in r
    ensures '?' !in s && '#' !in s ==> r == s
  {
    CutAt(CutAt(s, '?'), '#')
  }

  /** One trailing `/` removed, unless it is the whole path. */
  function DropTrailingSlash(t: string): (r: string)
    ensures forall c :: c in r ==> c in t
    ensures |t| <= 1 || t[|t| - 1] != '/' ==> r == t
  {
    if |t| > 1 && t[|t| - 1] == '/' then t[..|t| - 1] else t
  }

  /** A leading `/` added if missing. */
  function Rooted(u: string): (r: string)
    ensures |r| > 0 && r[0] == '/'
    ensures forall c :: c in r ==> c in u || c == '/'
    ensures |u| > 0 && u[0] == '/' ==> r == u
  {
    if |u| > 0 && u[0] == '/' then u else "/" + u
  }

  /** A path `NormalizePath` leaves as it is: it starts with `/`, has no
      query or fragment, and is the root or ends in neither `/` nor
      whitespace. */
  predicate FixedPath(p: string) {
    && |p| > 0 && p[0] == '/' && '?' !in p && '#' !in p
    && (|p| == 1 || (p[|p| - 1] != '/' && !IsWhitespace(p[|p| - 1])))
  }

  lemma NormalizeFixedPath(p: string)
    requires FixedPath(p)
    ensures NormalizePath(p) == p
  {
    assert !IsWhitespace(p[0]);
    TrimOfTrimmed(p);
  }

  /** Normalising again changes nothing, provided the result is the root or
      ends in neither `/` nor whitespace. */
  lemma NormalizePathIdempotent(path: string)
    requires var r := NormalizePath(path);
             r == "/" || (r[|r| - 1] != '/' && !IsWhitespace(r[|r| - 1]))
    ensures NormalizePath(NormalizePath(path)) == NormalizePath(path)
  {
    NormalizeFixedPath(NormalizePath(path));
  }

  /** One trailing `/` goes, whatever precedes it. */
  lemma NormalizeSlashEnded(p: string)
    requires |p| > 0 && p[0] == '/' && '?' !in p && '#' !in p && !IsWhitespace(p[|p| - 1])
    ensures NormalizePath(p + "/") == p
  {
    var x := p + "/";
    assert x[0] == '/' && x[|x| - 1] == '/';
    TrimOfTrimmed(x);
    assert x[..|x| - 1] == p;
    assert '?' !in x && '#' !in x;
  }

  /** The query or fragment goes, along with the text after it. */
  lemma NormalizeCutPath(p: string, c: char, q: string)
    requires |p| > 0 && p[0] == '/' && '?' !in p && '#' !in p && (|p| == 1 || p[|p| - 1] != '/')
    requires c == '?' || c == '#'
    requires '?' !in q
    requires q == [] || !IsWhitespace(q[|q| - 1])
    ensures NormalizePath(p + [c] + q) == p
  {
    CutSuffixTrimmed(p, c, q);
    StripQueryCut(p, c, q);
  }

  lemma StripQueryCut(p: string, c: char, q: string)
    requires '?' !in p && '#' !in p && (c == '?' || c == '#') && '?' !in q
    ensures StripQuery(p + [c] + q) == p
  {
    var x := p + [c] + q;
    assert x[|p|] == c;
    assert x[..|p|] == p;
    if c == '?' {
      FindFirst(x, |p|, '?');
    } else {
      FindFirst(x, |p|, '#');
    }
  }

  lemma CutSuffixTrimmed(p: string, c: char, q: string)
    requires |p| > 0 && p[0] == '/' && (c == '?' || c == '#')
    requires q == [] || !IsWhitespace(q[|q| - 1])
    ensures Trim(p + [c] + q) == p + [c] + q
  {
    var x := p + [c] + q;
    assert x[0] == '/';
    assert x[|x| - 1] == if q == [] then c else q[|q| - 1];
    TrimOfTrimmed(x);
  }

  /** A relative path gains its leading `/`. */
  lemma NormalizeRelativePath(p: string)
    requires |p| > 0 && p[0] != '/' && !IsWhitespace(p[0]) && '?' !in p && '#' !in p
    requires p[|p| - 1] != '/' && !IsWhitespace(p[|p| - 1])
    ensures NormalizePath(p) == "/" + p
  {
    TrimOfTrimmed(p);
  }

  /** The root is its own normal form. */
  lemma NormalizeRootPath()
    ensures NormalizePath("/") == "/"
  {
    NormalizeFixedPath("/");
  }

  /** Whitespace that ends up at the end of the path is only trimmed on the
      next pass. */
  lemma NormalizeSpaceEnded(p: string)
    requires FixedPath(p)
    ensures NormalizePath(p + " ") == p
  {
    assert !IsWhitespace(p[0]);
    TrimSpaceEnd(p);
    assert Trim(p) == p by { TrimOfTrimmed(p); }
    NormalizeFixedPath(p);
  }

  /** The two ways a result can fail to be a fixed point, for any path that
      is one: of two trailing slashes only one goes per pass, and whitespace
      before a query is only trimmed on the second pass. */
  lemma NormalizePathNotIdempotent(p: string)
    requires FixedPath(p) && |p| > 1
    ensures NormalizePath(p + "//") == p + "/" && NormalizePath(p + "/") == p
    ensures NormalizePath(p + " ?") == p + " " && NormalizePath(p + " ") == p
  {
    DoubleSlashEnded(p);
    SpaceBeforeQuery(p);
  }

  lemma DoubleSlashEnded(p: string)
    requires FixedPath(p) && |p| > 1
    ensures NormalizePath(p + "//") == p + "/" && NormalizePath(p + "/") == p
  {
    NormalizeSlashEnded(p);
    var q := p + "/";
    assert q[|q| - 1] == '/' && q[0] == '/';
    assert '?' !in q && '#' !in q;
    NormalizeSlashEnded(q);
    Assoc3(p, "/", "/");
    TwoChars('/', '/');
  }

  lemma TwoChars(a: char, b: char)
    ensures [a] + [b] == [a, b]
  {
  }

  lemma SpaceBeforeQuery(p: string)
    requires FixedPath(p) && |p| > 1
    ensures NormalizePath(p + " ?") == p + " " && NormalizePath(p + " ") == p
  {
    var w := p + " ";
    assert w[0] == '/' && w[|w| - 1] == ' ';
    assert '?' !in w && '#' !in w;
    NormalizeCutPath(w, '?', []);
    AppendNil(w + ['?']);
    Assoc3(p, " ", "?");
    TwoChars(' ', '?');
    NormalizeSpaceEnded(p);
  }

  lemma TrimSpaceEnd(s: string)
    requires Trimmed(s) && s != []
    ensures Trim(s + " ") == s
  {
    var x := s + " ";
    assert x[..|x| - 1] == s;
    assert TrailingWs(s) == 0;
    assert TrailingWs(x) == 1;
    assert x[0] == s[0];
    assert LeadingWs(x) == 0;
    assert x[0..] == x;
  }

  // ---------------------------------------------------------------------------
  // Whole requests and responses

  /** The value with member `key` replaced, when it is an object. */
  function SetMember(v: Json, key: string, value: Json): (r: Json)
    requires v.Obj? && key in v.members
    ensures r.Obj? && r.members.Keys == v.members.Keys
    ensures r.members[key] == value
    ensures forall k :: k in v.members && k != key ==> r.members[k] == v.members[k]
  {
    Obj(v.members[key := value])
  }

  /** The headers step: a `headers` object is rebuilt from its normalised
      entries; anything else is left alone. */
  function NormalizeHeadersField(v: Json): (r: Json)
    ensures v.Obj? <==> r.Obj?
    ensures !v.Obj? ==> r == v
    ensures v.Obj? ==> r.members.Keys == v.members.Keys
    ensures v.Obj? ==> forall k :: k in v.members && k != "headers" ==> r.members[k] == v.members[k]
    ensures v.Obj? && "headers" in v.members && v.members["headers"].Obj?
            ==> r.members["headers"] == Obj(NormalizeHeaderMap(v.members["headers"].members))
    ensures v.Obj? && "headers" in v.members && !v.members["headers"].Obj?
            ==> r.members["headers"] == v.members["headers"]
  {
    if v.Obj? && "headers" in v.members && v.members["headers"].Obj? then
      SetMember(v, "headers", Obj(NormalizeHeaderMap(v.members["headers"].members)))
    else v
  }

  /** The body step: a string `body` is replaced by its normalised value. */
  function NormalizeBodyField(v: Json, codec: Codec): (r: Json)
    ensures v.Obj? <==> r.Obj?
    ensures !v.Obj? ==> r == v
    ensures v.Obj? ==> r.members.Keys == v.members.Keys
    ensures v.Obj? ==> forall k :: k in v.members && k != "body" ==> r.members[k] == v.members[k]
    ensures v.Obj? && "body" in v.members && v.members["body"].Str?
            ==> r.members["body"] == NormalizeBody(v.members["body"].s, codec)
    ensures v.Obj? && "body" in v.members && !v.members["body"].Str?
            ==> r.members["body"] == v.members["body"]
  {
    if v.Obj? && "body" in v.members && v.members["body"].Str? then
      SetMember(v, "body", NormalizeBody(v.members["body"].s, codec))
    else v
  }

  /** The path step: a string `path` is replaced by its normalised form. */
  function NormalizePathField(v: Json): (r: Json)
    ensures v.Obj? <==> r.Obj?
    ensures !v.Obj? ==> r == v
    ensures v.Obj? ==> r.members.Keys == v.members.Keys
    ensures v.Obj? ==> forall k :: k in v.members && k != "path" ==> r.members[k] == v.members[k]
    ensures v.Obj? && "path" in v.members && v.members["path"].Str?
            ==> r.members["path"] == Str(NormalizePath(v.members["path"].s))
    ensures v.Obj? && "path" in v.members && !v.members["path"].Str?
            ==> r.members["path"] == v.members["path"]
  {
    if v.Obj? && "path" in v.members && v.members["path"].Str? then
      SetMember(v, "path", Str(NormalizePath(v.members["path"].s)))
    else v
  }

  /** `normalize_request`: headers, then body, then path. It never fails.
      Every member other than these three, and the set of members, is kept. */
  function NormalizeRequest(request: Json, codec: Codec): (r: Result<Json, Errors.AppError>)
    ensures r.Success?
    ensures !request.Obj? ==> r.value == request
    ensures request.Obj? ==> r.value.Obj? && r.value.members.Keys == request.members.Keys
    ensures request.Obj? ==> forall k :: k in request.members && k != "headers" && k != "body" && k != "path"
                                         ==> r.value.members[k] == request.members[k]
    ensures request.Obj? && "path" in request.members && request.members["path"].Str?
            ==> r.value.members["path"] == Str(NormalizePath(request.members["path"].s))
    ensures request.Obj? && "body" in request.members && request.members["body"].Str?
            ==> r.value.members["body"] == NormalizeBody(request.members["body"].s, codec)
    ensures request.Obj? && "headers" in request.members && request.members["headers"].Obj?
            ==> r.value.members["headers"] == Obj(NormalizeHeaderMap(request.members["headers"].members))
  {
    RequestKeepsOthers(request, codec);
    RequestNormalizesFields(request, codec);
    Success(NormalizePathField(NormalizeBodyField(NormalizeHeadersField(request), codec)))
  }

  lemma RequestKeepsOthers(v: Json, codec: Codec)
    ensures var r := NormalizePathField(NormalizeBodyField(NormalizeHeadersField(v), codec));
            && (!v.Obj? ==> r == v)
            && (v.Obj? ==> r.Obj? && r.members.Keys == v.members.Keys)
            && (v.Obj? ==> forall k :: k in v.members && k != "headers" && k != "body" && k != "path"
                                       ==> r.members[k] == v.members[k])
  {
  }

  lemma RequestNormalizesFields(v: Json, codec: Codec)
    ensures var r := NormalizePathField(NormalizeBodyField(NormalizeHeadersField(v), codec));
            && (v.Obj? && "path" in v.members && v.members["path"].Str?
                ==> r.members["path"] == Str(NormalizePath(v.members["path"].s)))
            && (v.Obj? && "body" in v.members && v.members["body"].Str?
                ==> r.members["body"] == NormalizeBody(v.members["body"].s, codec))
            && (v.Obj? && "headers" in v.members && v.members["headers"].Obj?
                ==> r.members["headers"] == Obj(NormalizeHeaderMap(v.members["headers"].members)))
  {
    var h := NormalizeHeadersField(v);
    var b := NormalizeBodyField(h, codec);
    FieldNamesDistinct();
    if v.Obj? {
      if "path" in v.members && v.members["path"].Str? {
        assert h.members["path"] == v.members["path"];
        assert b.members["path"] == h.members["path"];
      }
      if "body" in v.members && v.members["body"].Str? {
        assert h.members["body"] == v.members["body"];
      }
      if "headers" in v.members && v.members["headers"].Obj? {
        assert b.members["headers"] == h.members["headers"];
      }
    }
  }

  lemma FieldNamesDistinct()
    ensures "headers" != "body" && "headers" != "path" && "body" != "path"
  {
    assert "headers"[0] == 'h' && "body"[0] == 'b' && "path"[0] == 'p';
  }

  /** `normalize_response`: headers, then body; the path, like every other
      member, is kept. It never fails. */
  function NormalizeResponse(response: Json, codec: Codec): (r: Result<Json, Errors.AppError>)
    ensures r.Success?
    ensures !response.Obj? ==> r.value == response
    ensures response.Obj? ==> r.value.Obj? && r.value.members.Keys == response.members.Keys
    ensures response.Obj? ==> forall k :: k in response.members && k != "headers" && k != "body"
                                          ==> r.value.members[k] == response.members[k]
    ensures response.Obj? && "body" in response.members && response.members["body"].Str?
            ==> r.value.members["body"] == NormalizeBody(response.members["body"].s, codec)
    ensures response.Obj? && "headers" in response.members && response.members["headers"].Obj?
            ==> r.value.members["headers"] == Obj(NormalizeHeaderMap(response.members["headers"].members))
  {
    FieldNamesDistinct();
    Success(NormalizeBodyField(NormalizeHeadersField(response), codec))
  }

  /** The two normalisers differ only in the path step. */
  lemma RequestIsResponsePlusPath(v: Json, codec: Codec)
    ensures NormalizeRequest(v, codec).value == NormalizePathField(NormalizeResponse(v, codec).value)
  {
  }

  // ---------------------------------------------------------------------------
  // Header filters for stored and served responses

  /** The names `strip_sensitive_headers` removes, in its order. */
  const SensitiveHeaders: seq<string> := [
    "authorization", "cookie", "x-api-key", "x-auth-token", "x-access-token",
    "x-csrf-token", "x-session-id", "x-user-id", "x-request-id", "x-correlation-id"
  ]

  /** Removes each name of `names` in turn. */
  function RemoveAll(headers: map<string, Json>, names: seq<string>): (r: map<string, Json>)
    ensures forall k :: k in r <==> k in headers && k !in names
    ensures forall k :: k in r ==> r[k] == headers[k]
    decreases |names|
  {
    if |names| == 0 then headers
    else RemoveAll(headers - {names[0]}, names[1..])
  }

  /** `strip_sensitive_headers`: exactly the ten sensitive names go, matched
      case-sensitively; every other entry stays as it was. */
  function StripSensitiveHeaders(headers: map<string, Json>): (r: map<string, Json>)
    ensures forall k :: k in r <==> k in headers && k !in SensitiveHeaders
    ensures forall k :: k in r ==> r[k] == headers[k]
  {
    RemoveAll(headers, SensitiveHeaders)
  }

  /** Stripping twice is stripping once. */
  lemma StripSensitiveIdempotent(headers: map<string, Json>)
    ensures StripSensitiveHeaders(StripSensitiveHeaders(headers)) == StripSensitiveHeaders(headers)
  {
    var once := StripSensitiveHeaders(headers);
    MapExtensional(StripSensitiveHeaders(once), once);
  }

  /** `add_cache_headers`: `cache-control`, `x-cache` and `x-cache-ttl` are
      set, overwriting any earlier value; other entries stay. The TTL is a
      `u64`. */
  function AddCacheHeaders(headers: map<string, Json>, ttl: nat): (r: map<string, Json>)
    requires ttl <= U64Max
    ensures r.Keys == headers.Keys + {"cache-control", "x-cache", "x-cache-ttl"}
    ensures r["cache-control"] == Str("public, max-age=" + FormatNat(ttl))
    ensures r["x-cache"] == Str("HIT")
    ensures r["x-cache-ttl"] == Str(FormatNat(ttl)) && ParseU64(r["x-cache-ttl"].s) == Some(ttl)
    ensures forall k :: k in headers && k != "cache-control" && k != "x-cache" && k != "x-cache-ttl"
                        ==> r[k] == headers[k]
  {
    ParseFormatNat(ttl);
    headers["cache-control" := Str("public, max-age=" + FormatNat(ttl))]
           ["x-cache" := Str("HIT")]
           ["x-cache-ttl" := Str(FormatNat(ttl))]
  }
}
