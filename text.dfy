/**
 * The parts of Rust's `str` API that the modelled functions rely on,
 * written out over `string` (a sequence of Unicode scalar values):
 * `char::is_whitespace`, UTF-8 byte length (`str::len`), `lines`,
 * `split_whitespace`, `split(char)`, `join`, `trim`, `trim_matches`,
 * `contains` and `starts_with`.
 */
module Text {

  /** `char::is_whitespace`: the characters with the Unicode White_Space property. */
  predicate IsWhitespace(c: char) {
    ('\t' <= c <= '\r') || c == ' ' || c == '\U{0085}' || c == '\U{00A0}'
    || c == '\U{1680}' || ('\U{2000}' <= c <= '\U{200A}') || c == '\U{2028}'
    || c == '\U{2029}' || c == '\U{202F}' || c == '\U{205F}' || c == '\U{3000}'
  }

  /** Number of bytes of the UTF-8 encoding of one scalar value. */
  function Utf8Width(c: char): (n: nat)
    ensures 1 <= n <= 4
  {
    var v := c as int;
    if v < 0x80 then 1 else if v < 0x800 then 2 else if v < 0x1_0000 then 3 else 4
  }

  /** `str::len`: the length of a string in UTF-8 bytes. */
  function ByteLen(s: string): (n: nat)
    ensures |s| <= n <= 4 * |s|
  {
    if s == [] then 0 else Utf8Width(s[0]) + ByteLen(s[1..])
  }

  /** On ASCII text, bytes and characters coincide. */
  lemma {:induction false} AsciiByteLen(s: string)
    requires forall i :: 0 <= i < |s| ==> s[i] < '\U{80}'
    ensures ByteLen(s) == |s|
  {
    if s != [] {
      AsciiByteLen(s[1..]);
    }
  }

  /** The position of the first `c` in `s`, or `|s|` when `c` does not occur. */
  function Find(s: string, c: char): (i: nat)
    ensures i <= |s|
    ensures i < |s| ==> s[i] == c
    ensures forall k :: 0 <= k < i ==> s[k] != c
  {
    if s == [] || s[0] == c then 0 else 1 + Find(s[1..], c)
  }

  /** The first occurrence is the one with no earlier occurrence. */
  lemma {:induction false} FindIs(s: string, c: char, k: nat)
    requires k < |s| && s[k] == c
    requires forall j :: 0 <= j < k ==> s[j] != c
    ensures Find(s, c) == k
  {
    if k > 0 {
      FindIs(s[1..], c, k - 1);
    }
  }

  predicate StartsWith(s: string, prefix: string) {
    |prefix| <= |s| && s[..|prefix|] == prefix
  }

  /** `str::contains` with a string pattern. */
  predicate Contains(s: string, pattern: string)
    decreases |s|
  {
    StartsWith(s, pattern) || (s != [] && Contains(s[1..], pattern))
  }

  /** An occurrence of the pattern at position `i` makes `contains` hold. */
  lemma {:induction false} ContainsAt(s: string, pattern: string, i: nat)
    requires i + |pattern| <= |s| && s[i..i + |pattern|] == pattern
    ensures Contains(s, pattern)
    decreases i
  {
    if i > 0 {
      assert s[1..][i - 1..i - 1 + |pattern|] == s[i..i + |pattern|];
      ContainsAt(s[1..], pattern, i - 1);
    }
  }

  /** When `contains` holds, the pattern occurs at the position returned. */
  lemma {:induction false} ContainsWitness(s: string, pattern: string) returns (i: nat)
    requires Contains(s, pattern)
    ensures i + |pattern| <= |s| && s[i..i + |pattern|] == pattern
    decreases |s|
  {
    if StartsWith(s, pattern) {
      i := 0;
    } else {
      var j := ContainsWitness(s[1..], pattern);
      assert s[1..][j..j + |pattern|] == s[j + 1..j + 1 + |pattern|];
      i := j + 1;
    }
  }

  /** Drops one carriage return at the end of a line. */
  function StripCr(line: string): string {
    if line != [] && line[|line| - 1] == '\r' then line[..|line| - 1] else line
  }

  /**
   * `str::lines`: the pieces between line feeds, each stripped of a
   * carriage return just before its line feed; a final line feed does not
   * start an extra empty line, and a final carriage return without a line
   * feed is kept.
   */
  function Lines(s: string): (r: seq<string>)
    ensures s == [] <==> r == []
    decreases |s|
  {
    if s == [] then []
    else
      var i := Find(s, '\n');
      if i < |s| then [StripCr(s[..i])] + Lines(s[i + 1..]) else [s]
  }

  /** A word of `split_whitespace`: non-empty and free of whitespace. */
  predicate IsWord(w: string) {
    w != [] && forall i :: 0 <= i < |w| ==> !IsWhitespace(w[i])
  }

  /** Length of the longest prefix of `s` without whitespace. */
  function RunLength(s: string): (k: nat)
    ensures k <= |s|
    ensures forall i :: 0 <= i < k ==> !IsWhitespace(s[i])
    ensures k < |s| ==> IsWhitespace(s[k])
  {
    if s == [] || IsWhitespace(s[0]) then 0 else 1 + RunLength(s[1..])
  }

  /** `str::split_whitespace`, collected into a sequence. */
  function Words(s: string): (r: seq<string>)
    ensures forall i :: 0 <= i < |r| ==> IsWord(r[i])
    decreases |s|
  {
    if s == [] then []
    else if IsWhitespace(s[0]) then Words(s[1..])
    else
      var k := RunLength(s);
      [s[..k]] + Words(s[k..])
  }

  /** `[&str]::join(sep)`. */
  function Join(parts: seq<string>, sep: string): string {
    if parts == [] then []
    else if |parts| == 1 then parts[0]
    else parts[0] + sep + Join(parts[1..], sep)
  }

  /** `str::split(c)`, collected: always at least one piece. */
  function Split(s: string, c: char): (r: seq<string>)
    ensures |r| >= 1
    ensures |r| >= 2 <==> Find(s, c) < |s|
    decreases |s|
  {
    var i := Find(s, c);
    if i < |s| then [s[..i]] + Split(s[i + 1..], c) else [s]
  }

  /** `str::trim_start_matches(drop)`. */
  function TrimStart(s: string, drop: char -> bool): (r: string)
    ensures |r| <= |s| && r == s[|s| - |r|..]
    ensures r == [] || !drop(r[0])
    ensures forall i :: 0 <= i < |s| - |r| ==> drop(s[i])
  {
    if s != [] && drop(s[0]) then TrimStart(s[1..], drop) else s
  }

  /** `str::trim_end_matches(drop)`. */
  function TrimEnd(s: string, drop: char -> bool): (r: string)
    ensures |r| <= |s| && r == s[..|r|]
    ensures r == [] || !drop(r[|r| - 1])
    ensures forall i :: |r| <= i < |s| ==> drop(s[i])
  {
    if s != [] && drop(s[|s| - 1]) then TrimEnd(s[..|s| - 1], drop) else s
  }

  /** `str::trim_matches(drop)`. */
  function TrimMatches(s: string, drop: char -> bool): string {
    TrimEnd(TrimStart(s, drop), drop)
  }

  /**
   * `trim_matches` keeps the slice `s[i..i + |r|]` and removes only
   * matching characters on either side of it; the slice neither starts
   * nor ends with a matching character.
   */
  lemma TrimMatchesSlice(s: string, drop: char -> bool) returns (i: nat, r: string)
    ensures r == TrimMatches(s, drop)
    ensures i + |r| <= |s| && r == s[i..i + |r|]
    ensures forall k :: 0 <= k < i ==> drop(s[k])
    ensures forall k :: i + |r| <= k < |s| ==> drop(s[k])
    ensures r == [] || (!drop(r[0]) && !drop(r[|r| - 1]))
  {
    var t := TrimStart(s, drop);
    r := TrimEnd(t, drop);
    i := |s| - |t|;
    InnerSlice(s, i, t, r, drop);
  }

  /** The end trim `r` of the suffix `t == s[i..]`, seen from `s`. */
  lemma InnerSlice(s: string, i: nat, t: string, r: string, drop: char -> bool)
    requires i <= |s| && t == s[i..] && |r| <= |t| && r == t[..|r|]
    requires t == [] || !drop(t[0])
    requires r == [] || !drop(r[|r| - 1])
    requires forall k :: |r| <= k < |t| ==> drop(t[k])
    ensures r == s[i..i + |r|]
    ensures forall k :: i + |r| <= k < |s| ==> drop(s[k])
    ensures r == [] || (!drop(r[0]) && !drop(r[|r| - 1]))
  {
    if r != [] {
      assert r[0] == t[0];
    }
    forall k | i + |r| <= k < |s| ensures drop(s[k]) {
      assert s[k] == t[k - i];
    }
  }

  /** `str::trim`. */
  function Trim(s: string): string {
    TrimMatches(s, IsWhitespace)
  }

  // ---------------------------------------------------------------------
  // split / join round trip

  lemma JoinCons(part: string, rest: seq<string>, sep: string)
    requires rest != []
    ensures Join([part] + rest, sep) == part + sep + Join(rest, sep)
  {
    assert ([part] + rest)[1..] == rest;
  }

  lemma SplitUnfold(s: string, c: char)
    requires Find(s, c) < |s|
    ensures Split(s, c) == [s[..Find(s, c)]] + Split(s[Find(s, c) + 1..], c)
  {
  }

  lemma {:induction false} SplitJoin(s: string, c: char)
    ensures Join(Split(s, c), [c]) == s
    decreases |s|
  {
    var i := Find(s, c);
    if i < |s| {
      SplitJoin(s[i + 1..], c);
      SplitJoinStep(s, c);
    }
  }

  /** One step of the round trip: the first piece, the separator, the rest rejoined. */
  lemma SplitJoinStep(s: string, c: char)
    requires Find(s, c) < |s|
    requires Join(Split(s[Find(s, c) + 1..], c), [c]) == s[Find(s, c) + 1..]
    ensures Join(Split(s, c), [c]) == s
  {
    var i := Find(s, c);
    SplitUnfold(s, c);
    JoinCons(s[..i], Split(s[i + 1..], c), [c]);
    PieceAround(s, i);
  }

  lemma PieceAround<T>(s: seq<T>, i: nat)
    requires i < |s|
    ensures s == s[..i] + [s[i]] + s[i + 1..]
  {
  }

  /**
   * Splitting at `c` and joining every piece but the first with `c`
   * gives exactly the text after the first `c`; the first piece is the
   * text before it.
   */
  lemma {:induction false} SplitFirstRest(s: string, c: char)
    requires Find(s, c) < |s|
    ensures Split(s, c)[0] == s[..Find(s, c)]
    ensures Join(Split(s, c)[1..], [c]) == s[Find(s, c) + 1..]
  {
    var i := Find(s, c);
    var rest := Split(s[i + 1..], c);
    SplitUnfold(s, c);
    assert Split(s, c)[1..] == rest;
    SplitJoin(s[i + 1..], c);
  }

  // ---------------------------------------------------------------------
  // split_whitespace over concatenations

  lemma {:induction false} RunLengthOfWord(w: string, tail: string)
    requires forall i :: 0 <= i < |w| ==> !IsWhitespace(w[i])
    requires tail == [] || IsWhitespace(tail[0])
    ensures RunLength(w + tail) == |w|
    decreases |w|
  {
    if w != [] {
      assert (w + tail)[1..] == w[1..] + tail;
      RunLengthOfWord(w[1..], tail);
    } else {
      assert w + tail == tail;
    }
  }

  /** A word followed by whitespace (or nothing) splits off as one word. */
  lemma WordsOfWord(w: string, tail: string)
    requires IsWord(w)
    requires tail == [] || IsWhitespace(tail[0])
    ensures Words(w + tail) == [w] + Words(tail)
  {
    RunLengthOfWord(w, tail);
    assert (w + tail)[..|w|] == w;
    assert (w + tail)[|w|..] == tail;
  }

  lemma WordsSkipSpace(c: char, s: string)
    requires IsWhitespace(c)
    ensures Words([c] + s) == Words(s)
  {
    assert ([c] + s)[1..] == s;
  }

  lemma {:induction false} RunLengthBeforeSpace(a: string, b: string)
    requires a != [] && IsWhitespace(a[|a| - 1])
    ensures RunLength(a + b) == RunLength(a)
    decreases |a|
  {
    if !IsWhitespace(a[0]) {
      assert |a| > 1;
      assert (a + b)[1..] == a[1..] + b;
      RunLengthBeforeSpace(a[1..], b);
    }
  }

  /** Text that ends in whitespace splits independently of what follows. */
  lemma {:induction false} WordsAppend(a: string, b: string)
    requires a == [] || IsWhitespace(a[|a| - 1])
    ensures Words(a + b) == Words(a) + Words(b)
    decreases |a|
  {
    if a == [] {
      assert a + b == b;
    } else if IsWhitespace(a[0]) {
      LeadingSpaceAppend(a, b);
      WordsAppend(a[1..], b);
    } else {
      var k := LeadingWordAppend(a, b);
      WordsAppend(a[k..], b);
      ConsAppend(a[..k], Words(a[k..]), Words(b));
    }
  }

  lemma LeadingSpaceAppend(a: string, b: string)
    requires a != [] && IsWhitespace(a[0])
    ensures Words(a + b) == Words(a[1..] + b) && Words(a) == Words(a[1..])
  {
    assert (a + b)[1..] == a[1..] + b;
  }

  /** The first word of `a` is the first word of `a + b` when `a` ends in whitespace. */
  lemma LeadingWordAppend(a: string, b: string) returns (k: nat)
    requires a != [] && !IsWhitespace(a[0]) && IsWhitespace(a[|a| - 1])
    ensures 0 < k < |a| && IsWhitespace(a[k..][|a[k..]| - 1])
    ensures Words(a) == [a[..k]] + Words(a[k..])
    ensures Words(a + b) == [a[..k]] + Words(a[k..] + b)
  {
    k := RunLength(a);
    RunLengthBeforeSpace(a, b);
    assert (a + b)[..k] == a[..k];
    assert (a + b)[k..] == a[k..] + b;
  }

  lemma ConsAppend<T>(x: T, xs: seq<T>, ys: seq<T>)
    ensures [x] + (xs + ys) == ([x] + xs) + ys
  {
  }

  lemma AppendAssoc<T>(xs: seq<T>, ys: seq<T>, zs: seq<T>)
    ensures xs + ys + zs == xs + (ys + zs)
  {
  }

  /** A word, a space, and then the rest: the word comes first. */
  lemma WordThenSpace(w: string, rest: string)
    requires IsWord(w)
    ensures Words(w + ([' '] + rest)) == [w] + Words(rest)
  {
    WordsOfWord(w, [' '] + rest);
    WordsSkipSpace(' ', rest);
  }

  /** Joining words with single spaces and splitting again gives the words back. */
  lemma {:induction false} WordsOfJoin(ws: seq<string>, tail: string)
    requires forall i :: 0 <= i < |ws| ==> IsWord(ws[i])
    requires tail == [] || IsWhitespace(tail[0])
    ensures Words(Join(ws, " ") + tail) == ws + Words(tail)
  {
    if ws == [] {
      assert Join(ws, " ") + tail == tail;
    } else if |ws| == 1 {
      WordsOfWord(ws[0], tail);
    } else {
      assert forall i :: 0 <= i < |ws[1..]| ==> IsWord(ws[1..][i]) by {
        forall i | 0 <= i < |ws[1..]| ensures IsWord(ws[1..][i]) {
          assert ws[1..][i] == ws[i + 1];
        }
      }
      WordsOfJoin(ws[1..], tail);
      WordsOfJoinStep(ws, tail);
    }
  }

  /** One step of the round trip: the first word, then the others. */
  lemma WordsOfJoinStep(ws: seq<string>, tail: string)
    requires |ws| >= 2 && IsWord(ws[0])
    requires Words(Join(ws[1..], " ") + tail) == ws[1..] + Words(tail)
    ensures Words(Join(ws, " ") + tail) == ws + Words(tail)
  {
    var w, more := ws[0], ws[1..];
    var j := Join(more, " ");
    assert ws == [w] + more;
    JoinCons(w, more, " ");
    assert Join(ws, " ") + tail == w + ([' '] + (j + tail));
    WordThenSpace(w, j + tail);
    ConsAppend(w, more, Words(tail));
  }

  lemma WordsOfJoinAlone(ws: seq<string>)
    requires forall i :: 0 <= i < |ws| ==> IsWord(ws[i])
    ensures Words(Join(ws, " ")) == ws
  {
    WordsOfJoin(ws, []);
    assert Join(ws, " ") + [] == Join(ws, " ");
  }
}
