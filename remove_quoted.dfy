/**
 * `squeeze_fit_remove_quoted`: drops fenced blocks and over-long words
 * from a post, then applies a head/tail "drain" to the word list when the
 * post has more words than `max_len`.
 *
 * The drain range the source computes is always empty, so the function
 * never removes a word: at or under the cap it returns the cleaned text
 * as it is, over the cap the same words joined by single spaces.
 */
module RemoveQuoted {
  import opened Text
  import opened Budget

  /** Words of this many UTF-8 bytes or more are dropped. */
  const LongWordBytes: nat := 150

  /** A line that opens or closes a fenced block. */
  predicate IsFence(line: string) {
    Contains(line, "```") || Contains(line, "\"\"\"")
  }

  /** `.filter(|word| word.len() < 150)`. */
  function ShortWords(ws: seq<string>): (r: seq<string>)
    ensures forall i :: 0 <= i < |r| ==> ByteLen(r[i]) < LongWordBytes
    ensures forall w :: w in r <==> w in ws && ByteLen(w) < LongWordBytes
  {
    if ws == [] then []
    else if ByteLen(ws[0]) < LongWordBytes then [ws[0]] + ShortWords(ws[1..])
    else ShortWords(ws[1..])
  }

  /** The filter keeps the order and the multiplicity of the words: it distributes over concatenation. */
  lemma {:induction false} ShortWordsAppend(a: seq<string>, b: seq<string>)
    ensures ShortWords(a + b) == ShortWords(a) + ShortWords(b)
  {
    if a == [] {
      assert a + b == b;
    } else {
      assert (a + b)[0] == a[0] && (a + b)[1..] == a[1..] + b;
      ShortWordsAppend(a[1..], b);
      if ByteLen(a[0]) < LongWordBytes {
        AppendAssoc([a[0]], ShortWords(a[1..]), ShortWords(b));
      }
    }
  }

  /** The cleaned form of one line outside a fence: its short words joined by spaces. */
  function CleanLine(line: string): (r: string)
    ensures Words(r) == ShortWords(Words(line))
  {
    var short := ShortWords(Words(line));
    assert forall i :: 0 <= i < |short| ==> IsWord(short[i]) by {
      forall i | 0 <= i < |short| ensures IsWord(short[i]) {
        assert short[i] in short;
      }
    }
    WordsOfJoinAlone(short);
    Join(short, " ")
  }

  /** The `inside_quote` flag after `lines`: flipped by every fence line. */
  function InsideQuote(lines: seq<string>): bool {
    if lines == [] then false
    else InsideQuote(lines[..|lines| - 1]) != IsFence(lines[|lines| - 1])
  }

  /** A line is kept when it is no fence and no fence is open before it. */
  predicate KeptAfter(before: seq<string>, line: string) {
    !IsFence(line) && !InsideQuote(before)
  }

  /** The `body` the loop accumulates over `lines`: one cleaned line plus '\n' per kept line. */
  function Body(lines: seq<string>): (body: string)
    ensures body == [] || body[|body| - 1] == '\n'
  {
    if lines == [] then []
    else
      var before, line := lines[..|lines| - 1], lines[|lines| - 1];
      if KeptAfter(before, line) then Body(before) + CleanLine(line) + "\n" else Body(before)
  }

  /** The words of `Body(lines)`, line by line. */
  function BodyWords(lines: seq<string>): (ws: seq<string>)
    ensures forall i :: 0 <= i < |ws| ==> IsWord(ws[i]) && ByteLen(ws[i]) < LongWordBytes
  {
    if lines == [] then []
    else
      var before, line := lines[..|lines| - 1], lines[|lines| - 1];
      if KeptAfter(before, line) then BodyWords(before) + ShortWords(Words(line)) else BodyWords(before)
  }

  /** The cleaned text of a post. */
  function Cleaned(post: string): (r: string)
    ensures r == [] || r[|r| - 1] == '\n'
    ensures Words(r) == BodyWords(Lines(post))
  {
    BodyWordsAreWords(Lines(post));
    Body(Lines(post))
  }

  /**
   * The range lines 152-162 hand to `Vec::drain`. For every body length
   * and every head count up to it, start and end coincide, so the range
   * is empty.
   */
  function DrainRange(bodyLen: nat, nHead: nat): (r: (nat, nat))
    requires nHead <= bodyLen
    ensures r.0 == r.1 == nHead
  {
    var nKeepTillEnd := bodyLen - nHead;
    var drainStart := if nHead < bodyLen then nHead else bodyLen;
    var drainEnd := if nKeepTillEnd <= bodyLen then bodyLen - nKeepTillEnd else 0;
    (drainStart, drainEnd)
  }

  /**
   * The function itself. It requires that the head count is at most the
   * number of words, which is exactly when `body_len - n_take_from_beginning`
   * (line 149) does not underflow; every split up to one meets it.
   */
  method SqueezeFitRemoveQuoted(post: string, maxLen: U16, split: Split) returns (out: string)
    requires FloorOf(|Words(Cleaned(post))|, split) <= |Words(Cleaned(post))|
    ensures out == if |Words(Cleaned(post))| <= maxLen then Cleaned(post)
                   else Join(Words(Cleaned(post)), " ")
    ensures Words(out) == Words(Cleaned(post)) == BodyWords(Lines(post))
  {
    var lines := Lines(post);
    var body: string := [];
    var insideQuote := false;
    for i := 0 to |lines|
      invariant insideQuote == InsideQuote(lines[..i])
      invariant body == Body(lines[..i])
    {
      var line := lines[i];
      assert lines[..i + 1] == lines[..i] + [line];
      BodyStep(lines[..i], line);
      if IsFence(line) {
        insideQuote := !insideQuote;
        continue;
      }
      if !insideQuote {
        body := body + CleanLine(line) + "\n";
      }
    }
    assert lines[..|lines|] == lines;
    assert body == Cleaned(post);

    var bodyWords := Words(body);
    var bodyLen := |bodyWords|;
    var nTakeFromBeginning := FloorOf(bodyLen, split);
    var (drainStart, drainEnd) := DrainRange(bodyLen, nTakeFromBeginning);
    if bodyLen > maxLen {
      var kept := bodyWords[..drainStart] + bodyWords[drainEnd..];
      assert bodyWords == bodyWords[..drainStart] + bodyWords[drainStart..];
      out := Join(kept, " ");
      WordsOfJoinAlone(bodyWords);
    } else {
      out := body;
    }
    BodyWordsAreWords(lines);
  }

  // ---------------------------------------------------------------------
  // Properties of the cleaned text

  /** The words of the cleaned text are the short words of the kept lines, in order. */
  lemma {:induction false} BodyWordsAreWords(lines: seq<string>)
    ensures Words(Body(lines)) == BodyWords(lines)
  {
    if lines != [] {
      var before, line := lines[..|lines| - 1], lines[|lines| - 1];
      BodyWordsAreWords(before);
      if KeptAfter(before, line) {
        var short := ShortWords(Words(line));
        assert Body(lines) == Body(before) + Join(short, " ") + "\n";
        assert BodyWords(lines) == BodyWords(before) + short;
        KeptLineWords(Body(before), short);
      }
    }
  }

  /** A kept line adds exactly its words to the words of the body. */
  lemma KeptLineWords(body: string, ws: seq<string>)
    requires body == [] || body[|body| - 1] == '\n'
    requires forall i :: 0 <= i < |ws| ==> IsWord(ws[i])
    ensures Words(body + Join(ws, " ") + "\n") == Words(body) + ws
  {
    var line := Join(ws, " ") + "\n";
    AppendAssoc(body, Join(ws, " "), "\n");
    WordsAppend(body, line);
    WordsOfJoin(ws, "\n");
    assert Words("\n") == [];
  }

  /** What one more line does to the body: appends it cleaned, or nothing. */
  lemma BodyStep(lines: seq<string>, line: string)
    ensures KeptAfter(lines, line) ==> Body(lines + [line]) == Body(lines) + CleanLine(line) + "\n"
    ensures !KeptAfter(lines, line) ==> Body(lines + [line]) == Body(lines)
    ensures InsideQuote(lines + [line]) == (InsideQuote(lines) != IsFence(line))
  {
    assert (lines + [line])[..|lines|] == lines;
  }

  /**
   * Two line sequences that leave the same body behind and the same
   * fence parity are indistinguishable to every continuation.
   */
  lemma {:induction false} BodyCongruence(xs: seq<string>, ys: seq<string>, rest: seq<string>)
    requires Body(xs) == Body(ys) && InsideQuote(xs) == InsideQuote(ys)
    ensures Body(xs + rest) == Body(ys + rest)
    ensures InsideQuote(xs + rest) == InsideQuote(ys + rest)
    decreases |rest|
  {
    if rest == [] {
      assert xs + rest == xs && ys + rest == ys;
    } else {
      var init, last := rest[..|rest| - 1], rest[|rest| - 1];
      BodyCongruence(xs, ys, init);
      StepCongruence(xs + init, ys + init, last);
      AppendLast(xs, rest);
      AppendLast(ys, rest);
    }
  }

  lemma AppendLast<T>(xs: seq<T>, rest: seq<T>)
    requires rest != []
    ensures xs + rest == (xs + rest[..|rest| - 1]) + [rest[|rest| - 1]]
  {
  }

  lemma StepCongruence(xs: seq<string>, ys: seq<string>, line: string)
    requires Body(xs) == Body(ys) && InsideQuote(xs) == InsideQuote(ys)
    ensures Body(xs + [line]) == Body(ys + [line])
    ensures InsideQuote(xs + [line]) == InsideQuote(ys + [line])
  {
    BodyStep(xs, line);
    BodyStep(ys, line);
  }

  /** Once a fence is open, lines without a fence add nothing. */
  lemma {:induction false} OpenFenceSwallows(pre: seq<string>, fence: string, mid: seq<string>)
    requires IsFence(fence) && !InsideQuote(pre)
    requires forall j :: 0 <= j < |mid| ==> !IsFence(mid[j])
    ensures Body(pre + [fence] + mid) == Body(pre)
    ensures InsideQuote(pre + [fence] + mid)
    decreases |mid|
  {
    if mid == [] {
      assert pre + [fence] + mid == pre + [fence];
      BodyStep(pre, fence);
    } else {
      var init, last := mid[..|mid| - 1], mid[|mid| - 1];
      assert forall j :: 0 <= j < |init| ==> !IsFence(init[j]);
      OpenFenceSwallows(pre, fence, init);
      AppendLast(pre + [fence], mid);
      SwallowStep(pre + [fence] + init, last);
    }
  }

  /** Inside an open fence, a line without a fence adds nothing and keeps the fence open. */
  lemma SwallowStep(lines: seq<string>, line: string)
    requires InsideQuote(lines) && !IsFence(line)
    ensures Body(lines + [line]) == Body(lines)
    ensures InsideQuote(lines + [line])
  {
    BodyStep(lines, line);
  }

  /** A fence that is never closed drops every line after it. */
  lemma UnclosedFenceDropsRest(pre: seq<string>, fence: string, rest: seq<string>)
    requires IsFence(fence) && !InsideQuote(pre)
    requires forall j :: 0 <= j < |rest| ==> !IsFence(rest[j])
    ensures Body(pre + [fence] + rest) == Body(pre)
  {
    OpenFenceSwallows(pre, fence, rest);
  }

  /**
   * A fenced block that opens and closes is cut out, fences included:
   * the text is cleaned as if the block had never been there.
   */
  lemma ClosedFenceRemoved(pre: seq<string>, open: string, block: seq<string>, close: string, post: seq<string>)
    requires IsFence(open) && IsFence(close) && !InsideQuote(pre)
    requires forall j :: 0 <= j < |block| ==> !IsFence(block[j])
    ensures Body(pre + [open] + block + [close] + post) == Body(pre + post)
  {
    var upTo := pre + [open] + block;
    OpenFenceSwallows(pre, open, block);
    BodyStep(upTo, close);
    BodyCongruence(upTo + [close], pre, post);
    assert pre + [open] + block + [close] + post == (upTo + [close]) + post;
  }

  /** Number of fence lines. */
  function FenceCount(lines: seq<string>): nat {
    if lines == [] then 0
    else FenceCount(lines[..|lines| - 1]) + (if IsFence(lines[|lines| - 1]) then 1 else 0)
  }

  /** The flag is set exactly after an odd number of fence lines. */
  lemma {:induction false} InsideQuoteIsOddFences(lines: seq<string>)
    ensures InsideQuote(lines) <==> FenceCount(lines) % 2 == 1
  {
    if lines != [] {
      InsideQuoteIsOddFences(lines[..|lines| - 1]);
    }
  }

  /** A line after an odd number of fence lines contributes nothing. */
  lemma OddFencesDropLine(before: seq<string>, line: string)
    requires FenceCount(before) % 2 == 1
    ensures Body(before + [line]) == Body(before)
    ensures BodyWords(before + [line]) == BodyWords(before)
  {
    InsideQuoteIsOddFences(before);
    assert (before + [line])[..|before|] == before;
  }

  /** Empty input gives empty output. */
  lemma EmptyPostIsEmpty()
    ensures Cleaned([]) == [] && Words(Cleaned([])) == []
  {
  }

  /** No line containing a fence marker contributes a word of its own. */
  lemma FenceLineContributesNothing(lines: seq<string>, line: string)
    requires IsFence(line)
    ensures BodyWords(lines + [line]) == BodyWords(lines)
    ensures Body(lines + [line]) == Body(lines)
  {
    assert (lines + [line])[..|lines|] == lines;
  }

  // ---------------------------------------------------------------------
  // The drain as written, and the evidently intended one

  /**
   * As written, a post whose cleaned text has more than `max_len` words
   * comes back with exactly as many words: the cap is never enforced.
   */
  lemma OverCapKeepsEveryWord(post: string, maxLen: U16)
    requires |Words(Cleaned(post))| > maxLen
    ensures |Words(Join(Words(Cleaned(post)), " "))| == |Words(Cleaned(post))| > maxLen
  {
    WordsOfJoinAlone(Words(Cleaned(post)));
  }

  /**
   * The evidently intended reduction of the word list: over the cap, keep
   * the first `max_len * split` words and the last words up to `max_len`,
   * dropping the middle.
   */
  function IntendedWords(words: seq<string>, maxLen: U16, split: Split): (r: seq<string>)
    requires AtMostOne(split)
    ensures |words| <= maxLen ==> r == words
    ensures |words| > maxLen ==>
      var h := FloorOf(maxLen, split);
      |r| == maxLen && r[..h] == words[..h] && r[h..] == words[|words| - (maxLen - h)..]
  {
    if |words| <= maxLen then words else HeadTail(words, FloorOf(maxLen, split), maxLen)
  }
}
