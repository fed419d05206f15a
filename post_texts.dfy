/**
 * `squeeze_fit_post_texts`: cuts the middle out of a text's token list so
 * that `max_len` tokens remain. The tokenizer's `encode_ordinary` and
 * `decode` are parameters; nothing is assumed about them except that the
 * head count derived from the token count of `encode_ordinary` fits the
 * budget (`HeadFits`), which line 184 needs in order not to underflow.
 */
module PostTexts {
  import opened Wrappers
  import opened Budget

  /** A token id of the tokenizer. */
  type Token = nat

  /** What the function returns when the kept tokens do not decode. */
  const DecodeFailed: string := "failed to decode tokens"

  /**
   * The number of leading tokens kept, `ceil(input_len * split)` in exact
   * arithmetic. The source subtracts it from `max_len` (line 184), so the
   * function needs it to be at most `max_len` whenever it truncates.
   */
  predicate HeadFits(inputLen: nat, maxLen: U16, split: Split) {
    maxLen <= inputLen ==> CeilOf(inputLen, split) <= maxLen
  }

  method SqueezeFitPostTexts(
    text: string, maxLen: U16, split: Split,
    encode: string -> seq<Token>, decode: seq<Token> -> Option<string>)
    returns (out: string)
    requires HeadFits(|encode(text)|, maxLen, split)
    ensures |encode(text)| < maxLen ==> out == text
    ensures maxLen <= |encode(text)| ==>
      var tokens := encode(text);
      var kept := HeadTail(tokens, CeilOf(|tokens|, split), maxLen);
      out == match decode(kept) case Some(s) => s case None => DecodeFailed
  {
    var inputTokens := encode(text);
    var inputLen := |inputTokens|;
    if inputLen < maxLen {
      return text;
    }
    var nTakeFromBeginning := CeilOf(inputLen, split);
    var nTakeFromEnd := maxLen - nTakeFromBeginning;

    var concatenated: seq<Token> := [];
    concatenated := concatenated + inputTokens[..nTakeFromBeginning];
    concatenated := concatenated + inputTokens[inputLen - nTakeFromEnd..];
    assert concatenated == HeadTail(inputTokens, nTakeFromBeginning, maxLen);

    out := match decode(concatenated) case Some(s) => s case None => DecodeFailed;
  }

  /**
   * The kept tokens are exactly `max_len` long: the first `n_head` input
   * tokens followed by the last `max_len - n_head`, and the two spans do
   * not overlap.
   */
  lemma KeptTokens(tokens: seq<Token>, maxLen: U16, split: Split)
    requires maxLen <= |tokens| && HeadFits(|tokens|, maxLen, split)
    ensures var h := CeilOf(|tokens|, split);
      var kept := HeadTail(tokens, h, maxLen);
      |kept| == maxLen
      && (forall i :: 0 <= i < h ==> kept[i] == tokens[i])
      && (forall i :: h <= i < maxLen ==> kept[i] == tokens[|tokens| - maxLen + i])
      && h <= |tokens| - (maxLen - h)
  {
    var h := CeilOf(|tokens|, split);
    var kept := HeadTail(tokens, h, maxLen);
    forall i | 0 <= i < h ensures kept[i] == tokens[i] {
      assert kept[..h][i] == tokens[..h][i];
    }
    forall i | h <= i < maxLen ensures kept[i] == tokens[|tokens| - maxLen + i] {
      assert kept[h..][i - h] == tokens[|tokens| - (maxLen - h)..][i - h];
    }
  }

  // ---------------------------------------------------------------------
  // The head count as written, and the evidently intended one

  /**
   * As written, the head count grows with the input: once the input has
   * more than `max_len / split` tokens it exceeds `max_len`, and the
   * subtraction on line 184 underflows (a panic).
   */
  lemma {:induction false} HeadOverflowsBudget(inputLen: nat, maxLen: U16, split: Split)
    requires maxLen <= inputLen && maxLen * split.den < inputLen * split.num
    ensures !HeadFits(inputLen, maxLen, split)
  {
    var h := CeilOf(inputLen, split);
    CeilAtLeast(inputLen, split);
    assert maxLen * split.den < h * split.den;
    assert h > 0;
    MulCancel(maxLen, h - 1, split.den);
  }

  /** At the call site (12000 tokens, split 0.4) a narrative of 30001 tokens already panics. */
  lemma CallSiteUnderflow()
    ensures !HeadFits(30001, 12000, Fraction(2, 5))
  {
    HeadOverflowsBudget(30001, 12000, Fraction(2, 5));
  }

  /**
   * The evidently intended kept tokens: the head share is taken of
   * `max_len`, not of the input length, so for every input and every split
   * at most one the result has exactly `max_len` tokens and nothing underflows.
   */
  function IntendedKeptTokens(tokens: seq<Token>, maxLen: U16, split: Split): (r: seq<Token>)
    requires AtMostOne(split)
    ensures |tokens| < maxLen ==> r == tokens
    ensures maxLen <= |tokens| ==>
      var h := CeilOf(maxLen, split);
      |r| == maxLen && r[..h] == tokens[..h] && r[h..] == tokens[|tokens| - (maxLen - h)..]
  {
    if |tokens| < maxLen then tokens else HeadTail(tokens, CeilOf(maxLen, split), maxLen)
  }
}
