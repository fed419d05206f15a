/**
 * The countdown loop of `handler`: one message per issue of the search
 * result, at most ten issues, then a limit notice. The issue analysis
 * (`analyze_issue`, a language-model call) is a parameter; the message
 * sends are the sequence of messages returned, in order.
 */
module Batch {
  import opened Wrappers

  /** The part of a search hit the loop uses. */
  datatype Issue = Issue(number: nat, htmlUrl: string)

  /** Issues summarized per trigger. */
  const Limit: nat := 10

  const LimitNotice: string :=
    "You've reached your limit of 10 issues. Please wait 10 minutes before running the command again."

  const FailurePrefix: string := "Summarization failed, no summary generated for issue: "

  /** Lines 85-91: the message for one issue, from its analysis. */
  function IssueMessage(analysis: Option<string>, url: string): (m: string)
    ensures |url| <= |m| && m[|m| - |url|..] == url
  {
    match analysis
    case Some(s) => s + "\n" + url
    case None => FailurePrefix + url
  }

  /** The messages for a run of issues, one each, in order. */
  function Messages(issues: seq<Issue>, analyze: Issue -> Option<string>): (ms: seq<string>)
    ensures |ms| == |issues|
    ensures forall i :: 0 <= i < |issues| ==> ms[i] == IssueMessage(analyze(issues[i]), issues[i].htmlUrl)
  {
    if issues == [] then []
    else Messages(issues[..|issues| - 1], analyze) + [IssueMessage(analyze(issues[|issues| - 1]), issues[|issues| - 1].htmlUrl)]
  }

  /**
   * The loop. The counter starts at ten and drops once per issue; after
   * the tenth issue it reaches zero, the notice goes out and the loop
   * stops. So the first ten issues get their message in order, the notice
   * is sent right after the tenth exactly when there are ten or more, and
   * no later issue is analysed.
   */
  method ReportIssues(issues: seq<Issue>, analyze: Issue -> Option<string>) returns (sent: seq<string>)
    ensures |issues| < Limit ==> sent == Messages(issues, analyze)
    ensures |issues| >= Limit ==> sent == Messages(issues[..Limit], analyze) + [LimitNotice]
  {
    sent := [];
    var count: int := 10;
    for i := 0 to |issues|
      invariant i <= Limit
      invariant count == 10 - i
      invariant sent == Messages(issues[..i], analyze)
    {
      count := count - 1;
      var issue := issues[i];
      var summary := IssueMessage(analyze(issue), issue.htmlUrl);
      MessagesStep(issues, i, analyze);
      sent := sent + [summary];
      if count <= 0 {
        sent := sent + [LimitNotice];
        return;
      }
    }
    assert issues[..|issues|] == issues;
  }

  lemma MessagesStep(issues: seq<Issue>, i: nat, analyze: Issue -> Option<string>)
    requires i < |issues|
    ensures Messages(issues[..i + 1], analyze)
         == Messages(issues[..i], analyze) + [IssueMessage(analyze(issues[i]), issues[i].htmlUrl)]
  {
    assert issues[..i + 1][..i] == issues[..i];
  }
}
