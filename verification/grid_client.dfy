/**
 * The AI Power Grid client: the prompt it submits, the bounded polling of the
 * asynchronous text-generation status endpoint, and the clean-up of the text
 * that comes back.
 *
 * The HTTP endpoints are parameters: `submit` is the reply to the generation
 * request for a prompt, and `statusAt(k)` is the reply to the (k+1)-th status
 * check.
 */
module GridClient {
  import opened Wrappers
  import Text

  // ------------------------------------------------------------------ polling

  /** One entry of a status reply's `generations` list. */
  datatype Generation = Generation(text: Option<string>, model: Option<string>)

  /**
   * A status check: the decoded JSON reply (`done`/`faulted` stand for the
   * field being `True`; a missing `generations` list is the empty one), or the
   * message of the exception raised while fetching or decoding it.
   */
  datatype StatusReply =
    | Status(done: bool, faulted: bool, generations: seq<Generation>, faultedMessage: Option<string>)
    | StatusRequestFailed(message: string)

  /** The dictionary `_poll_for_text_results` returns. */
  datatype PollResult =
    | Generated(text: string, model: string)
    | PollError(error: string, done: bool, faulted: bool)

  const PollIntervalSeconds := 3
  const DefaultMaxWaitSeconds := 120

  /** `max_wait_time_seconds // poll_interval_seconds` (floor division). */
  function MaxAttempts(maxWaitSeconds: int): (n: int)
    ensures PollIntervalSeconds * n <= maxWaitSeconds < PollIntervalSeconds * n + PollIntervalSeconds
  {
    maxWaitSeconds / PollIntervalSeconds
  }

  lemma DefaultAttempts()
    ensures MaxAttempts(DefaultMaxWaitSeconds) == 40
  {
  }

  function TimedOut(maxWaitSeconds: int): PollResult {
    PollError("Polling timed out after " + Text.IntToString(maxWaitSeconds) + " seconds", false, false)
  }

  /**
   * What a single status reply decides: `None` to keep polling, otherwise the
   * poll's result. `done` is looked at before `faulted`.
   */
  function Decision(reply: StatusReply): (r: Option<PollResult>)
    ensures r.None? <==> reply.Status? && !reply.done && !reply.faulted
    ensures r.Some? && r.value.Generated? ==> r.value.text != ""
    ensures reply.StatusRequestFailed? ==> r == Some(PollError(reply.message, false, false))
    ensures reply.Status? && reply.done && reply.generations != [] && reply.generations[0].text.Some?
              && reply.generations[0].text.value != ""
            ==> r == Some(Generated(reply.generations[0].text.value, reply.generations[0].model.GetOr("unknown")))
    ensures reply.Status? && reply.done && reply.generations != []
              && (reply.generations[0].text.None? || reply.generations[0].text.value == "")
            ==> r == Some(PollError("Generated text is empty", true, false))
    ensures reply.Status? && reply.done && reply.generations == [] ==> r == Some(PollError("No generations found", true, false))
    ensures reply.Status? && !reply.done && reply.faulted
            ==> r == Some(PollError(reply.faultedMessage.GetOr("Unknown error"), true, true))
  {
    match reply
    case StatusRequestFailed(message) => Some(PollError(message, false, false))
    case Status(done, faulted, generations, faultedMessage) =>
      if done then
        if |generations| > 0 then
          match generations[0].text
          case Some(t) =>
            if t != "" then Some(Generated(t, generations[0].model.GetOr("unknown")))
            else Some(PollError("Generated text is empty", true, false))
          case None => Some(PollError("Generated text is empty", true, false))
        else Some(PollError("No generations found", true, false))
      else if faulted then Some(PollError(faultedMessage.GetOr("Unknown error"), true, true))
      else None
  }

  /**
   * The poll, specified: starting at check `from`, the first reply that decides
   * gives the result, unless the attempts run out first. Also gives the number
   * of checks made in total.
   */
  function Polled(statusAt: nat -> StatusReply, maxWaitSeconds: int, from: nat): (PollResult, nat)
    decreases MaxAttempts(maxWaitSeconds) - from
  {
    if from >= MaxAttempts(maxWaitSeconds) then (TimedOut(maxWaitSeconds), from)
    else
      match Decision(statusAt(from))
      case Some(result) => (result, from + 1)
      case None => Polled(statusAt, maxWaitSeconds, from + 1)
  }

  /**
   * The poll makes at most `max_wait // 3` checks; every reply before the last
   * one kept it polling; the last one decided the result, or else every allowed
   * check was made and the result is the timeout error with `done: False`.
   */
  lemma {:induction false} PolledCharacterization(statusAt: nat -> StatusReply, maxWaitSeconds: int, from: nat)
    ensures var (result, checks) := Polled(statusAt, maxWaitSeconds, from);
      && from <= checks
      && (from < MaxAttempts(maxWaitSeconds) ==> checks <= MaxAttempts(maxWaitSeconds))
      && (forall k :: from <= k < checks - 1 ==> Decision(statusAt(k)).None?)
      && ((checks > from && Decision(statusAt(checks - 1)).Some? && result == Decision(statusAt(checks - 1)).value)
          || (result == TimedOut(maxWaitSeconds) && checks == if from < MaxAttempts(maxWaitSeconds) then MaxAttempts(maxWaitSeconds) else from))
    decreases MaxAttempts(maxWaitSeconds) - from
  {
    if from < MaxAttempts(maxWaitSeconds) && Decision(statusAt(from)).None? {
      PolledCharacterization(statusAt, maxWaitSeconds, from + 1);
    }
  }

  /**
   * `_poll_for_text_results`: checks the status until a reply is done or
   * faulted, sleeping before every check but the first, for at most
   * `max_wait // 3` checks.
   */
  method PollForTextResults(statusAt: nat -> StatusReply, maxWaitSeconds: int) returns (result: PollResult, checks: nat, sleeps: nat)
    ensures (result, checks) == Polled(statusAt, maxWaitSeconds, 0)
    ensures sleeps == if checks == 0 then 0 else checks - 1
  {
    var attempts: nat := 0;
    var maxAttempts := MaxAttempts(maxWaitSeconds);
    sleeps := 0;
    while attempts < maxAttempts
      invariant attempts == 0 || attempts <= maxAttempts
      invariant Polled(statusAt, maxWaitSeconds, attempts) == Polled(statusAt, maxWaitSeconds, 0)
      invariant sleeps == if attempts == 0 then 0 else attempts - 1
      decreases maxAttempts - attempts
    {
      attempts := attempts + 1;
      if attempts > 1 {
        sleeps := sleeps + 1;
      }
      var reply := statusAt(attempts - 1);
      match reply {
        case StatusRequestFailed(message) =>
          return PollError(message, false, false), attempts, sleeps;
        case Status(done, faulted, generations, faultedMessage) =>
          if done {
            if |generations| > 0 {
              var generation := generations[0];
              if generation.text.Some? && generation.text.value != "" {
                return Generated(generation.text.value, generation.model.GetOr("unknown")), attempts, sleeps;
              } else {
                return PollError("Generated text is empty", true, false), attempts, sleeps;
              }
            } else {
              return PollError("No generations found", true, false), attempts, sleeps;
            }
          } else if faulted {
            return PollError(faultedMessage.GetOr("Unknown error"), true, true), attempts, sleeps;
          }
      }
    }
    return TimedOut(maxWaitSeconds), attempts, sleeps;
  }

  // ------------------------------------------------------------ normalising

  /**
   * `re.sub(r'(\S)\n(\S)', r'\1 \2', text)`: scanning from the left, a newline
   * between two non-whitespace characters becomes a space; matches do not
   * overlap, so the scan resumes after the second character.
   */
  function JoinBrokenLines(s: string): (r: string)
    ensures |r| == |s|
    ensures forall i :: 0 <= i < |s| ==> r[i] == s[i] || (s[i] == '\n' && r[i] == ' ')
    decreases |s|
  {
    if |s| < 3 then s
    else if !Text.IsSpace(s[0]) && s[1] == '\n' && !Text.IsSpace(s[2]) then
      var rest := JoinBrokenLines(s[3..]);
      assert forall i :: 3 <= i < |s| ==> s[i] == s[3..][i - 3];
      [s[0], ' ', s[2]] + rest
    else
      var rest := JoinBrokenLines(s[1..]);
      assert forall i :: 1 <= i < |s| ==> s[i] == s[1..][i - 1];
      [s[0]] + rest
  }

  /** A newline between two non-whitespace characters: what the pattern `(\S)\n(\S)` matches around. */
  predicate BrokenLineAt(s: string, i: int) {
    0 < i < |s| - 1 && s[i] == '\n' && !Text.IsSpace(s[i - 1]) && !Text.IsSpace(s[i + 1])
  }

  /** The newline at `i` became a space. */
  predicate JoinedAt(s: string, r: string, i: int) {
    0 <= i < |s| && i < |r| && s[i] == '\n' && r[i] == ' '
  }

  /** Only a newline between two non-whitespace characters is ever changed. */
  lemma {:induction false} JoinChangesOnlyBrokenLines(s: string)
    ensures forall i :: 0 <= i < |s| && JoinBrokenLines(s)[i] != s[i] ==> BrokenLineAt(s, i)
    decreases |s|
  {
    var r := JoinBrokenLines(s);
    if |s| >= 3 {
      var n := if BrokenLineAt(s, 1) then 3 else 1;
      var t := s[n..];
      assert r == (if n == 3 then [s[0], ' ', s[2]] else [s[0]]) + JoinBrokenLines(t);
      JoinChangesOnlyBrokenLines(t);
      forall i | n <= i < |s| && r[i] != s[i]
        ensures BrokenLineAt(s, i)
      {
        assert r[i] == JoinBrokenLines(t)[i - n] && s[i] == t[i - n];
        assert BrokenLineAt(t, i - n);
        assert s[i - 1] == t[i - n - 1] && s[i + 1] == t[i - n + 1];
      }
    }
  }

  /**
   * Every newline between two non-whitespace characters becomes a space, unless
   * the character before it already ended the previous match.
   */
  lemma {:induction false} JoinEveryFreeBreak(s: string)
    ensures forall i :: BrokenLineAt(s, i) && !JoinedAt(s, JoinBrokenLines(s), i - 2) ==> JoinBrokenLines(s)[i] == ' '
    decreases |s|
  {
    var r := JoinBrokenLines(s);
    if |s| >= 3 {
      var joined := BrokenLineAt(s, 1);
      var n := if joined then 3 else 1;
      var t := s[n..];
      assert r == (if joined then [s[0], ' ', s[2]] else [s[0]]) + JoinBrokenLines(t);
      JoinEveryFreeBreak(t);
      forall i | BrokenLineAt(s, i) && !JoinedAt(s, r, i - 2)
        ensures r[i] == ' '
      {
        if i == 1 {
          assert joined;
        } else if i <= n {
          assert false;
        } else {
          assert r[i] == JoinBrokenLines(t)[i - n] && s[i] == t[i - n];
          assert s[i - 1] == t[i - n - 1] && s[i + 1] == t[i - n + 1];
          assert BrokenLineAt(t, i - n);
          if i - n >= 2 {
            assert s[i - 2] == t[i - n - 2] && r[i - 2] == JoinBrokenLines(t)[i - n - 2];
          }
          assert !JoinedAt(t, JoinBrokenLines(t), i - n - 2);
        }
      }
    }
  }

  /**
   * Matches do not overlap: a newline that is changed never sits two after a
   * newline that was joined, since that join consumed the character between them.
   */
  lemma {:induction false} JoinNeverOverlaps(s: string)
    ensures forall i :: 0 <= i < |s| && JoinBrokenLines(s)[i] != s[i] ==> !JoinedAt(s, JoinBrokenLines(s), i - 2)
    decreases |s|
  {
    var r := JoinBrokenLines(s);
    if |s| >= 3 {
      var joined := BrokenLineAt(s, 1);
      var n := if joined then 3 else 1;
      var t := s[n..];
      assert r == (if joined then [s[0], ' ', s[2]] else [s[0]]) + JoinBrokenLines(t);
      JoinNeverOverlaps(t);
      JoinChangesOnlyBrokenLines(t);
      forall i | 0 <= i < |s| && r[i] != s[i]
        ensures !JoinedAt(s, r, i - 2)
      {
        if i < n {
          assert i == 1 && joined;
        } else if i == n {
          assert false;
        } else if i - 2 < n {
          assert i - 2 == 0 || s[i - 2] == s[2];
        } else {
          assert r[i] == JoinBrokenLines(t)[i - n] && s[i] == t[i - n];
          assert s[i - 2] == t[i - n - 2] && r[i - 2] == JoinBrokenLines(t)[i - n - 2];
        }
      }
    }
  }

  /** Line endings made Unix: `\r\n` and then every remaining `\r` become `\n`. */
  function LineFeeds(s: string): (r: string)
    ensures '\r' !in r
    ensures '\r' !in s ==> r == s
  {
    if s == [] then []
    else if s[0] == '\r' then "\n" + LineFeeds(if |s| >= 2 && s[1] == '\n' then s[2..] else s[1..])
    else [s[0]] + LineFeeds(s[1..])
  }

  /** Replacing a one-character pattern handles the first character on its own. */
  lemma ReplaceCharHead(c: char, rest: string, pat: char, rep: string)
    ensures Text.ReplaceAll([c] + rest, [pat], rep) == (if c == pat then rep else [c]) + Text.ReplaceAll(rest, [pat], rep)
  {
    assert ([c] + rest)[..1] == [c];
    assert ([c] + rest)[1..] == rest;
  }

  /** The two `replace` calls of `_normalize_api_text` together make line endings Unix. */
  lemma {:induction false} ReplacementsMakeLineFeeds(s: string)
    ensures Text.ReplaceAll(Text.ReplaceAll(s, "\r\n", "\n"), "\r", "\n") == LineFeeds(s)
    decreases |s|
  {
    if s != [] {
      var n := LineEndingStep(s);
      var head := if n == 2 then '\n' else s[0];
      ReplacementsMakeLineFeeds(s[n..]);
      ReplaceCharHead(head, Text.ReplaceAll(s[n..], "\r\n", "\n"), '\r', "\n");
    }
  }

  /** The first step of both sides: a leading `\r\n` is taken as a unit, anything else one character at a time. */
  lemma LineEndingStep(s: string) returns (n: nat)
    requires s != []
    ensures n == (if |s| >= 2 && s[0] == '\r' && s[1] == '\n' then 2 else 1)
    ensures Text.ReplaceAll(s, "\r\n", "\n") == [if n == 2 then '\n' else s[0]] + Text.ReplaceAll(s[n..], "\r\n", "\n")
    ensures LineFeeds(s) == (if s[0] == '\r' then "\n" else [s[0]]) + LineFeeds(s[n..])
  {
    if |s| >= 2 && s[0] == '\r' && s[1] == '\n' {
      assert s[..2] == "\r\n";
      n := 2;
    } else {
      if |s| >= 2 {
        assert s[..2] != "\r\n";
      }
      n := 1;
    }
  }

  /** `_normalize_api_text`: broken lines joined, line endings made Unix, then stripped. */
  function NormalizeApiText(text: string): (r: string)
    ensures |r| <= |text|
    ensures r == [] || (!Text.IsSpace(r[0]) && !Text.IsSpace(r[|r| - 1]))
    ensures r == Text.Strip(LineFeeds(JoinBrokenLines(text)))
  {
    if text == "" then ""
    else
      var joined := JoinBrokenLines(text);
      var once := Text.ReplaceAll(joined, "\r\n", "\n");
      ReplaceLength(joined, "\r\n", "\n");
      ReplaceLength(once, "\r", "\n");
      ReplacementsMakeLineFeeds(joined);
      Text.Strip(Text.ReplaceAll(once, "\r", "\n"))
  }

  lemma {:induction false} ReplaceLength(s: string, pat: string, rep: string)
    requires pat != [] && |rep| <= |pat|
    ensures |Text.ReplaceAll(s, pat, rep)| <= |s|
    decreases |s|
  {
    if |s| >= |pat| {
      if s[..|pat|] == pat {
        ReplaceLength(s[|pat|..], pat, rep);
      } else {
        ReplaceLength(s[1..], pat, rep);
      }
    }
  }

  /** The normalised text has no carriage return left and no whitespace at either end. */
  lemma NormalizedHasNoCarriageReturn(text: string)
    ensures '\r' !in NormalizeApiText(text)
  {
    if text != "" {
      var once := Text.ReplaceAll(JoinBrokenLines(text), "\r\n", "\n");
      var twice := Text.ReplaceAll(once, "\r", "\n");
      Text.ReplaceRemovesChar(once, '\r', "\n");
      var left := Text.StripLeft(twice);
      assert forall c :: c in left ==> c in twice;
      assert forall c :: c in Text.StripRight(left) ==> c in left;
    }
  }

  /** Only newlines between two non-whitespace characters are joined, and not overlapping ones. */
  lemma NormalizeJoinsFirstBreakOnly()
    ensures NormalizeApiText("a\nb\nc") == "a b\nc"
  {
    assert JoinBrokenLines("a\nb\nc") == "a b\nc";
    NormalizeUnchangedLines("a\nb\nc", "a b\nc");
  }

  /** A second pass joins the line break the first pass had to skip: normalising is not idempotent. */
  lemma NormalizeNotIdempotent()
    ensures NormalizeApiText("a b\nc") == "a b c"
  {
    assert JoinBrokenLines("a b\nc") == "a b c";
    NormalizeUnchangedLines("a b\nc", "a b c");
  }

  /** When joining broken lines gives text with no carriage return and no outer whitespace, that text is the result. */
  lemma NormalizeUnchangedLines(text: string, joined: string)
    requires text != "" && JoinBrokenLines(text) == joined
    requires '\r' !in joined && joined != "" && !Text.IsSpace(joined[0]) && !Text.IsSpace(joined[|joined| - 1])
    ensures NormalizeApiText(text) == joined
  {
    NoCarriageReturnAbsent(joined);
    Text.ReplaceAbsent(joined, "\r\n", "\n");
    Text.ReplaceAbsent(joined, "\r", "\n");
    Text.StripTrimmed(joined);
  }

  lemma {:induction false} NoCarriageReturnAbsent(s: string)
    requires '\r' !in s
    ensures !Text.Contains(s, "\r\n") && !Text.Contains(s, "\r")
    decreases |s|
  {
    if s != [] {
      NoCarriageReturnAbsent(s[1..]);
      assert s[0] != '\r';
    }
  }

  // --------------------------------------------------------------- prompting

  /** `f"[Document {i+1}] {item['text']}\n\n"`. */
  function DocumentBlock(index: nat, text: string): string {
    "[Document " + Text.IntToString(index + 1) + "] " + text + "\n\n"
  }

  /** The context string: the blocks of all documents, numbered from 1 in input order. */
  function Documents(texts: seq<string>): string {
    if texts == [] then ""
    else Documents(texts[..|texts| - 1]) + DocumentBlock(|texts| - 1, texts[|texts| - 1])
  }

  /** Every document appears, under its own number. */
  lemma {:induction false} DocumentsShowEvery(texts: seq<string>, k: nat)
    requires k < |texts|
    ensures Text.Contains(Documents(texts), DocumentBlock(k, texts[k]))
  {
    var prefix := Documents(texts[..|texts| - 1]);
    var last := DocumentBlock(|texts| - 1, texts[|texts| - 1]);
    if k == |texts| - 1 {
      Text.ContainsSuffix(prefix, last);
    } else {
      assert texts[..|texts| - 1][k] == texts[k];
      DocumentsShowEvery(texts[..|texts| - 1], k);
      Text.ContainsExtend(prefix, last, DocumentBlock(k, texts[k]));
    }
  }

  /** The context rendering loop of `get_answer`. */
  method FormatContext(texts: seq<string>) returns (formatted: string)
    ensures formatted == Documents(texts)
    ensures texts == [] <==> formatted == ""
  {
    formatted := "";
    var i := 0;
    while i < |texts|
      invariant 0 <= i <= |texts|
      invariant formatted == Documents(texts[..i])
    {
      assert texts[..i + 1][..i] == texts[..i];
      formatted := formatted + DocumentBlock(i, texts[i]);
      i := i + 1;
    }
    assert texts[..i] == texts;
  }

  /** The question is a follow-up when its lower-cased text mentions an earlier question. */
  predicate IsFollowup(question: string) {
    Text.Contains(Text.Lower(question), "previous question:")
    || Text.Contains(Text.Lower(question), "follow-up question:")
  }

  function Intro(): string {
    "\nYou are a helpful assistant "
    + ("answering questions about AI "
    + ("Power Grid.\nUse only the "
    + "following context "))
  }

  /** What follows "Use only the following context and" in the follow-up template. */
  function FollowupRules(): string {
    " previous conversation to "
    + ("answer the question. \nIf you "
    + ("don't know the answer based on "
    + ("the context, say \"I don't have "
    + ("enough information to answer "
    + "this question.\"\n\nCONTEXT:\n"))))
  }

  /** What follows "Use only the following context to" in the plain template. */
  function PlainRules(): string {
    " answer the question. If you "
    + ("don't know the answer based on "
    + ("the context, say \"I don't have "
    + ("enough information to answer "
    + "this question.\"\n\nCONTEXT:\n")))
  }

  function FollowupQuestionHeader(): string {
    "\n\nCONVERSATION HISTORY AND "
    + "CURRENT QUESTION:\n"
  }

  function PlainQuestionHeader(): string {
    "\n\nQUESTION:\n"
  }

  function AnswerCue(): string {
    "\n\nANSWER:\n"
  }

  /** The word after "Use only the following context": the templates differ from there. */
  function Word(followup: bool): string {
    if followup then "and" else "to"
  }

  function Rules(followup: bool): string {
    if followup then FollowupRules() else PlainRules()
  }

  function QuestionHeader(followup: bool): string {
    if followup then FollowupQuestionHeader() else PlainQuestionHeader()
  }

  /**
   * The shape both templates share: an opening, the word where they part, their
   * rules, the rendered context, a question header, and the question with the
   * answer cue.
   */
  function Assemble(intro: string, word: string, rules: string, context: string, header: string, tail: string): (r: string)
    ensures Text.StartsWith(r, intro + word)
    ensures Text.Contains(r, context)
    ensures Text.Contains(r, tail)
  {
    var body := context + (header + tail);
    var whole := intro + (word + (rules + body));
    Text.ContainsSuffix(rules, body);
    Text.ContainsSuffix(word, rules + body);
    Text.ContainsSuffix(intro, word + (rules + body));
    Text.ContainsTrans(word + (rules + body), rules + body, body);
    Text.ContainsTrans(whole, word + (rules + body), body);
    Text.ContainsPrefix(context, header + tail);
    Text.ContainsTrans(whole, body, context);
    Text.ContainsSuffix(header, tail);
    Text.ContainsSuffix(context, header + tail);
    Text.ContainsTrans(body, header + tail, tail);
    Text.ContainsTrans(whole, body, tail);
    assert whole[..|intro + word|] == intro + word;
    whole
  }

  /** A prompt that opens with the plain template's words does not open with the follow-up's. */
  lemma OpeningsDiffer(r: string, intro: string, word: string)
    requires Text.StartsWith(r, intro + word) && word == Word(false)
    ensures !Text.StartsWith(r, intro + Word(true))
  {
    assert r[|intro|] == (intro + word)[|intro|] == 't';
    assert (intro + Word(true))[|intro|] == 'a';
  }

  /** The prompt `get_answer` submits for a question and its rendered context. */
  function Prompt(question: string, formattedContext: string): (r: string)
    ensures Text.StartsWith(r, Intro() + Word(IsFollowup(question)))
  {
    Assemble(Intro(), Word(IsFollowup(question)), Rules(IsFollowup(question)), formattedContext,
             QuestionHeader(IsFollowup(question)), question + AnswerCue())
  }

  /** The rendered context appears in the prompt verbatim. */
  lemma PromptHasContext(question: string, formattedContext: string)
    ensures Text.Contains(Prompt(question, formattedContext), formattedContext)
  {
  }

  /** The question appears verbatim, right before the answer cue. */
  lemma PromptHasQuestion(question: string, formattedContext: string)
    ensures Text.Contains(Prompt(question, formattedContext), question + AnswerCue())
  {
  }

  /** The follow-up template is used exactly when the question is a follow-up. */
  lemma PromptTemplateChoice(question: string, formattedContext: string)
    ensures IsFollowup(question) <==> Text.StartsWith(Prompt(question, formattedContext), Intro() + Word(true))
  {
    if !IsFollowup(question) {
      OpeningsDiffer(Prompt(question, formattedContext), Intro(), Word(false));
    }
  }

  // ------------------------------------------------------------------ answer

  /**
   * The generation request as the client sees it: an HTTP reply (its status
   * code, the `id` of the decoded body, and the error detail used for a status
   * other than 200 or 202), or the message of a `requests` exception.
   */
  datatype SubmitReply =
    | Response(status: int, generationId: Option<string>, detail: string)
    | SubmitFailed(message: string)

  const MissingKeyError := "Error: AI Power Grid API key not configured"
  const MissingIdError := "Error: Failed to start text generation. No generation ID received."
  const NoTextError := "Error: No text was generated"

  /** Steps 3 of `get_answer`: a poll result becomes the reply text. */
  function AnswerFor(result: PollResult): (answer: string)
    ensures result.PollError? && result.error != "" ==> answer == "Error: " + result.error
    ensures result.PollError? && result.error == "" ==> answer == NoTextError
    ensures result.Generated? && result.text != "" ==> answer == NormalizeApiText(result.text)
  {
    match result
    case PollError(error, _, _) => if error != "" then "Error: " + error else NoTextError
    case Generated(text, _) => if text != "" then NormalizeApiText(text) else NoTextError
  }

  /**
   * The reply text once the prompt is submitted, and the number of status
   * checks made: a `requests` exception, a status other than 200 or 202, or a
   * missing id ends it at once; otherwise the generation is polled for up to
   * 120 seconds.
   */
  function AfterSubmit(reply: SubmitReply, statusAt: nat -> StatusReply): (string, nat) {
    match reply
    case SubmitFailed(message) => ("Error calling AI Power Grid API: " + message, 0)
    case Response(status, id, detail) =>
      if status != 200 && status != 202 then ("API Error (" + Text.IntToString(status) + "): " + detail, 0)
      else if id.None? || id == Some("") then (MissingIdError, 0)
      else (AnswerFor(Polled(statusAt, DefaultMaxWaitSeconds, 0).0), Polled(statusAt, DefaultMaxWaitSeconds, 0).1)
  }

  /**
   * `get_answer`: without an API key nothing is sent; otherwise the prompt is
   * submitted, a rejected or id-less submission is reported, and an accepted
   * one is polled for up to 120 seconds.
   */
  method GetAnswer(apiKey: Option<string>, question: string, contextTexts: seq<string>,
                   submit: string -> SubmitReply, statusAt: nat -> StatusReply)
    returns (answer: string, sent: Option<string>, checks: nat)
    ensures apiKey.None? || apiKey == Some("") ==> answer == MissingKeyError && sent == None && checks == 0
    ensures apiKey.Some? && apiKey != Some("") ==> sent == Some(Prompt(question, Documents(contextTexts)))
    ensures sent.Some? ==> (answer, checks) == AfterSubmit(submit(sent.value), statusAt)
  {
    checks := 0;
    if apiKey.None? || apiKey == Some("") {
      return MissingKeyError, None, 0;
    }
    var formattedContext := FormatContext(contextTexts);
    var prompt := Prompt(question, formattedContext);
    sent := Some(prompt);
    var reply := submit(prompt);
    match reply {
      case SubmitFailed(message) =>
        answer := "Error calling AI Power Grid API: " + message;
      case Response(status, id, detail) =>
        if status != 200 && status != 202 {
          answer := "API Error (" + Text.IntToString(status) + "): " + detail;
        } else if id.None? || id == Some("") {
          answer := MissingIdError;
        } else {
          var result, sleeps;
          result, checks, sleeps := PollForTextResults(statusAt, DefaultMaxWaitSeconds);
          answer := AnswerFor(result);
        }
    }
  }
}
