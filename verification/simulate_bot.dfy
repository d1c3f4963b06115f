/**
 * The simulation script's prompt builders: a transcript of the channel and the
 * two prompts (classify, respond) the bot would send to the language model.
 */
module SimulateBot {
  import Text
  import opened Transcript

  const HistoryHeader := "Recent conversation:\n"

  /**
   * `format_channel_history`: the empty string for no messages, otherwise the
   * header followed by one `author: content` line per message, in order.
   */
  method FormatChannelHistory(messages: seq<Utterance>) returns (r: string)
    ensures r == Render(HistoryHeader, messages)
    ensures messages == [] <==> r == ""
    ensures forall k :: 0 <= k < |messages| ==> Text.Contains(r, Line(messages[k]))
  {
    if messages == [] {
      return "";
    }
    r := HistoryHeader;
    var i := 0;
    while i < |messages|
      invariant 0 <= i <= |messages|
      invariant r == HistoryHeader + Lines(messages[..i])
    {
      assert messages[..i + 1][..i] == messages[..i];
      r := r + Line(messages[i]);
      i := i + 1;
    }
    assert messages[..i] == messages;
    forall k | 0 <= k < |messages|
      ensures Text.Contains(r, Line(messages[k]))
    {
      RenderShowsEvery(HistoryHeader, messages, k);
    }
  }

  /** The quoted current message, as both prompts show it. */
  function CurrentMessage(author: string, content: string): string {
    "Current message from " + author + ": \"" + content + "\""
  }

  function ClassificationIntro(): string {
    ", an AI assistant in a Discord "
    + ("channel. You have access to "
    + ("documentation about AI Power "
    + "Grid.\n\nRecent conversation:\n"))
  }

  function ClassificationCriteria(): string {
    "Should you respond to this "
    + ("message? Consider:\n1. Is this a "
    + ("question or request for help?\n"
    + ("2. Can you provide useful "
    + ("information about AI Power "
    + ("Grid?\n3. Would your response be "
    + ("helpful and relevant?\n4. Is the "
    + ("person asking for assistance or "
    + "information you can provide?\n\n")))))))
  }

  /** The closing instruction of the classification prompt. */
  function YesOrNo(): string {
    "Respond with only \"YES\" or \"NO\"."
  }

  /**
   * `simulate_classification_prompt`: names the bot, carries the history and the
   * quoted current message verbatim, and asks for YES or NO only.
   */
  function ClassificationPrompt(botName: string, author: string, content: string, history: string): (r: string)
    ensures Text.Contains(r, botName)
    ensures Text.Contains(r, history)
    ensures Text.Contains(r, CurrentMessage(author, content))
    ensures Text.Contains(r, YesOrNo())
  {
    var r5 := YesOrNo() + "\n";
    var r4 := CurrentMessage(author, content) + ("\n\n" + (ClassificationCriteria() + r5));
    var r3 := history + ("\n\n" + r4);
    var r2 := ClassificationIntro() + r3;
    var r1 := botName + r2;
    var r := "\nYou are " + r1;
    Text.ContainsSuffix("\nYou are ", r1);
    Text.ContainsPrefix(botName, r2);
    Text.ContainsSuffix(botName, r2);
    Text.ContainsSuffix(ClassificationIntro(), r3);
    Text.ContainsPrefix(history, "\n\n" + r4);
    Text.ContainsSuffix(history, "\n\n" + r4);
    Text.ContainsSuffix("\n\n", r4);
    Text.ContainsPrefix(CurrentMessage(author, content), "\n\n" + (ClassificationCriteria() + r5));
    Text.ContainsSuffix(CurrentMessage(author, content), "\n\n" + (ClassificationCriteria() + r5));
    Text.ContainsSuffix("\n\n", ClassificationCriteria() + r5);
    Text.ContainsSuffix(ClassificationCriteria(), r5);
    Text.ContainsPrefix(YesOrNo(), "\n");
    Text.ContainsTrans(r, r1, botName);
    Text.ContainsTrans(r, r1, r2);
    Text.ContainsTrans(r, r2, r3);
    Text.ContainsTrans(r, r3, history);
    Text.ContainsTrans(r, r3, "\n\n" + r4);
    Text.ContainsTrans(r, "\n\n" + r4, r4);
    Text.ContainsTrans(r, r4, CurrentMessage(author, content));
    Text.ContainsTrans(r, r4, "\n\n" + (ClassificationCriteria() + r5));
    Text.ContainsTrans(r, "\n\n" + (ClassificationCriteria() + r5), ClassificationCriteria() + r5);
    Text.ContainsTrans(r, ClassificationCriteria() + r5, r5);
    Text.ContainsTrans(r, r5, YesOrNo());
    r
  }

  function ResponseIntro(): string {
    ", a helpful assistant in a "
    + ("Discord channel. Respond "
    + ("naturally as if you're a "
    + ("regular user, not a bot.\n\n"
    + "Recent conversation:\n")))
  }

  function DocumentationHeader(): string {
    "Context from AI Power Grid "
    + "documentation:\n"
  }

  function ResponseInstructions(): string {
    "Respond naturally and "
    + ("conversationally. Don't mention "
    + ("that you're an AI or bot. Just "
    + ("answer the question or provide "
    + ("helpful information as if "
    + ("you're a knowledgeable person "
    + "in the chat.\n")))))
  }

  /**
   * `simulate_response_prompt`: names the bot, carries the history, the quoted
   * current message and the documentation context verbatim.
   */
  function ResponsePrompt(botName: string, author: string, content: string, history: string, contextDocs: string): (r: string)
    ensures Text.Contains(r, botName)
    ensures Text.Contains(r, history)
    ensures Text.Contains(r, CurrentMessage(author, content))
    ensures Text.Contains(r, DocumentationHeader() + contextDocs)
  {
    var r5 := DocumentationHeader() + (contextDocs + ("\n\n" + ResponseInstructions()));
    var r4 := CurrentMessage(author, content) + ("\n\n" + r5);
    var r3 := history + ("\n\n" + r4);
    var r2 := ResponseIntro() + r3;
    var r1 := botName + r2;
    var r := "\nYou are " + r1;
    Text.ContainsSuffix("\nYou are ", r1);
    Text.ContainsPrefix(botName, r2);
    Text.ContainsSuffix(botName, r2);
    Text.ContainsSuffix(ResponseIntro(), r3);
    Text.ContainsPrefix(history, "\n\n" + r4);
    Text.ContainsSuffix(history, "\n\n" + r4);
    Text.ContainsSuffix("\n\n", r4);
    Text.ContainsPrefix(CurrentMessage(author, content), "\n\n" + r5);
    Text.ContainsSuffix(CurrentMessage(author, content), "\n\n" + r5);
    Text.ContainsSuffix("\n\n", r5);
    assert r5 == (DocumentationHeader() + contextDocs) + ("\n\n" + ResponseInstructions());
    Text.ContainsPrefix(DocumentationHeader() + contextDocs, "\n\n" + ResponseInstructions());
    Text.ContainsTrans(r, r1, botName);
    Text.ContainsTrans(r, r1, r2);
    Text.ContainsTrans(r, r2, r3);
    Text.ContainsTrans(r, r3, history);
    Text.ContainsTrans(r, r3, "\n\n" + r4);
    Text.ContainsTrans(r, "\n\n" + r4, r4);
    Text.ContainsTrans(r, r4, CurrentMessage(author, content));
    Text.ContainsTrans(r, r4, "\n\n" + r5);
    Text.ContainsTrans(r, "\n\n" + r5, r5);
    Text.ContainsTrans(r, r5, DocumentationHeader() + contextDocs);
    r
  }
}
