/**
 * The Discord front end of the documentation bot: the allowed-channel list
 * read from `DISCORD_CHANNELS`, and what `on_message` does with a message.
 *
 * The Discord client, the embeds and the document retrieval are not modelled;
 * whether the bot is mentioned is an input, and `failure(question)` is the
 * message of the exception the answer path raises for a question, if any.
 */
module Bot {
  import opened Wrappers
  import Text

  // ------------------------------------------------------------------ configuration

  /** How one comma-separated entry is read: skipped when blank, else `int()` of it stripped. */
  datatype Entry = Blank | Number(id: int) | Refused(text: string)

  function Classify(entry: string): Entry {
    var e := Text.Strip(entry);
    if e == "" then Blank
    else match Text.ParseInt(e)
      case None => Refused(e)
      case Some(id) => Number(id)
  }

  /** An entry is skipped iff it strips to nothing, read iff `int()` accepts it stripped, else refused. */
  lemma ClassifyReadsStripped(entry: string)
    ensures Classify(entry).Blank? <==> Text.Strip(entry) == ""
    ensures Classify(entry).Refused? <==> Text.Strip(entry) != "" && Text.ParseInt(Text.Strip(entry)).None?
    ensures Classify(entry).Number? ==> Text.ParseInt(Text.Strip(entry)) == Some(Classify(entry).id)
    ensures Classify(entry).Refused? ==> Classify(entry).text == Text.Strip(entry)
  {
  }

  function Classified(entries: seq<string>): (ks: seq<Entry>)
    ensures |ks| == |entries|
    ensures forall i :: 0 <= i < |entries| ==> ks[i] == Classify(entries[i])
  {
    seq(|entries|, i requires 0 <= i < |entries| => Classify(entries[i]))
  }

  /** The list comprehension over classified entries: the ids in order, or the first refused entry. */
  function ReadIds(ks: seq<Entry>): Result<seq<int>, string> {
    if ks == [] then Ok([])
    else match ks[0]
      case Blank => ReadIds(ks[1..])
      case Refused(text) => Err(text)
      case Number(id) =>
        match ReadIds(ks[1..])
        case Err(e) => Err(e)
        case Ok(ids) => Ok([id] + ids)
  }

  /** The ids of the numeric entries, in order: what the comprehension collects when nothing is refused. */
  function Ids(ks: seq<Entry>): (r: seq<int>)
    ensures |r| <= |ks|
  {
    if ks == [] then [] else (if ks[0].Number? then [ks[0].id] else []) + Ids(ks[1..])
  }

  /** The read succeeds exactly when no entry is refused. */
  lemma {:induction false} ReadIdsSucceeds(ks: seq<Entry>)
    ensures ReadIds(ks).Ok? <==> forall i :: 0 <= i < |ks| ==> !ks[i].Refused?
  {
    if ks != [] {
      ReadIdsSucceeds(ks[1..]);
      assert forall i :: 1 <= i < |ks| ==> ks[i] == ks[1..][i - 1];
    }
  }

  /** A successful read gives exactly the ids of the numeric entries, in order. */
  lemma {:induction false} ReadIdsValues(ks: seq<Entry>)
    requires ReadIds(ks).Ok?
    ensures ReadIds(ks).value == Ids(ks)
  {
    if ks != [] {
      ReadIdsValues(ks[1..]);
    }
  }

  /** A failed read reports the first refused entry. */
  lemma {:induction false} ReadIdsFirstError(ks: seq<Entry>)
    requires ReadIds(ks).Err?
    ensures exists i :: 0 <= i < |ks| && ks[i] == Refused(ReadIds(ks).error)
                     && (forall j :: 0 <= j < i ==> !ks[j].Refused?)
  {
    if !ks[0].Refused? {
      ReadIdsFirstError(ks[1..]);
      var i :| 0 <= i < |ks[1..]| && ks[1..][i] == Refused(ReadIds(ks[1..]).error)
        && (forall j :: 0 <= j < i ==> !ks[1..][j].Refused?);
      assert forall j :: 1 <= j < i + 1 ==> ks[j] == ks[1..][j - 1];
      assert ks[i + 1] == Refused(ReadIds(ks).error);
    } else {
      assert ks[0] == Refused(ReadIds(ks).error);
    }
  }

  /**
   * `[int(c.strip()) for c in entries if c.strip()]`: the ids of the non-blank
   * entries in order when `int()` accepts them all, else the first entry it
   * refuses.
   */
  function ParseEntries(entries: seq<string>): (r: Result<seq<int>, string>)
    ensures r.Ok? <==> forall i :: 0 <= i < |entries| ==> !Classify(entries[i]).Refused?
    ensures r.Ok? ==> r.value == Ids(Classified(entries))
    ensures r.Err? ==> exists i :: 0 <= i < |entries| && Classify(entries[i]) == Refused(r.error)
                                && (forall j :: 0 <= j < i ==> !Classify(entries[j]).Refused?)
  {
    var ks := Classified(entries);
    ReadIdsSucceeds(ks);
    if ReadIds(ks).Ok? then ReadIdsValues(ks); ReadIds(ks)
    else ReadIdsFirstError(ks); ReadIds(ks)
  }

  /** `ALLOWED_CHANNEL_IDS` from the value of `DISCORD_CHANNELS` (empty when unset). */
  function AllowedChannels(setting: string): Result<seq<int>, string> {
    ParseEntries(Text.Split(setting, ','))
  }

  /** An unset or empty setting allows every channel. */
  lemma EmptySettingAllowsAll()
    ensures AllowedChannels("") == Ok([])
  {
    assert Text.Split("", ',') == [""];
    Text.StripEmpty("");
    assert Classified([""]) == [Blank];
  }

  /** A setting such as "12,abc" is refused, naming the entry `int()` cannot read. */
  lemma NonNumberRefused(id: int, rest: string)
    requires ',' !in rest && Text.Strip(rest) != "" && Text.ParseInt(Text.Strip(rest)).None?
    ensures AllowedChannels(Text.IntToString(id) + "," + rest) == Err(Text.Strip(rest))
  {
    SplitIdThenRest(id, rest);
    ParseIdThenRefused(id, rest);
  }

  lemma SplitIdThenRest(id: int, rest: string)
    requires ',' !in rest
    ensures Text.Split(Text.IntToString(id) + "," + rest, ',') == [Text.IntToString(id), rest]
  {
    NumberHasNoComma(id);
    Text.SplitAfterWord(Text.IntToString(id), ',', rest);
    Text.SplitWord(rest, ',');
  }

  lemma ParseIdThenRefused(id: int, rest: string)
    requires Text.Strip(rest) != "" && Text.ParseInt(Text.Strip(rest)).None?
    ensures ParseEntries([Text.IntToString(id), rest]) == Err(Text.Strip(rest))
  {
    var entries := [Text.IntToString(id), rest];
    RenderedIdIsNumber(id);
    assert Classify(entries[1]) == Refused(Text.Strip(rest));
    var r := ParseEntries(entries);
    var i :| 0 <= i < |entries| && Classify(entries[i]) == Refused(r.error)
      && (forall j :: 0 <= j < i ==> !Classify(entries[j]).Refused?);
    assert i == 1;
  }

  /** The decimal forms of the ids, comma-separated. */
  function Render(ids: seq<int>): string {
    Text.Join(IdStrings(ids), ",")
  }

  function IdStrings(ids: seq<int>): (r: seq<string>)
    ensures |r| == |ids|
    ensures forall i :: 0 <= i < |ids| ==> r[i] == Text.IntToString(ids[i])
  {
    if ids == [] then [] else [Text.IntToString(ids[0])] + IdStrings(ids[1..])
  }

  /** Ids written as `str(id)` and joined with commas are read back as they were. */
  lemma {:induction false} AllowedChannelsRoundTrip(ids: seq<int>)
    requires ids != []
    ensures AllowedChannels(Render(ids)) == Ok(ids)
  {
    var parts := IdStrings(ids);
    forall i | 0 <= i < |parts|
      ensures ',' !in parts[i]
    {
      NumberHasNoComma(ids[i]);
    }
    Text.SplitJoin(parts, ',');
    ParseRendered(ids);
  }

  lemma ParseRendered(ids: seq<int>)
    ensures ParseEntries(IdStrings(ids)) == Ok(ids)
  {
    var ks := Classified(IdStrings(ids));
    forall i | 0 <= i < |ids|
      ensures ks[i] == Number(ids[i])
    {
      RenderedIdIsNumber(ids[i]);
    }
    ReadNumbers(ks, ids);
  }

  lemma RenderedIdIsNumber(id: int)
    ensures Classify(Text.IntToString(id)) == Number(id)
  {
    var s := Text.IntToString(id);
    assert !Text.IsSpace(s[0]) && !Text.IsSpace(s[|s| - 1]);
    Text.StripTrimmed(s);
    Text.ParseIntToString(id);
  }

  lemma {:induction false} ReadNumbers(ks: seq<Entry>, ids: seq<int>)
    requires |ks| == |ids| && forall i :: 0 <= i < |ks| ==> ks[i] == Number(ids[i])
    ensures ReadIds(ks) == Ok(ids)
  {
    if ks != [] {
      ReadNumbers(ks[1..], ids[1..]);
      assert [ids[0]] + ids[1..] == ids;
    }
  }

  lemma NumberHasNoComma(i: int)
    ensures ',' !in Text.IntToString(i)
  {
    var s := Text.IntToString(i);
    if i >= 0 {
      assert Text.AllDigits(s);
    } else {
      assert s[1..] == Text.NatToString(-i);
      assert forall k :: 1 <= k < |s| ==> s[k] == s[1..][k - 1];
    }
  }

  // ------------------------------------------------------------------ on_message

  /** What the bot sends in reply to a message. */
  datatype Reply =
    | Ignore                   // no reply at all
    | Help                     // the usage embed
    | Answer(question: string) // the answer embed, carrying the question
    | ErrorText(text: string)  // the plain `Error: ...` message

  /** The mention of the bot in message text, `<@id>`. */
  function Mention(botId: int): string {
    "<@" + Text.IntToString(botId) + ">"
  }

  /** The message text with every mention of the bot removed, then stripped. */
  function Question(content: string, botId: int): (q: string)
    ensures q == [] || (!Text.IsSpace(q[0]) && !Text.IsSpace(q[|q| - 1]))
  {
    Text.Strip(Text.ReplaceAll(content, Mention(botId), ""))
  }

  /** Whether `on_message` reaches its reply: not the bot's own message, an allowed channel, and a mention. */
  predicate Addressed(fromSelf: bool, channelId: int, allowed: seq<int>, mentioned: bool) {
    !fromSelf && (allowed == [] || channelId in allowed) && mentioned
  }

  /** The reply to an addressed message, by its question. */
  function Respond(question: string, failure: string -> Option<string>): (r: Reply)
    ensures r != Ignore
    ensures r == Help <==> question == ""
    ensures r.Answer? ==> r.question == question && failure(question).None?
    ensures r.ErrorText? ==> failure(question).Some? && r.text == "Error: " + failure(question).value
  {
    if question == "" then Help
    else match failure(question)
      case Some(e) => ErrorText("Error: " + e)
      case None => Answer(question)
  }

  /** `on_message`. */
  function OnMessage(
    fromSelf: bool, channelId: int, allowed: seq<int>, mentioned: bool,
    content: string, botId: int, failure: string -> Option<string>): (r: Reply)
    ensures r != Ignore <==> Addressed(fromSelf, channelId, allowed, mentioned)
    ensures r == Help <==> Addressed(fromSelf, channelId, allowed, mentioned) && Question(content, botId) == ""
    ensures r.Answer? ==> r.question == Question(content, botId) && r.question != ""
  {
    if fromSelf then Ignore
    else if allowed != [] && channelId !in allowed then Ignore
    else if !mentioned then Ignore
    else Respond(Question(content, botId), failure)
  }

  /** A message that starts with the mention asks the rest of the message. */
  lemma MentionThenQuestion(botId: int, rest: string)
    requires !Text.Contains(rest, Mention(botId))
    ensures Question(Mention(botId) + rest, botId) == Text.Strip(rest)
  {
    var m := Mention(botId);
    Text.ReplaceLeading(m, rest, "");
    Text.ReplaceAbsent(rest, m, "");
    assert "" + rest == rest;
    assert Text.ReplaceAll(m + rest, m, "") == rest;
  }

  /** A bare mention, perhaps with whitespace after it, gets the help reply. */
  lemma BareMentionGetsHelp(botId: int, spaces: string, channelId: int, failure: string -> Option<string>)
    requires forall i :: 0 <= i < |spaces| ==> Text.IsSpace(spaces[i])
    ensures OnMessage(false, channelId, [], true, Mention(botId) + spaces, botId, failure) == Help
  {
    assert forall i :: 0 <= i < |spaces| ==> spaces[i] != '<';
    assert Mention(botId)[0] == '<';
    Text.NotContained(spaces, Mention(botId), '<');
    MentionThenQuestion(botId, spaces);
    Text.StripEmpty(spaces);
  }

  /** Text without the mention is only stripped. */
  lemma NoMentionOnlyStripped(content: string, botId: int)
    requires !Text.Contains(content, Mention(botId))
    ensures Question(content, botId) == Text.Strip(content)
  {
    Text.ReplaceAbsent(content, Mention(botId), "");
  }

  /** Removal is one left-to-right pass: a mention can be left behind by the removal itself. */
  lemma OnePassRemoval()
    ensures Question("<@<@7>7>", 7) == "<@7>"
  {
    assert Mention(7) == "<@7>";
    var s := "<@<@7>7>";
    assert s[..4][2] != "<@7>"[2];
    assert s[1..][..4][0] != "<@7>"[0];
    assert s[2..][..4] == "<@7>";
    assert s[2..][4..] == "7>";
    assert Text.ReplaceAll("7>", "<@7>", "") == "7>";
    assert Text.ReplaceAll(s, "<@7>", "") == "<@7>";
    Text.StripTrimmed("<@7>");
  }
}
