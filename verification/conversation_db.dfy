/**
 * The bot's conversation store: a per-channel message log, a memory bank of
 * unique keys, and two append-only logs (mood, recent happenings) whose latest
 * entry is the current value.
 *
 * The SQLite tables are the fields of `ConversationStore`. Message and memory
 * writes, which the source stamps with `datetime.now()`, take the value of the
 * integer clock `now`, which then advances, so their timestamps increase
 * strictly in write order. The mood and happenings rows are kept without their
 * `updated_at` stamps: insertion order stands for the `ORDER BY updated_at`.
 */
module ConversationDb {
  import opened Wrappers
  import Text
  import Transcript

  /** A row of the `messages` table. */
  datatype StoredMessage = StoredMessage(
    channelId: int, authorName: string, authorId: Option<int>,
    content: string, isBot: bool, timestamp: int)

  /** A message as `get_channel_messages` returns it. */
  datatype ChatMessage = ChatMessage(author: string, content: string, isBot: bool, timestamp: int)

  /** A row of the `memory` table. */
  datatype MemoryRow = MemoryRow(
    key: string, value: string, source: Option<string>, createdAt: int, updatedAt: int)

  /** A memory as `get_all_memories` returns it. */
  datatype MemoryView = MemoryView(key: string, value: string, source: Option<string>, updatedAt: int)

  /** A row of the `mood` table. */
  datatype Mood = Mood(mood: string, description: string, intensity: real)

  // ---------------------------------------------------------------- messages

  /** Strictly increasing timestamps: log order is timestamp order. */
  ghost predicate Sorted(log: seq<StoredMessage>) {
    forall i, j :: 0 <= i < j < |log| ==> log[i].timestamp < log[j].timestamp
  }

  /** The `WHERE channel_id = ? [AND is_bot = 0]` condition. */
  predicate Eligible(m: StoredMessage, channel: int, excludeBot: bool) {
    m.channelId == channel && (!excludeBot || !m.isBot)
  }

  /** The eligible messages of the log, in log order. */
  function InChannel(log: seq<StoredMessage>, channel: int, excludeBot: bool): (r: seq<StoredMessage>)
    ensures |r| <= |log|
    ensures forall x :: x in r <==> x in log && Eligible(x, channel, excludeBot)
  {
    if log == [] then []
    else
      var last := log[|log| - 1];
      assert log == log[..|log| - 1] + [last];
      InChannel(log[..|log| - 1], channel, excludeBot) + (if Eligible(last, channel, excludeBot) then [last] else [])
  }

  /**
   * `SELECT ... ORDER BY timestamp DESC LIMIT limit`, read back oldest first:
   * the last `limit` eligible messages. SQLite reads a negative LIMIT as no limit.
   */
  function Newest(log: seq<StoredMessage>, channel: int, limit: int, excludeBot: bool): (r: seq<StoredMessage>)
    ensures 0 <= limit ==> |r| <= limit
    ensures limit < 0 ==> r == InChannel(log, channel, excludeBot)
    ensures forall x :: x in r ==> x in log && Eligible(x, channel, excludeBot)
  {
    var f := InChannel(log, channel, excludeBot);
    var n := if 0 <= limit < |f| then limit else |f|;
    f[|f| - n..]
  }

  /**
   * The rows read are a tail of the eligible messages: exactly `limit` of them
   * when there are more, all of them otherwise.
   */
  lemma NewestIsTail(log: seq<StoredMessage>, channel: int, limit: int, excludeBot: bool)
    ensures var f := InChannel(log, channel, excludeBot); var r := Newest(log, channel, limit, excludeBot);
      && r == f[|f| - |r|..]
      && (0 <= limit < |f| ==> |r| == limit)
      && (limit < 0 || |f| <= limit ==> r == f)
  {
  }

  lemma {:induction false} InChannelSorted(log: seq<StoredMessage>, channel: int, excludeBot: bool)
    requires Sorted(log)
    ensures Sorted(InChannel(log, channel, excludeBot))
  {
    if log != [] {
      var prefix, last := log[..|log| - 1], log[|log| - 1];
      InChannelSorted(prefix, channel, excludeBot);
      var f := InChannel(prefix, channel, excludeBot);
      forall i | 0 <= i < |f| ensures f[i].timestamp < last.timestamp {
        assert f[i] in prefix;
      }
    }
  }

  /**
   * The messages returned are the most recent ones: an eligible message of the
   * log is among them exactly when it is no older than the oldest returned one,
   * and they come oldest first.
   */
  lemma NewestAreLatest(log: seq<StoredMessage>, channel: int, limit: int, excludeBot: bool)
    requires Sorted(log)
    ensures Sorted(Newest(log, channel, limit, excludeBot))
    ensures forall x :: x in log && Eligible(x, channel, excludeBot) ==>
      (x in Newest(log, channel, limit, excludeBot) <==>
        Newest(log, channel, limit, excludeBot) != [] && Newest(log, channel, limit, excludeBot)[0].timestamp <= x.timestamp)
  {
    var f := InChannel(log, channel, excludeBot);
    InChannelSorted(log, channel, excludeBot);
    var r := Newest(log, channel, limit, excludeBot);
    SuffixIsLatest(f, |f| - |r|);
  }

  /** In a sorted log, a suffix holds exactly the entries no older than its first one. */
  lemma SuffixIsLatest(f: seq<StoredMessage>, s: nat)
    requires Sorted(f) && s <= |f|
    ensures Sorted(f[s..])
    ensures forall x :: x in f ==> (x in f[s..] <==> f[s..] != [] && f[s..][0].timestamp <= x.timestamp)
  {
    forall x | x in f ensures x in f[s..] <==> f[s..] != [] && f[s..][0].timestamp <= x.timestamp {
      var j :| 0 <= j < |f| && f[j] == x;
      if x in f[s..] {
        var k :| 0 <= k < |f[s..]| && f[s..][k] == x;
        assert f[s + k] == x;
      } else if f[s..] != [] {
        assert j < s;
      }
    }
  }

  /** Filtering distributes over concatenation of logs. */
  lemma {:induction false} InChannelAppend(a: seq<StoredMessage>, b: seq<StoredMessage>, channel: int, excludeBot: bool)
    ensures InChannel(a + b, channel, excludeBot) == InChannel(a, channel, excludeBot) + InChannel(b, channel, excludeBot)
    decreases |b|
  {
    if b == [] {
      assert a + b == a;
    } else {
      var b', last := b[..|b| - 1], b[|b| - 1];
      assert (a + b)[..|a + b| - 1] == a + b';
      assert (a + b)[|a + b| - 1] == last;
      InChannelAppend(a, b', channel, excludeBot);
    }
  }

  /**
   * Whatever was logged before, and however appends to other channels are
   * interleaved, asking for as many messages as were appended to a channel
   * returns exactly those messages in the order they were appended.
   */
  lemma AppendsReadBackInOrder(before: seq<StoredMessage>, appended: seq<StoredMessage>, channel: int, excludeBot: bool)
    ensures var mine := InChannel(appended, channel, excludeBot);
      Newest(before + appended, channel, |mine|, excludeBot) == mine
  {
    InChannelAppend(before, appended, channel, excludeBot);
  }

  /** Appending a message raises its own channel's count by one and no other. */
  lemma CountAfterAppend(log: seq<StoredMessage>, m: StoredMessage, channel: int)
    ensures |InChannel(log + [m], channel, false)| ==
      |InChannel(log, channel, false)| + (if m.channelId == channel then 1 else 0)
  {
    InChannelAppend(log, [m], channel, false);
    assert [m][..0] == [];
  }

  function AsChat(m: StoredMessage): ChatMessage {
    ChatMessage(m.authorName, m.content, m.isBot, m.timestamp)
  }

  function Reverse<T>(s: seq<T>): (r: seq<T>)
    ensures |r| == |s| && forall k :: 0 <= k < |s| ==> r[k] == s[|s| - 1 - k]
  {
    seq(|s|, k requires 0 <= k < |s| => s[|s| - 1 - k])
  }

  function AsUtterances(messages: seq<ChatMessage>): (r: seq<Transcript.Utterance>)
    ensures |r| == |messages|
    ensures forall k :: 0 <= k < |messages| ==> r[k] == Transcript.Utterance(messages[k].author, messages[k].content)
  {
    seq(|messages|, k requires 0 <= k < |messages| => Transcript.Utterance(messages[k].author, messages[k].content))
  }

  const HistoryHeader := "Recent chat (last messages):\n"

  /** Messages older than `cutoff` are deleted by pruning; the rest are kept in order. */
  function KeptSince(log: seq<StoredMessage>, cutoff: int): (r: seq<StoredMessage>)
    ensures forall x :: x in r <==> x in log && x.timestamp >= cutoff
  {
    if log == [] then []
    else (if log[0].timestamp >= cutoff then [log[0]] else []) + KeptSince(log[1..], cutoff)
  }

  /** How many messages are older than `cutoff`. */
  function CountOlder(log: seq<StoredMessage>, cutoff: int): nat {
    if log == [] then 0
    else (if log[0].timestamp < cutoff then 1 else 0) + CountOlder(log[1..], cutoff)
  }

  /** Pruning partitions the log: what is kept plus what is deleted is everything. */
  lemma {:induction false} PrunePartitions(log: seq<StoredMessage>, cutoff: int)
    ensures |KeptSince(log, cutoff)| + CountOlder(log, cutoff) == |log|
  {
    if log != [] {
      PrunePartitions(log[1..], cutoff);
    }
  }

  /** On a log in timestamp order, pruning removes a prefix: the oldest messages. */
  lemma {:induction false} PruneDropsOldest(log: seq<StoredMessage>, cutoff: int)
    requires Sorted(log)
    ensures CountOlder(log, cutoff) <= |log|
    ensures KeptSince(log, cutoff) == log[CountOlder(log, cutoff)..]
  {
    if log != [] {
      if log[0].timestamp < cutoff {
        var rest := log[1..];
        SortedTail(log);
        PruneDropsOldest(rest, cutoff);
        assert KeptSince(log, cutoff) == KeptSince(rest, cutoff);
        assert rest[CountOlder(rest, cutoff)..] == log[CountOlder(log, cutoff)..];
      } else {
        assert forall k :: 0 < k < |log| ==> log[0].timestamp < log[k].timestamp;
        NothingOlder(log, cutoff);
      }
    }
  }

  lemma SortedTail(log: seq<StoredMessage>)
    requires Sorted(log) && log != []
    ensures Sorted(log[1..])
  {
    forall i, j | 0 <= i < j < |log| - 1 ensures log[1..][i].timestamp < log[1..][j].timestamp {
      assert log[1..][i] == log[i + 1] && log[1..][j] == log[j + 1];
    }
  }

  lemma {:induction false} NothingOlder(log: seq<StoredMessage>, cutoff: int)
    requires forall k :: 0 <= k < |log| ==> log[k].timestamp >= cutoff
    ensures CountOlder(log, cutoff) == 0
    ensures KeptSince(log, cutoff) == log
  {
    if log != [] {
      NothingOlder(log[1..], cutoff);
      assert log == [log[0]] + log[1..];
    }
  }

  // ------------------------------------------------------------------ memory

  predicate UniqueKeys(rows: seq<MemoryRow>) {
    forall i, j :: 0 <= i < j < |rows| ==> rows[i].key != rows[j].key
  }

  /** Rows in order of last update (strictly increasing `updated_at`). */
  ghost predicate UpdateOrdered(rows: seq<MemoryRow>) {
    forall i, j :: 0 <= i < j < |rows| ==> rows[i].updatedAt < rows[j].updatedAt
  }

  /** `SELECT ... FROM memory WHERE key = ?`. */
  function Lookup(rows: seq<MemoryRow>, key: string): (r: Option<MemoryRow>)
    ensures r.Some? ==> r.value in rows && r.value.key == key
    ensures r.None? <==> forall k :: 0 <= k < |rows| ==> rows[k].key != key
  {
    if rows == [] then None
    else if rows[0].key == key then Some(rows[0])
    else
      var r := Lookup(rows[1..], key);
      assert forall k :: 1 <= k < |rows| ==> rows[k] == rows[1..][k - 1];
      r
  }

  /** `DELETE FROM memory WHERE key = ?`. */
  function Without(rows: seq<MemoryRow>, key: string): (r: seq<MemoryRow>)
    ensures forall x :: x in r <==> x in rows && x.key != key
  {
    if rows == [] then []
    else (if rows[0].key == key then [] else [rows[0]]) + Without(rows[1..], key)
  }

  /** The upsert of `save_memory`: `created_at` is kept when the key exists. */
  function Upsert(rows: seq<MemoryRow>, key: string, value: string, source: Option<string>, stamp: int): seq<MemoryRow> {
    var created := match Lookup(rows, key) case Some(row) => row.createdAt case None => stamp;
    Without(rows, key) + [MemoryRow(key, value, source, created, stamp)]
  }

  lemma {:induction false} WithoutUnique(rows: seq<MemoryRow>, key: string)
    requires UniqueKeys(rows)
    ensures UniqueKeys(Without(rows, key))
  {
    if rows != [] {
      WithoutUnique(rows[1..], key);
      var w := Without(rows[1..], key);
      forall x | x in w ensures x.key != rows[0].key {
        var k :| 0 <= k < |rows[1..]| && rows[1..][k] == x;
        assert rows[k + 1] == x;
      }
    }
  }

  lemma {:induction false} WithoutOrdered(rows: seq<MemoryRow>, key: string)
    requires UpdateOrdered(rows)
    ensures UpdateOrdered(Without(rows, key))
  {
    if rows != [] {
      WithoutOrdered(rows[1..], key);
      var w := Without(rows[1..], key);
      forall x | x in w ensures x.updatedAt > rows[0].updatedAt {
        var k :| 0 <= k < |rows[1..]| && rows[1..][k] == x;
        assert rows[k + 1] == x;
      }
    }
  }

  lemma {:induction false} LookupWithout(rows: seq<MemoryRow>, key: string, other: string)
    requires other != key
    ensures Lookup(Without(rows, key), other) == Lookup(rows, other)
  {
    if rows != [] {
      LookupWithout(rows[1..], key, other);
      var w := Without(rows[1..], key);
      if rows[0].key == key {
        assert Without(rows, key) == w;
      } else {
        assert Without(rows, key) == [rows[0]] + w;
        assert ([rows[0]] + w)[1..] == w;
      }
    }
  }

  lemma {:induction false} LookupAppend(rows: seq<MemoryRow>, row: MemoryRow, key: string)
    ensures Lookup(rows + [row], key) ==
      if Lookup(rows, key).Some? then Lookup(rows, key) else if row.key == key then Some(row) else None
  {
    if rows != [] {
      assert (rows + [row])[1..] == rows[1..] + [row];
      LookupAppend(rows[1..], row, key);
    }
  }

  lemma {:induction false} WithoutSize(rows: seq<MemoryRow>, key: string)
    requires UniqueKeys(rows)
    ensures |Without(rows, key)| == |rows| - (if Lookup(rows, key).Some? then 1 else 0)
  {
    if rows != [] {
      WithoutSize(rows[1..], key);
      if rows[0].key == key {
        assert Lookup(rows[1..], key).None? by {
          forall k | 0 <= k < |rows[1..]| ensures rows[1..][k].key != key {
            assert rows[1..][k] == rows[k + 1];
          }
        }
      }
    }
  }

  /**
   * After `save_memory(key, value, source)` the key maps to the new value,
   * source and update time, its creation time is the old one when the key
   * existed, every other key is untouched, keys stay unique, and the table
   * grows by a row exactly when the key is new.
   */
  lemma UpsertSemantics(rows: seq<MemoryRow>, key: string, value: string, source: Option<string>, stamp: int)
    requires UniqueKeys(rows)
    ensures var after := Upsert(rows, key, value, source, stamp);
      && Lookup(after, key).Some?
      && Lookup(after, key).value.value == value
      && Lookup(after, key).value.source == source
      && Lookup(after, key).value.updatedAt == stamp
      && Lookup(after, key).value.createdAt ==
           (if Lookup(rows, key).Some? then Lookup(rows, key).value.createdAt else stamp)
      && (forall other :: other != key ==> Lookup(after, other) == Lookup(rows, other))
      && UniqueKeys(after)
      && |after| == |rows| + (if Lookup(rows, key).Some? then 0 else 1)
  {
    var w := Without(rows, key);
    var created := match Lookup(rows, key) case Some(row) => row.createdAt case None => stamp;
    var row := MemoryRow(key, value, source, created, stamp);
    LookupAppend(w, row, key);
    forall other | other != key ensures Lookup(w + [row], other) == Lookup(rows, other) {
      LookupAppend(w, row, other);
      LookupWithout(rows, key, other);
    }
    WithoutSize(rows, key);
    WithoutUnique(rows, key);
  }

  /** An upsert stamped later than every row keeps the rows in update order, created no later than updated. */
  lemma UpsertKeepsStamps(rows: seq<MemoryRow>, key: string, value: string, source: Option<string>, stamp: int)
    requires UpdateOrdered(rows)
    requires forall k :: 0 <= k < |rows| ==> rows[k].createdAt <= rows[k].updatedAt < stamp
    ensures UpdateOrdered(Upsert(rows, key, value, source, stamp))
    ensures forall k :: 0 <= k < |Upsert(rows, key, value, source, stamp)| ==>
      Upsert(rows, key, value, source, stamp)[k].createdAt <= Upsert(rows, key, value, source, stamp)[k].updatedAt <= stamp
  {
    WithoutOrdered(rows, key);
    var w := Without(rows, key);
    assert forall k :: 0 <= k < |w| ==> w[k] in rows;
    var up := Upsert(rows, key, value, source, stamp);
    assert up[..|w|] == w;
  }

  /** After `delete_memory(key)` the key is gone and every other key is untouched. */
  lemma DeleteSemantics(rows: seq<MemoryRow>, key: string)
    ensures Lookup(Without(rows, key), key).None?
    ensures forall other :: other != key ==> Lookup(Without(rows, key), other) == Lookup(rows, other)
  {
    forall other | other != key ensures Lookup(Without(rows, key), other) == Lookup(rows, other) {
      LookupWithout(rows, key, other);
    }
  }

  function AsView(row: MemoryRow): MemoryView {
    MemoryView(row.key, row.value, row.source, row.updatedAt)
  }

  /** `ORDER BY updated_at DESC`: the rows, most recently updated first. */
  function NewestFirst(rows: seq<MemoryRow>): (r: seq<MemoryView>)
    ensures |r| == |rows|
    ensures forall k :: 0 <= k < |rows| ==> r[k] == AsView(rows[|rows| - 1 - k])
    ensures UpdateOrdered(rows) ==> forall i, j :: 0 <= i < j < |r| ==> r[i].updatedAt > r[j].updatedAt
    ensures UniqueKeys(rows) ==> forall i, j :: 0 <= i < j < |r| ==> r[i].key != r[j].key
  {
    seq(|rows|, k requires 0 <= k < |rows| => AsView(rows[|rows| - 1 - k]))
  }

  function MemoryHeader(): string {
    "Memory Bank (important things "
    + "to remember):\n"
  }

  /** `f" (from {source})"` when the source is set and non-empty, else nothing. */
  function SourceNote(source: Option<string>): string {
    match source
    case Some(s) => if s != "" then " (from " + s + ")" else ""
    case None => ""
  }

  function MemoryLine(m: MemoryView): string {
    "- " + m.key + ": " + m.value + SourceNote(m.source) + "\n"
  }

  function MemoryLines(ms: seq<MemoryView>): string {
    if ms == [] then "" else MemoryLines(ms[..|ms| - 1]) + MemoryLine(ms[|ms| - 1])
  }

  /** `format_memories` on the list `get_all_memories` returns. */
  function MemoryBank(ms: seq<MemoryView>): string {
    if ms == [] then "" else MemoryHeader() + MemoryLines(ms)
  }

  lemma {:induction false} MemoryLinesStart(ms: seq<MemoryView>)
    requires ms != []
    ensures Text.StartsWith(MemoryLines(ms), MemoryLine(ms[0]))
  {
    if |ms| > 1 {
      MemoryLinesStart(ms[..|ms| - 1]);
      Text.StartsWithExtend(MemoryLines(ms[..|ms| - 1]), MemoryLine(ms[0]), MemoryLine(ms[|ms| - 1]));
    } else {
      assert ms[..0] == [];
      assert MemoryLines(ms) == "" + MemoryLine(ms[0]);
    }
  }

  /** A memory that was just saved is the first entry of the formatted memory bank. */
  lemma SavedMemoryHeadsBank(rows: seq<MemoryRow>, key: string, value: string, source: Option<string>, stamp: int)
    ensures Text.StartsWith(MemoryBank(NewestFirst(Upsert(rows, key, value, source, stamp))),
      MemoryHeader() + MemoryLine(MemoryView(key, value, source, stamp)))
  {
    var ms := NewestFirst(Upsert(rows, key, value, source, stamp));
    assert ms[0] == MemoryView(key, value, source, stamp);
    MemoryLinesStart(ms);
    Text.StartsWithPrepend(MemoryHeader(), MemoryLines(ms), MemoryLine(ms[0]));
  }

  // -------------------------------------------------------- mood, happenings

  const DefaultMood := Mood("chill", "Default relaxed mood", 0.5)

  /** The descriptions `set_mood` uses when none is given, by lower-cased mood. */
  const MoodDescriptions: map<string, string> := map[
    "chill" := "Relaxed and casual",
    "excited" := "Energetic and enthusiastic",
    "focused" := "Serious and attentive",
    "sarcastic" := "Playfully snarky",
    "helpful" := "Eager to assist",
    "curious" := "Interested and inquisitive",
    "tired" := "Low energy, less talkative",
    "happy" := "Positive and upbeat"
  ]

  /** The table's description for the lower-cased mood, else `f"Currently feeling {mood}"` (original case). */
  function DescriptionFor(mood: string): (r: string)
    ensures Text.Lower(mood) in MoodDescriptions ==> r == MoodDescriptions[Text.Lower(mood)]
    ensures Text.Lower(mood) !in MoodDescriptions ==> r == "Currently feeling " + mood
  {
    var key := Text.Lower(mood);
    if key in MoodDescriptions then MoodDescriptions[key] else "Currently feeling " + mood
  }

  /** The mood row `set_mood` inserts. */
  function MoodEntry(mood: string, description: Option<string>, intensity: real): (r: Mood)
    ensures r.mood == Text.Lower(mood) && r.intensity == intensity
    ensures description.Some? ==> r.description == description.value
    ensures description.None? ==> r.description == DescriptionFor(mood)
  {
    Mood(Text.Lower(mood), description.GetOr(DescriptionFor(mood)), intensity)
  }

  /** A mood stored by `set_mood` has no upper-case letter and describes itself the same way. */
  lemma StoredMoodIsCanonical(mood: string, intensity: real)
    ensures var m := MoodEntry(mood, None, intensity);
      (forall k :: 0 <= k < |m.mood| ==> !Text.IsUpper(m.mood[k]))
      && (Text.Lower(mood) in MoodDescriptions ==> DescriptionFor(m.mood) == m.description)
  {
    Text.LowerIdempotent(mood);
  }

  const HappeningsLimit := 4500

  /** `content[:4500] + "..."` when longer than 4500 characters, else unchanged. */
  function Truncated(content: string): (r: string)
    ensures |r| <= HappeningsLimit + 3
    ensures |content| <= HappeningsLimit ==> r == content
    ensures |content| > HappeningsLimit ==> r == content[..HappeningsLimit] + "..."
  {
    if |content| > HappeningsLimit then content[..HappeningsLimit] + "..." else content
  }

  /** Storing a stored summary again stores the same text. */
  lemma TruncatedIdempotent(content: string)
    ensures Truncated(Truncated(content)) == Truncated(content)
  {
    if |content| > HappeningsLimit {
      assert (content[..HappeningsLimit] + "...")[..HappeningsLimit] == content[..HappeningsLimit];
    }
  }

  const HappeningsHeader := "Recent happenings across the server:\n"

  // ------------------------------------------------------------------- store

  /** The loop of `get_channel_messages`: the rows, read newest first, appended in reverse. */
  method ChatOldestFirst(rows: seq<StoredMessage>) returns (messages: seq<ChatMessage>)
    ensures |messages| == |rows|
    ensures forall k :: 0 <= k < |rows| ==> messages[k] == AsChat(rows[|rows| - 1 - k])
  {
    messages := [];
    var i := |rows|;
    while i > 0
      invariant 0 <= i <= |rows|
      invariant |messages| == |rows| - i
      invariant forall k :: 0 <= k < |messages| ==> messages[k] == AsChat(rows[|rows| - 1 - k])
    {
      i := i - 1;
      messages := messages + [AsChat(rows[i])];
    }
  }

  /** The loop of `format_channel_history`: the header, then one line per message. */
  method HistoryText(messages: seq<ChatMessage>) returns (r: string)
    ensures r == Transcript.Render(HistoryHeader, AsUtterances(messages))
  {
    if |messages| == 0 {
      return "";
    }
    r := HistoryHeader;
    var i := 0;
    while i < |messages|
      invariant 0 <= i <= |messages|
      invariant r == HistoryHeader + Transcript.Lines(AsUtterances(messages)[..i])
    {
      assert AsUtterances(messages)[..i + 1][..i] == AsUtterances(messages)[..i];
      r := r + Transcript.Line(Transcript.Utterance(messages[i].author, messages[i].content));
      i := i + 1;
    }
    assert AsUtterances(messages)[..i] == AsUtterances(messages);
  }

  /** Pruning an ordered log keeps it ordered, keeps its stamps below the clock, and keeps no message older than the cutoff. */
  lemma PruneKeepsInvariant(log: seq<StoredMessage>, memory: seq<MemoryRow>, now: int, cutoff: int)
    requires StoreInvariant(log, memory, now)
    ensures StoreInvariant(KeptSince(log, cutoff), memory, now)
    ensures CountOlder(log, cutoff) <= |log| && KeptSince(log, cutoff) == log[CountOlder(log, cutoff)..]
    ensures forall k :: 0 <= k < |KeptSince(log, cutoff)| ==> KeptSince(log, cutoff)[k].timestamp >= cutoff
  {
    PruneDropsOldest(log, cutoff);
    var kept := KeptSince(log, cutoff);
    var c := CountOlder(log, cutoff);
    forall k | 0 <= k < |kept| ensures kept[k] == log[c + k] && kept[k].timestamp >= cutoff {
      assert kept[k] in kept;
    }
  }

  /**
   * The store's invariant: messages in timestamp order, memory keys unique and
   * in update order, and every stamp older than the clock.
   */
  ghost predicate StoreInvariant(log: seq<StoredMessage>, memory: seq<MemoryRow>, now: int) {
    && Sorted(log)
    && (forall k :: 0 <= k < |log| ==> log[k].timestamp < now)
    && UniqueKeys(memory)
    && UpdateOrdered(memory)
    && (forall k :: 0 <= k < |memory| ==> memory[k].createdAt <= memory[k].updatedAt < now)
  }

  /** An upsert stamped with the clock, which then advances, keeps the invariant. */
  lemma UpsertKeepsInvariant(
    log: seq<StoredMessage>, memory: seq<MemoryRow>, now: int, key: string, value: string, source: Option<string>)
    requires StoreInvariant(log, memory, now)
    ensures StoreInvariant(log, Upsert(memory, key, value, source, now), now + 1)
  {
    UpsertSemantics(memory, key, value, source, now);
    UpsertKeepsStamps(memory, key, value, source, now);
  }

  class ConversationStore {
    /** The `messages` table, in insertion order. */
    var log: seq<StoredMessage>
    /** The `memory` table, in order of last update. */
    var memory: seq<MemoryRow>
    /** The `mood` table, in insertion order. */
    var moods: seq<Mood>
    /** The `recent_happenings` table, in insertion order. */
    var happenings: seq<string>
    /** The value `datetime.now()` gives the next stamping write. */
    var now: int

    ghost predicate Valid()
      reads this
    {
      StoreInvariant(log, memory, now)
    }

    /** A database whose tables exist and are empty. */
    constructor (start: int)
      ensures Valid()
      ensures log == [] && memory == [] && moods == [] && happenings == [] && now == start
    {
      log, memory, moods, happenings, now := [], [], [], [], start;
    }

    /** The default-mood step of `init_db`: a `chill` row when the mood table is empty. */
    method InitDb()
      requires Valid()
      modifies this
      ensures Valid()
      ensures moods == if old(moods) == [] then [DefaultMood] else old(moods)
      ensures log == old(log) && memory == old(memory) && happenings == old(happenings) && now == old(now)
      ensures CurrentMood() == old(CurrentMood())
    {
      if moods == [] {
        moods := [DefaultMood];
      }
    }

    /** `get_channel_message_count`. */
    function MessageCount(channel: int): (n: nat)
      reads this
      ensures n == |InChannel(log, channel, false)|
      ensures n <= |log|
      ensures n == 0 <==> forall k :: 0 <= k < |log| ==> log[k].channelId != channel
    {
      var f := InChannel(log, channel, false);
      assert forall k :: 0 <= k < |log| && log[k].channelId == channel ==> log[k] in f;
      assert f != [] ==> f[0] in log && f[0].channelId == channel;
      |f|
    }

    /** `add_message`: appends one stamped row. */
    method AddMessage(channel: int, authorName: string, content: string, authorId: Option<int>, isBot: bool)
      requires Valid()
      modifies this
      ensures Valid()
      ensures log == old(log) + [StoredMessage(channel, authorName, authorId, content, isBot, old(now))]
      ensures now == old(now) + 1
      ensures memory == old(memory) && moods == old(moods) && happenings == old(happenings)
      ensures MessageCount(channel) == old(MessageCount(channel)) + 1
      ensures forall c :: c != channel ==> MessageCount(c) == old(MessageCount(c))
    {
      var m := StoredMessage(channel, authorName, authorId, content, isBot, now);
      forall c ensures |InChannel(log + [m], c, false)| == |InChannel(log, c, false)| + (if c == channel then 1 else 0) {
        CountAfterAppend(log, m, c);
      }
      log := log + [m];
      now := now + 1;
    }

    /**
     * `get_channel_messages`: the query's rows, newest first, are appended to
     * the result in reverse, so the result is the newest eligible messages
     * oldest first.
     */
    method GetChannelMessages(channel: int, limit: int, excludeBot: bool) returns (messages: seq<ChatMessage>)
      ensures |messages| == |Newest(log, channel, limit, excludeBot)|
      ensures forall k :: 0 <= k < |messages| ==> messages[k] == AsChat(Newest(log, channel, limit, excludeBot)[k])
    {
      var shown := Newest(log, channel, limit, excludeBot);
      var rows := Reverse(shown);
      messages := ChatOldestFirst(rows);
      forall k | 0 <= k < |messages|
        ensures messages[k] == AsChat(shown[k])
      {
        assert rows[|rows| - 1 - k] == shown[k];
      }
    }

    /**
     * `format_channel_history`: empty when there is nothing to show, else the
     * header and one `author: content` line per returned message, oldest first.
     */
    method FormatChannelHistory(channel: int, maxMessages: int, excludeBot: bool) returns (r: string)
      ensures var shown := Newest(log, channel, maxMessages, excludeBot);
        r == Transcript.Render(HistoryHeader,
          seq(|shown|, k requires 0 <= k < |shown| => Transcript.Utterance(shown[k].authorName, shown[k].content)))
    {
      var messages := GetChannelMessages(channel, maxMessages, excludeBot);
      ghost var shown := Newest(log, channel, maxMessages, excludeBot);
      assert AsUtterances(messages) ==
        seq(|shown|, k requires 0 <= k < |shown| => Transcript.Utterance(shown[k].authorName, shown[k].content));
      r := HistoryText(messages);
    }

    /**
     * `cleanup_old_messages`: deletes, in every channel, exactly the messages
     * older than `cutoff` and returns how many there were.
     */
    method CleanupOldMessages(cutoff: int) returns (deleted: nat)
      requires Valid()
      modifies this
      ensures Valid()
      ensures log == KeptSince(old(log), cutoff)
      ensures deleted == CountOlder(old(log), cutoff)
      ensures forall k :: 0 <= k < |log| ==> log[k].timestamp >= cutoff
      ensures memory == old(memory) && moods == old(moods) && happenings == old(happenings) && now == old(now)
    {
      PruneKeepsInvariant(log, memory, now, cutoff);
      deleted := CountOlder(log, cutoff);
      log := KeptSince(log, cutoff);
    }

    /** `get_memory`. */
    function GetMemory(key: string): (r: Option<string>)
      reads this
      ensures r.None? <==> forall k :: 0 <= k < |memory| ==> memory[k].key != key
      ensures r.Some? ==> exists k :: 0 <= k < |memory| && memory[k].key == key && memory[k].value == r.value
    {
      match Lookup(memory, key)
      case Some(row) => Some(row.value)
      case None => None
    }

    /** `save_memory`: insert, or update value, source and `updated_at` of the existing key. */
    method SaveMemory(key: string, value: string, source: Option<string>)
      requires Valid()
      modifies this
      ensures Valid()
      ensures memory == Upsert(old(memory), key, value, source, old(now))
      ensures now == old(now) + 1
      ensures log == old(log) && moods == old(moods) && happenings == old(happenings)
      ensures GetMemory(key) == Some(value)
      ensures forall other :: other != key ==> GetMemory(other) == old(GetMemory(other))
    {
      ghost var rows := memory;
      UpsertSemantics(memory, key, value, source, now);
      UpsertKeepsInvariant(log, memory, now, key, value, source);
      memory := Upsert(memory, key, value, source, now);
      now := now + 1;
      assert Lookup(memory, key).value.value == value;
      forall other | other != key
        ensures GetMemory(other) == old(GetMemory(other))
      {
        assert Lookup(memory, other) == Lookup(rows, other);
      }
    }

    /** `get_all_memories`: most recently updated first. */
    function AllMemories(): (r: seq<MemoryView>)
      requires Valid()
      reads this
      ensures |r| == |memory|
      ensures forall k :: 0 <= k < |memory| ==> r[k] == AsView(memory[|memory| - 1 - k])
      ensures forall i, j :: 0 <= i < j < |r| ==> r[i].updatedAt > r[j].updatedAt
      ensures forall i, j :: 0 <= i < j < |r| ==> r[i].key != r[j].key
    {
      NewestFirst(memory)
    }

    /** `format_memories`: empty without memories, else the header and one line per memory. */
    method FormatMemories() returns (r: string)
      requires Valid()
      ensures r == MemoryBank(AllMemories())
    {
      var memories := AllMemories();
      if |memories| == 0 {
        return "";
      }
      r := MemoryHeader();
      var i := 0;
      while i < |memories|
        invariant 0 <= i <= |memories|
        invariant r == MemoryHeader() + MemoryLines(memories[..i])
      {
        assert memories[..i + 1][..i] == memories[..i];
        Text.ConcatAssoc(MemoryHeader(), MemoryLines(memories[..i]), MemoryLine(memories[i]));
        r := r + MemoryLine(memories[i]);
        i := i + 1;
      }
      assert memories[..i] == memories;
    }

    /** `delete_memory`: reports whether the key existed and removes it. */
    method DeleteMemory(key: string) returns (deleted: bool)
      requires Valid()
      modifies this
      ensures Valid()
      ensures deleted == old(GetMemory(key)).Some?
      ensures memory == Without(old(memory), key)
      ensures GetMemory(key).None?
      ensures forall other :: other != key ==> GetMemory(other) == old(GetMemory(other))
      ensures log == old(log) && moods == old(moods) && happenings == old(happenings) && now == old(now)
    {
      deleted := Lookup(memory, key).Some?;
      DeleteSemantics(memory, key);
      WithoutOrdered(memory, key);
      WithoutUnique(memory, key);
      assert forall k :: 0 <= k < |Without(memory, key)| ==> Without(memory, key)[k] in memory;
      memory := Without(memory, key);
    }

    /** `get_mood`: the latest mood row, or the default `chill` mood. */
    function CurrentMood(): (m: Mood)
      reads this
      ensures moods == [] ==> m == DefaultMood
      ensures moods != [] ==> m == moods[|moods| - 1]
    {
      if moods == [] then DefaultMood else moods[|moods| - 1]
    }

    /** `set_mood`: appends the lower-cased mood with its description. */
    method SetMood(mood: string, description: Option<string>, intensity: real)
      requires Valid()
      modifies this
      ensures Valid()
      ensures moods == old(moods) + [MoodEntry(mood, description, intensity)]
      ensures CurrentMood() == MoodEntry(mood, description, intensity)
      ensures log == old(log) && memory == old(memory) && happenings == old(happenings) && now == old(now)
    {
      moods := moods + [MoodEntry(mood, description, intensity)];
    }

    /** `get_recent_happenings`: the latest summary, or the empty string. */
    function RecentHappenings(): (r: string)
      reads this
      ensures happenings == [] ==> r == ""
      ensures happenings != [] ==> r == happenings[|happenings| - 1]
    {
      if happenings == [] then "" else happenings[|happenings| - 1]
    }

    /** `set_recent_happenings`: appends the summary, cut to 4500 characters plus `...`. */
    method SetRecentHappenings(content: string)
      requires Valid()
      modifies this
      ensures Valid()
      ensures happenings == old(happenings) + [Truncated(content)]
      ensures RecentHappenings() == Truncated(content)
      ensures log == old(log) && memory == old(memory) && moods == old(moods) && now == old(now)
    {
      happenings := happenings + [Truncated(content)];
    }

    /** `format_recent_happenings`: empty when there is no summary, else headed by a fixed line. */
    function FormatRecentHappenings(): (r: string)
      reads this
      ensures r == "" <==> RecentHappenings() == ""
      ensures r != "" ==> r == HappeningsHeader + RecentHappenings()
    {
      var h := RecentHappenings();
      if h == "" then "" else HappeningsHeader + h
    }
  }
}
