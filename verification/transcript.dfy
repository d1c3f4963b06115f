/**
 * A chat transcript as the prompts show it: a header line, then one
 * `author: content` line per message, oldest first.
 */
module Transcript {
  import Text

  datatype Utterance = Utterance(author: string, content: string)

  /** One transcript line, `f"{author}: {content}\n"`. */
  function Line(u: Utterance): string {
    u.author + ": " + u.content + "\n"
  }

  /** The lines of `us`, in order. */
  function Lines(us: seq<Utterance>): string {
    if us == [] then "" else Lines(us[..|us| - 1]) + Line(us[|us| - 1])
  }

  /** The empty string for no messages, else `header` followed by the lines. */
  function Render(header: string, us: seq<Utterance>): string {
    if us == [] then "" else header + Lines(us)
  }

  /** Lines of consecutive stretches concatenate: the transcript keeps message order. */
  lemma {:induction false} LinesAppend(a: seq<Utterance>, b: seq<Utterance>)
    ensures Lines(a + b) == Lines(a) + Lines(b)
    decreases |b|
  {
    if b == [] {
      assert a + b == a;
    } else {
      var b', x := b[..|b| - 1], b[|b| - 1];
      assert (a + b)[..|a + b| - 1] == a + b';
      assert (a + b)[|a + b| - 1] == x;
      LinesAppend(a, b');
      calc {
        Lines(a + b);
        Lines(a + b') + Line(x);
        (Lines(a) + Lines(b')) + Line(x);
        Lines(a) + (Lines(b') + Line(x));
        Lines(a) + Lines(b);
      }
    }
  }

  /** Message `k` sits, as its own line, between the lines before it and those after it. */
  lemma LinesSplitAt(us: seq<Utterance>, k: nat)
    requires k < |us|
    ensures Lines(us) == Lines(us[..k]) + Line(us[k]) + Lines(us[k + 1..])
  {
    var pre, post := us[..k], us[k + 1..];
    assert us == (pre + [us[k]]) + post;
    LinesAppend(pre + [us[k]], post);
    assert (pre + [us[k]])[..|pre + [us[k]]| - 1] == pre;
  }

  /** A non-empty transcript starts with its header and holds a line for every message. */
  lemma RenderShowsEvery(header: string, us: seq<Utterance>, k: nat)
    requires k < |us|
    ensures Text.StartsWith(Render(header, us), header)
    ensures Text.Contains(Render(header, us), Line(us[k]))
  {
    var before, line, after := Lines(us[..k]), Line(us[k]), Lines(us[k + 1..]);
    LinesSplitAt(us, k);
    Text.ContainsPrefix(header, Lines(us));
    Text.ContainsInside(before, line, after);
    Text.ContainsSuffix(header, Lines(us));
    Text.ContainsTrans(Render(header, us), Lines(us), line);
  }

  /** With a non-empty header, the transcript is empty exactly when there are no messages. */
  lemma RenderEmpty(header: string, us: seq<Utterance>)
    requires header != ""
    ensures Render(header, us) == "" <==> us == []
  {
  }
}
