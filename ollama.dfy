/** The request `stream_ollama` sends and the tokens its line loop yields. */
module Ollama {
  import opened Wrappers
  import opened Transcript

  const ModelName: string := "gemma3:1b"
  const OllamaUrl: string := "http://localhost:11434/api/chat"

  /** One line of the streamed response, as the loop classifies it: the empty line, a line that
      `json.loads` rejects, or a JSON object with its `message.content` (missing or present) and
      the truth value of its `done` field. */
  datatype Line = Empty | Malformed | Obj(content: Option<string>, done: bool)

  /** The POST the generator issues: target URL and JSON body `{model, messages, stream}`. */
  datatype Request = Request(url: string, model: string, messages: seq<Turn>, stream: bool)

  /** The body is built from the history as it stands when the generator starts, plus one user turn. */
  function Payload(history: seq<Turn>, prompt: string): Request {
    Request(OllamaUrl, ModelName, history + [Turn(User, prompt)], true)
  }

  /** What one processed line yields: its content when that is present and non-empty. */
  function Yielded(line: Line): seq<string> {
    if line.Obj? && line.content.Some? && line.content.value != "" then [line.content.value] else []
  }

  /** A parsed object whose `done` is true ends the loop after it has been processed. */
  predicate EndsStream(line: Line) {
    line.Obj? && line.done
  }

  /** The tokens the generator yields, where `flags[i]` is the value of `stop_signal` it observes
      when line `i` arrives. */
  function Tokens(lines: seq<Line>, flags: seq<bool>): seq<string>
    requires |flags| == |lines|
    decreases |lines|
  {
    if lines == [] || flags[0] then []
    else Yielded(lines[0]) + (if EndsStream(lines[0]) then [] else Tokens(lines[1..], flags[1..]))
  }

  /** How many lines the loop takes from the response before it ends. */
  function Reads(lines: seq<Line>, flags: seq<bool>): (n: nat)
    requires |flags| == |lines|
    ensures n <= |lines|
    decreases |lines|
  {
    if lines == [] then 0
    else if flags[0] || EndsStream(lines[0]) then 1
    else 1 + Reads(lines[1..], flags[1..])
  }

  /** Reference definition: the non-empty contents of the given lines, all of them, in order. */
  function Accepted(lines: seq<Line>): (tokens: seq<string>)
    ensures forall t :: t in tokens ==> t != ""
    decreases |lines|
  {
    if lines == [] then [] else Yielded(lines[0]) + Accepted(lines[1..])
  }

  /** `k` lines are processed: none of them saw the stop flag, none but the last ended the stream,
      and the loop ends there (response exhausted, stop flag on line `k`, or line `k - 1` done). */
  ghost predicate StopPoint(lines: seq<Line>, flags: seq<bool>, k: nat)
    requires |flags| == |lines|
  {
    k <= |lines| &&
    (forall i :: 0 <= i < k ==> !flags[i]) &&
    (forall i :: 0 <= i < k - 1 ==> !EndsStream(lines[i])) &&
    (k == |lines| || flags[k] || (k > 0 && EndsStream(lines[k - 1])))
  }

  /** The number of lines the loop processes. */
  function Processed(lines: seq<Line>, flags: seq<bool>): (k: nat)
    requires |flags| == |lines|
    ensures StopPoint(lines, flags, k)
    decreases |lines|
  {
    if lines == [] || flags[0] then 0
    else if EndsStream(lines[0]) then 1
    else 1 + Processed(lines[1..], flags[1..])
  }

  /** The lines taken are the lines processed, plus the one line on which the stop flag was seen
      when that is what ended the loop. */
  lemma {:induction false} ReadsProcessed(lines: seq<Line>, flags: seq<bool>)
    requires |flags| == |lines|
    ensures var k := Processed(lines, flags);
      Reads(lines, flags) == k + (if k < |lines| && !(k > 0 && EndsStream(lines[k - 1])) && flags[k] then 1 else 0)
    decreases |lines|
  {
    if lines != [] && !flags[0] && !EndsStream(lines[0]) {
      ReadsProcessed(lines[1..], flags[1..]);
      var k := Processed(lines[1..], flags[1..]);
      if k < |lines| - 1 {
        assert flags[1..][k] == flags[k + 1];
        if k > 0 {
          assert lines[1..][k - 1] == lines[k];
        }
      }
    }
  }

  /** The loop's end is determined: there is only one stop point. */
  lemma {:induction false} StopPointUnique(lines: seq<Line>, flags: seq<bool>, k1: nat, k2: nat)
    requires |flags| == |lines|
    requires StopPoint(lines, flags, k1) && StopPoint(lines, flags, k2)
    ensures k1 == k2
  {
  }

  /** The tokens yielded are exactly the non-empty contents of the processed lines, in order. */
  lemma {:induction false} TokensAreAccepted(lines: seq<Line>, flags: seq<bool>, k: nat)
    requires |flags| == |lines|
    requires StopPoint(lines, flags, k)
    ensures Tokens(lines, flags) == Accepted(lines[..k])
    decreases |lines|
  {
    if lines == [] || flags[0] {
      assert k == 0;
    } else if EndsStream(lines[0]) {
      assert k == 1;
      assert lines[..1] == [lines[0]];
      assert Accepted([lines[0]]) == Yielded(lines[0]) + Accepted([]);
    } else {
      assert k >= 1;
      assert StopPoint(lines[1..], flags[1..], k - 1) by {
        forall i | 0 <= i < k - 1 ensures !flags[1..][i] {
          assert flags[1..][i] == flags[i + 1];
        }
        forall i | 0 <= i < k - 2 ensures !EndsStream(lines[1..][i]) {
          assert lines[1..][i] == lines[i + 1];
        }
      }
      TokensAreAccepted(lines[1..], flags[1..], k - 1);
      assert lines[..k][1..] == lines[1..][..k - 1];
    }
  }

  /** Every token yielded is non-empty. */
  lemma {:induction false} TokensNonEmpty(lines: seq<Line>, flags: seq<bool>)
    requires |flags| == |lines|
    ensures forall t :: t in Tokens(lines, flags) ==> t != ""
  {
    TokensAreAccepted(lines, flags, Processed(lines, flags));
  }

  /** An empty or malformed line, wherever it is inserted and with the flag unset, changes nothing. */
  lemma {:induction false} NoiseIgnored(lines: seq<Line>, flags: seq<bool>, i: nat, noise: Line)
    requires |flags| == |lines| && i <= |lines|
    requires noise == Empty || noise == Malformed
    ensures Tokens(lines[..i] + [noise] + lines[i..], flags[..i] + [false] + flags[i..]) == Tokens(lines, flags)
    decreases i
  {
    var lines', flags' := lines[..i] + [noise] + lines[i..], flags[..i] + [false] + flags[i..];
    if i == 0 {
      assert lines'[1..] == lines && flags'[1..] == flags;
    } else {
      assert lines'[0] == lines[0] && flags'[0] == flags[0];
      if !flags[0] && !EndsStream(lines[0]) {
        NoiseIgnored(lines[1..], flags[1..], i - 1, noise);
        assert lines'[1..] == lines[1..][..i - 1] + [noise] + lines[1..][i - 1..];
        assert flags'[1..] == flags[1..][..i - 1] + [false] + flags[1..][i - 1..];
      }
    }
  }

  /** Once a line ends the stream, no later line contributes a token or is read. */
  lemma {:induction false} DoneEndsStream(lines: seq<Line>, flags: seq<bool>, j: nat)
    requires |flags| == |lines| && j < |lines|
    requires EndsStream(lines[j])
    ensures Tokens(lines, flags) == Tokens(lines[..j + 1], flags[..j + 1])
    ensures Reads(lines, flags) <= j + 1
    decreases j
  {
    if j > 0 && !flags[0] && !EndsStream(lines[0]) {
      DoneEndsStream(lines[1..], flags[1..], j - 1);
      assert lines[1..][..j] == lines[..j + 1][1..];
      assert flags[1..][..j] == flags[..j + 1][1..];
    }
  }

  /** The last line of the stream yields its own content before the loop ends. */
  lemma {:induction false} DoneYieldsOwnContent(lines: seq<Line>, flags: seq<bool>)
    requires |flags| == |lines| && lines != []
    requires EndsStream(lines[|lines| - 1])
    requires forall i :: 0 <= i < |lines| ==> !flags[i]
    requires forall i :: 0 <= i < |lines| - 1 ==> !EndsStream(lines[i])
    ensures Tokens(lines, flags) == Accepted(lines[..|lines| - 1]) + Yielded(lines[|lines| - 1])
  {
    var n := |lines|;
    assert StopPoint(lines, flags, n);
    TokensAreAccepted(lines, flags, n);
    assert lines[..n] == lines[..n - 1] + [lines[n - 1]];
    AcceptedSnoc(lines[..n - 1], lines[n - 1]);
  }

  /** Appending a line appends what it yields. */
  lemma {:induction false} AcceptedSnoc(lines: seq<Line>, last: Line)
    ensures Accepted(lines + [last]) == Accepted(lines) + Yielded(last)
    decreases |lines|
  {
    if lines == [] {
      assert ([] + [last])[1..] == [];
    } else {
      AcceptedSnoc(lines[1..], last);
      assert (lines + [last])[1..] == lines[1..] + [last];
    }
  }

  /** A stop flag seen on line `j` discards that line and everything after it, unread. */
  lemma {:induction false} StopDiscards(lines: seq<Line>, flags: seq<bool>, j: nat)
    requires |flags| == |lines| && j < |lines|
    requires flags[j]
    ensures Tokens(lines, flags) == Tokens(lines[..j], flags[..j])
    ensures Reads(lines, flags) <= j + 1
    decreases j
  {
    if j > 0 && !flags[0] && !EndsStream(lines[0]) {
      StopDiscards(lines[1..], flags[1..], j - 1);
      assert lines[1..][..j - 1] == lines[..j][1..];
      assert flags[1..][..j - 1] == flags[..j][1..];
    }
  }

  /** One step of the loop, seen from line `i` onwards. */
  lemma {:induction false} LoopStep(lines: seq<Line>, flags: seq<bool>, i: nat)
    requires |flags| == |lines| && i < |lines|
    ensures Tokens(lines[i..], flags[i..]) ==
      if flags[i] then []
      else Yielded(lines[i]) + (if EndsStream(lines[i]) then [] else Tokens(lines[i + 1..], flags[i + 1..]))
    ensures Reads(lines[i..], flags[i..]) ==
      if flags[i] || EndsStream(lines[i]) then 1 else 1 + Reads(lines[i + 1..], flags[i + 1..])
  {
    assert lines[i..][1..] == lines[i + 1..];
    assert flags[i..][1..] == flags[i + 1..];
  }

  /** The text one processed line adds to the reply: its content, or nothing. */
  function Delta(line: Line): (text: string)
    ensures [text] == Yielded(line) || (text == "" && Yielded(line) == [])
  {
    if line.Obj? && line.content.Some? then line.content.value else ""
  }

  /** Letting line `i` through moves its text from the part still to come to the part received. */
  lemma {:induction false} TextStep(lines: seq<Line>, flags: seq<bool>, i: nat, received: string, answer: string)
    requires |flags| == |lines| && i < |lines| && !flags[i]
    requires answer == received + Concat(Tokens(lines[i..], flags[i..]))
    ensures EndsStream(lines[i]) ==> answer == received + Delta(lines[i])
    ensures !EndsStream(lines[i]) ==>
      answer == (received + Delta(lines[i])) + Concat(Tokens(lines[i + 1..], flags[i + 1..]))
  {
    LoopStep(lines, flags, i);
    var rest := if EndsStream(lines[i]) then [] else Tokens(lines[i + 1..], flags[i + 1..]);
    ConcatAppend(Yielded(lines[i]), rest);
    assert Concat(Yielded(lines[i])) == Delta(lines[i]) by {
      if Yielded(lines[i]) != [] {
        assert [Delta(lines[i])][..0] == [];
      }
    }
    TextAssoc(received, Delta(lines[i]), Concat(rest));
    assert Concat([]) + "" == "";
  }

  /** Two content chunks and a final `done` object give the two tokens, joined. */
  lemma {:induction false} StreamedReply()
    ensures var lines := [Obj(Some("Hel"), false), Malformed, Empty, Obj(Some("lo"), false), Obj(None, true), Obj(Some("!"), false)];
      Tokens(lines, [false, false, false, false, false, false]) == ["Hel", "lo"]
  {
  }

  /** The same stream, with the stop flag seen when the second line arrives, keeps only the first token. */
  lemma {:induction false} StoppedReply()
    ensures var lines := [Obj(Some("Hel"), false), Obj(Some("lo"), false), Obj(None, true)];
      Tokens(lines, [false, true, true]) == ["Hel"] && Reads(lines, [false, true, true]) == 2
  {
  }
}
