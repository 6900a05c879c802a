/** The page's module-level state and its three handlers: send, stop and re-render. */
module Session {
  import opened Wrappers
  import opened Text
  import opened Transcript
  import opened Ollama

  /** The values of `stop_signal` the stream observes, line by line, when it starts at `stopped`
      and `clicks[i]` says whether the stop handler ran while the stream waited for line `i`. */
  function Observed(stopped: bool, clicks: seq<bool>): (flags: seq<bool>)
    ensures |flags| == |clicks|
    ensures forall i :: 0 <= i < |clicks| ==> flags[i] == (stopped || true in clicks[..i + 1])
    decreases |clicks|
  {
    if clicks == [] then []
    else
      var now := stopped || clicks[0];
      var rest := Observed(now, clicks[1..]);
      assert forall i :: 0 <= i < |rest| ==> rest[i] == (stopped || true in clicks[..i + 2]) by {
        forall i | 0 <= i < |rest| ensures rest[i] == (stopped || true in clicks[..i + 2]) {
          assert clicks[..i + 2] == [clicks[0]] + clicks[1..][..i + 1];
        }
      }
      [now] + rest
  }

  /** One more observed click raises the flag exactly when it was raised already or that click is one. */
  lemma {:induction false} RaisedStep(stopped: bool, clicks: seq<bool>, i: nat)
    requires i < |clicks|
    ensures (stopped || true in clicks[..i + 1]) == ((stopped || true in clicks[..i]) || clicks[i])
  {
    assert clicks[..i + 1] == clicks[..i] + [clicks[i]];
  }

  /** Once set, the flag is seen on every line: the stream then ends at its first line, empty. */
  lemma {:induction false} StoppedStreamIsEmpty(lines: seq<Line>, clicks: seq<bool>)
    requires |clicks| == |lines|
    ensures Tokens(lines, Observed(true, clicks)) == []
    ensures Reads(lines, Observed(true, clicks)) == if lines == [] then 0 else 1
  {
  }

  /** `chat_history`, `stop_signal` and the markdown widget's `content`. */
  class ChatSession {
    var history: seq<Turn>
    var stopSignal: bool
    var display: string

    /** The state at import: empty history, flag clear, empty markdown. */
    constructor ()
      ensures history == [] && !stopSignal && display == ""
    {
      history := [];
      stopSignal := false;
      display := "";
    }

    /** `on_stop_click`: raises the flag; nothing ever lowers it again. */
    method OnStop()
      modifies this`stopSignal
      ensures stopSignal
    {
      stopSignal := true;
    }

    /** `render_history`: rebuilds the markdown from the history, entry by entry. */
    method RenderHistory()
      modifies this`display
      ensures display == Render(history)
    {
      var content := "";
      var i := 0;
      while i < |history|
        invariant 0 <= i <= |history|
        invariant content == Render(history[..i])
      {
        var entry := history[i];
        var role := if entry.role == User then "User" else "Assistant";
        content := content + ("**" + role + ":** " + entry.content + "\n\n");
        assert history[..i + 1][..i] == history[..i];
        i := i + 1;
      }
      assert history[..|history|] == history;
      display := content;
    }

    /** `on_send_click`: strips the prompt and ignores a blank one; otherwise sends it. The
        response is given as `lines`; `clicks[i]` says whether the stop handler ran before line `i`
        was taken. Returns the request sent, or `None` when nothing is sent. */
    method Send(input: string, lines: seq<Line>, clicks: seq<bool>) returns (request: Option<Request>)
      requires |clicks| == |lines|
      modifies this
      ensures Strip(input) == "" ==>
        request == None && history == old(history) && stopSignal == old(stopSignal) && display == old(display)
      ensures Strip(input) != "" ==>
        var prompt, flags := Strip(input), Observed(old(stopSignal), clicks);
        request == Some(Request(OllamaUrl, ModelName,
          old(history) + [Turn(User, prompt), Turn(Assistant, ""), Turn(User, prompt)], true)) &&
        history == old(history) + [Turn(User, prompt), Turn(Assistant, Concat(Tokens(lines, flags)))] &&
        (stopSignal <==> old(stopSignal) || true in clicks[..Reads(lines, flags)]) &&
        display == Render(history)
    {
      var prompt := Strip(input);
      if prompt == "" {
        return None;
      }
      request := SendPrompt(prompt, lines, clicks);
    }

    /** The rest of `on_send_click` for a non-blank prompt: appends the user turn and an empty
        assistant turn, renders, streams the reply into the assistant turn, and renders again. */
    method SendPrompt(prompt: string, lines: seq<Line>, clicks: seq<bool>) returns (request: Option<Request>)
      requires |clicks| == |lines|
      modifies this
      ensures var flags := Observed(old(stopSignal), clicks);
        request == Some(Request(OllamaUrl, ModelName,
          old(history) + [Turn(User, prompt), Turn(Assistant, ""), Turn(User, prompt)], true)) &&
        history == old(history) + [Turn(User, prompt), Turn(Assistant, Concat(Tokens(lines, flags)))] &&
        (stopSignal <==> old(stopSignal) || true in clicks[..Reads(lines, flags)]) &&
        display == Render(history)
    {
      OpenTurns(prompt);
      request := StreamReply(prompt, lines, clicks);
      var user := Turn(User, prompt);
      assert old(history) + [user, Turn(Assistant, "")] + [user] == old(history) + [user, Turn(Assistant, ""), user];
      AppendToFreshTurn(old(history), user, Concat(Tokens(lines, Observed(old(stopSignal), clicks))));
      RenderHistory();
    }

    /** The start of a send: the user turn and an empty assistant turn are appended and the page
        rendered; the flag is left alone. */
    method OpenTurns(prompt: string)
      modifies this`history, this`display
      ensures history == old(history) + [Turn(User, prompt), Turn(Assistant, "")]
      ensures display == Render(history)
    {
      history := history + [Turn(User, prompt)];
      history := history + [Turn(Assistant, "")];
      RenderHistory();
    }

    /** The body of the `async for`: the token is appended to the last turn's content and the
        page re-rendered. */
    method ReceiveToken(token: string)
      requires history != []
      modifies this`history, this`display
      ensures history == AppendToLast(old(history), token)
      ensures display == Render(history)
    {
      var last := |history| - 1;
      history := history[..last] + [Turn(history[last].role, history[last].content + token)];
      RenderHistory();
    }

    /** One pass of the generator's loop after the stop check: an empty or unparsable line is
        skipped; a parsed object hands its non-empty content to the consumer; `more` is false when
        the object's `done` ends the loop. */
    method TakeLine(line: Line) returns (more: bool)
      requires history != []
      modifies this`history, this`display
      ensures history == AppendToLast(old(history), Delta(line))
      ensures more == !EndsStream(line)
      ensures Yielded(line) == [] ==> history == old(history) && display == old(display)
      ensures Yielded(line) != [] ==> display == Render(history)
    {
      more := true;
      if line.Obj? {
        var token := line.content;
        if token.Some? && token.value != "" {
          ReceiveToken(token.value);
        } else {
          AppendNothing(history);
        }
        if line.done {
          more := false;
        }
      } else {
        AppendNothing(history);
      }
    }

    /** The `async for` over `stream_ollama(prompt)`: the generator builds the request from the
        history as it now stands and then reads the response; each token it yields is appended to
        the last turn and rendered, so the page is re-rendered exactly when some token arrived. */
    method StreamReply(prompt: string, lines: seq<Line>, clicks: seq<bool>) returns (request: Option<Request>)
      requires |clicks| == |lines| && history != []
      modifies this
      ensures request == Some(Payload(old(history), prompt))
      ensures var flags := Observed(old(stopSignal), clicks);
        history == AppendToLast(old(history), Concat(Tokens(lines, flags))) &&
        stopSignal == (old(stopSignal) || true in clicks[..Reads(lines, flags)])
      ensures Tokens(lines, Observed(old(stopSignal), clicks)) == [] ==> display == old(display)
      ensures Tokens(lines, Observed(old(stopSignal), clicks)) != [] ==> display == Render(history)
    {
      request := Some(Payload(history, prompt));
      ghost var flags := Observed(stopSignal, clicks);
      ReadStream(lines, clicks);
      TokensNonEmpty(lines, flags);
      ConcatBlank(Tokens(lines, flags));
    }

    /** The generator's loop over the response lines: it takes lines until the response ends, a
        line ends the stream, or it sees the stop flag, which a click raises before the line it
        came with is looked at. */
    method ReadStream(lines: seq<Line>, clicks: seq<bool>)
      requires |clicks| == |lines| && history != []
      modifies this
      ensures var flags := Observed(old(stopSignal), clicks);
        history == AppendToLast(old(history), Concat(Tokens(lines, flags))) &&
        stopSignal == (old(stopSignal) || true in clicks[..Reads(lines, flags)])
      ensures Concat(Tokens(lines, Observed(old(stopSignal), clicks))) == "" ==> display == old(display)
      ensures Concat(Tokens(lines, Observed(old(stopSignal), clicks))) != "" ==> display == Render(history)
    {
      ghost var flags := Observed(stopSignal, clicks);
      ghost var answer := Concat(Tokens(lines, flags));
      ghost var received := "";
      AppendNothing(history);
      assert lines[0..] == lines && flags[0..] == flags;
      var i, finished := 0, false;
      while i < |lines| && !finished
        invariant 0 <= i <= |lines|
        invariant history == AppendToLast(old(history), received)
        invariant answer == received + (if finished then "" else Concat(Tokens(lines[i..], flags[i..])))
        invariant Reads(lines, flags) == i + (if finished then 0 else Reads(lines[i..], flags[i..]))
        invariant stopSignal == (old(stopSignal) || true in clicks[..i])
        invariant received == "" ==> display == old(display)
        invariant received != "" ==> display == Render(history)
        decreases |lines| - i
      {
        finished, received := NextLine(lines, clicks, i, old(stopSignal), flags, old(history), old(display), received, answer);
        i := i + 1;
      }
      assert received + "" == received;
      assert !finished ==> lines[i..] == [] && Tokens(lines[i..], flags[i..]) == [];
    }

    /** One pass of the generator's loop over line `i`: a click that came with the line raises the
        flag first; a raised flag ends the loop without looking at the line; otherwise the line is
        taken and the loop is finished when it ends the stream. The ghost parameters carry the
        state at the start of the stream (`start`, `h0`, `d0`) and the text received so far. */
    method NextLine(lines: seq<Line>, clicks: seq<bool>, i: nat, ghost start: bool, ghost flags: seq<bool>,
                    ghost h0: seq<Turn>, ghost d0: string, ghost received: string, ghost answer: string)
      returns (finished: bool, ghost now: string)
      requires |clicks| == |lines| && i < |lines| && flags == Observed(start, clicks)
      requires h0 != [] && history == AppendToLast(h0, received)
      requires answer == received + Concat(Tokens(lines[i..], flags[i..]))
      requires stopSignal == (start || true in clicks[..i])
      requires received == "" ==> display == d0
      requires received != "" ==> display == Render(history)
      modifies this
      ensures stopSignal ==> finished && now == received
      ensures !stopSignal ==> finished == EndsStream(lines[i]) && now == received + Delta(lines[i])
      ensures history == AppendToLast(h0, now)
      ensures answer == now + (if finished then "" else Concat(Tokens(lines[i + 1..], flags[i + 1..])))
      ensures Reads(lines[i..], flags[i..]) == 1 + (if finished then 0 else Reads(lines[i + 1..], flags[i + 1..]))
      ensures stopSignal == (start || true in clicks[..i + 1])
      ensures now == "" ==> display == d0
      ensures now != "" ==> display == Render(history)
    {
      if clicks[i] {
        OnStop();
      }
      RaisedStep(start, clicks, i);
      LoopStep(lines, flags, i);
      now := received;
      if stopSignal {
        assert received + "" == received;
        finished := true;
      } else {
        TextStep(lines, flags, i, received, answer);
        var more := TakeLine(lines[i]);
        AppendTwice(h0, received, Delta(lines[i]));
        now := received + Delta(lines[i]);
        finished := !more;
        assert now + "" == now;
      }
    }
  }
}
