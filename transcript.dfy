/** The chat transcript: its turns, how the page shows them, and how streamed tokens accumulate. */
module Transcript {

  /** The `'role'` of a history entry: only `'user'` and `'assistant'` are ever stored. */
  datatype Role = User | Assistant

  /** One history entry, `{'role': ..., 'content': ...}`. */
  datatype Turn = Turn(role: Role, content: string)

  /** The label the page prints for a role: `'User'` for user turns, `'Assistant'` for any other. */
  function RoleLabel(role: Role): string {
    if role == User then "User" else "Assistant"
  }

  /** The markdown block for one entry: bold label, colon, content, blank line. */
  function Entry(t: Turn): string {
    "**" + RoleLabel(t.role) + ":** " + t.content + "\n\n"
  }

  /** The markdown shown for a whole history: the entries' blocks, in order. */
  function Render(history: seq<Turn>): string
    decreases |history|
  {
    if history == [] then "" else Render(history[..|history| - 1]) + Entry(history[|history| - 1])
  }

  /** Rendering distributes over concatenation of histories. */
  lemma {:induction false} RenderConcat(a: seq<Turn>, b: seq<Turn>)
    ensures Render(a + b) == Render(a) + Render(b)
    decreases |b|
  {
    if b == [] {
      assert a + b == a;
    } else {
      var b', t := b[..|b| - 1], b[|b| - 1];
      assert (a + b)[..|a + b| - 1] == a + b';
      RenderConcat(a, b');
      TextAssoc(Render(a), Render(b'), Entry(t));
    }
  }

  /** The block of one entry, with its label written out. */
  lemma {:induction false} EntryText(t: Turn)
    ensures Entry(t) == (if t.role == User then "**User:** " else "**Assistant:** ") + t.content + "\n\n"
  {
    if t.role == User {
      assert "**" + "User" + ":** " == "**User:** ";
    } else {
      assert "**" + "Assistant" + ":** " == "**Assistant:** ";
    }
  }

  /** The page after a send shows the earlier history, then the user block, then the assistant block. */
  lemma {:induction false} RenderAfterSend(history: seq<Turn>, prompt: string, answer: string)
    ensures Render(history + [Turn(User, prompt), Turn(Assistant, answer)]) ==
      Render(history) + ("**User:** " + prompt + "\n\n") + ("**Assistant:** " + answer + "\n\n")
  {
    var u, v := Turn(User, prompt), Turn(Assistant, answer);
    var r := Render(history);
    assert Render(history + [u, v]) == r + (Entry(u) + Entry(v)) by {
      RenderConcat(history, [u, v]);
      RenderPair(u, v);
    }
    EntryText(u);
    EntryText(v);
    TextAssoc(r, Entry(u), Entry(v));
  }

  lemma {:induction false} RenderPair(u: Turn, v: Turn)
    ensures Render([u, v]) == Entry(u) + Entry(v)
  {
    assert [u, v][..1] == [u];
    assert [u][..0] == [];
    assert Render([u]) == "" + Entry(u);
    assert Render([u, v]) == Render([u]) + Entry(v);
  }

  /** `history[-1]['content'] += text`: the last entry's content grows by `text`, its role and
      every earlier entry stay as they were. */
  function AppendToLast(history: seq<Turn>, text: string): (r: seq<Turn>)
    requires history != []
    ensures |r| == |history| && r[..|r| - 1] == history[..|history| - 1]
    ensures r[|r| - 1].role == history[|history| - 1].role
    ensures r[|r| - 1].content == history[|history| - 1].content + text
  {
    var last := |history| - 1;
    history[..last] + [Turn(history[last].role, history[last].content + text)]
  }

  /** Appending nothing leaves the history as it is. */
  lemma {:induction false} AppendNothing(history: seq<Turn>)
    requires history != []
    ensures AppendToLast(history, "") == history
  {
    var r := AppendToLast(history, "");
    assert r[|r| - 1] == history[|history| - 1];
    assert history == history[..|history| - 1] + [history[|history| - 1]];
  }

  /** Two appends to the last entry are one append of the joined text. */
  lemma {:induction false} AppendTwice(history: seq<Turn>, a: string, b: string)
    requires history != []
    ensures AppendToLast(AppendToLast(history, a), b) == AppendToLast(history, a + b)
  {
    var last := |history| - 1;
    TextAssoc(history[last].content, a, b);
  }

  /** Streaming into a freshly appended empty assistant turn leaves that turn holding the text. */
  lemma {:induction false} AppendToFreshTurn(history: seq<Turn>, user: Turn, text: string)
    ensures AppendToLast(history + [user, Turn(Assistant, "")], text) == history + [user, Turn(Assistant, text)]
  {
    var h := history + [user, Turn(Assistant, "")];
    assert h[..|h| - 1] == history + [user];
    assert "" + text == text;
  }

  /** The text of a sequence of tokens joined in order, as `+=` builds it from `''`. */
  function Concat(tokens: seq<string>): string
    decreases |tokens|
  {
    if tokens == [] then "" else Concat(tokens[..|tokens| - 1]) + tokens[|tokens| - 1]
  }

  /** Joining distributes over concatenation of token sequences. */
  lemma {:induction false} ConcatAppend(a: seq<string>, b: seq<string>)
    ensures Concat(a + b) == Concat(a) + Concat(b)
    decreases |b|
  {
    if b == [] {
      assert a + b == a;
    } else {
      var b' := b[..|b| - 1];
      assert (a + b)[..|a + b| - 1] == a + b';
      ConcatAppend(a, b');
    }
  }

  /** Joining non-empty tokens gives the empty text exactly when there are no tokens, so a reply
      that received a token shows a non-empty answer. */
  lemma {:induction false} ConcatBlank(tokens: seq<string>)
    requires forall t :: t in tokens ==> t != ""
    ensures Concat(tokens) == "" <==> tokens == []
  {
    if tokens != [] {
      assert tokens[|tokens| - 1] in tokens;
    }
  }

  /** The joined text is as long as the tokens together, and each token appears at its offset. */
  lemma {:induction false} ConcatAt(tokens: seq<string>, j: nat)
    requires j < |tokens|
    ensures var before := Concat(tokens[..j]);
      |before| + |tokens[j]| <= |Concat(tokens)| &&
      Concat(tokens)[|before|..|before| + |tokens[j]|] == tokens[j]
  {
    var n := |tokens|;
    assert tokens == tokens[..j] + [tokens[j]] + tokens[j + 1..];
    ConcatAppend(tokens[..j] + [tokens[j]], tokens[j + 1..]);
    ConcatAppend(tokens[..j], [tokens[j]]);
    assert Concat([tokens[j]]) == tokens[j] by {
      assert [tokens[j]][..0] == [];
    }
  }

  /** Text concatenation regroups freely. */
  lemma {:induction false} TextAssoc(a: string, b: string, c: string)
    ensures (a + b) + c == a + (b + c)
  {
  }
}
