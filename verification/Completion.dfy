/**
 One response of `OpenRouterLLM` in `benchmarks/llm.py`: the text in it, the single outcome it
 ends in, and the retry loop around it.
 */
module Completion {
  import opened WhiteSpace

  /** A block contributes its text only when that is a string. */
  datatype Block = Readable(text: string) | Unreadable

  /** `NoField` is a missing `message` or `content`; `Other` is null or any other type. */
  datatype Content = NoField | Text(chars: string) | Blocks(blocks: seq<Block>) | Other

  datatype Choice = Choice(finish: string, content: Content)

  /** An absent list of choices is an empty one. */
  datatype Body = Body(choices: seq<Choice>)

  datatype Outcome = NoChoices | Truncated | Empty | Answer(text: string)

  // ---------------------------------------------------------------- the text

  function Joined(blocks: seq<Block>): string {
    if blocks == [] then ""
    else
      var last := blocks[|blocks| - 1];
      Joined(blocks[..|blocks| - 1]) + if last.Readable? then last.text else ""
  }

  function TextOf(content: Content): string {
    match content
    case Text(chars) => chars
    case Blocks(blocks) => Joined(blocks)
    case _ => ""
  }

  function Shown(block: Block): string {
    if block.Readable? then block.text else ""
  }

  /** The text of two listings is the one text after the other, and that of one block its own. */
  lemma {:induction false} JoinedInOrder(a: seq<Block>, b: seq<Block>)
    ensures Joined(a + b) == Joined(a) + Joined(b)
    ensures forall block :: Joined([block]) == if block == Unreadable then "" else block.text
  {
    hide Joined;
    forall block: Block ensures Joined([block]) == Shown(block) { JoinedLast([block]); }
    hide Shown;
    JoinedLast(b);
    if b == [] {
      assert a + b == a;
    } else {
      var n := |b| - 1;
      JoinedInOrder(a, b[..n]);
      assert (a + b)[..|a| + n] == a + b[..n] && (a + b)[|a| + n] == b[n];
      JoinedLast(a + b);
      assert Joined(a) + Joined(b[..n]) + Shown(b[n]) == Joined(a) + (Joined(b[..n]) + Shown(b[n]));
    }
  }

  lemma JoinedLast(blocks: seq<Block>)
    ensures blocks == [] ==> Joined(blocks) == ""
    ensures blocks != [] ==> Joined(blocks) == Joined(blocks[..|blocks| - 1]) + Shown(blocks[|blocks| - 1])
    ensures |blocks| == 1 ==> Joined(blocks) == Shown(blocks[0])
  {
  }

  /** A text with a visible character, of a first choice that was finished. */
  ghost predicate IsAnswer(body: Body, text: string) {
    && body.choices != [] && body.choices[0].finish != "length"
    && (body.choices[0].content == Text(text) ||
        (body.choices[0].content.Blocks? && text == Joined(body.choices[0].content.blocks)))
    && exists i :: 0 <= i < |text| && !PythonSpace(text[i])
  }

  method AssistantText(content: Content) returns (text: string)
    ensures text == TextOf(content)
  {
    text := "";
    match content {
      case Text(chars) => return chars;
      case Blocks(blocks) =>
        for i := 0 to |blocks|
          invariant text == Joined(blocks[..i])
        {
          assert blocks[..i + 1][..i] == blocks[..i];
          text := text + if blocks[i].Readable? then blocks[i].text else "";
        }
        assert blocks[..|blocks|] == blocks;
      case _ =>
    }
  }

  function Strip(s: string): string {
    if s == "" then ""
    else if PythonSpace(s[0]) then Strip(s[1..])
    else if PythonSpace(s[|s| - 1]) then Strip(s[..|s| - 1])
    else s
  }

  lemma {:induction false} StripIsEmptyExactly(s: string)
    ensures Strip(s) == "" <==> PythonBlank(s)
  {
    hide PythonSpace;
    if s != "" {
      if PythonSpace(s[0]) {
        StripIsEmptyExactly(s[1..]);
        assert forall i :: 0 < i < |s| ==> s[i] == s[1..][i - 1];
      } else if PythonSpace(s[|s| - 1]) {
        StripIsEmptyExactly(s[..|s| - 1]);
        assert s[..|s| - 1][0] == s[0];
      }
    }
  }

  /** Blocks are unusable exactly when none holds a visible character. */
  lemma {:induction false} JoinedIsBlankExactly(blocks: seq<Block>)
    ensures PythonBlank(Joined(blocks)) <==> forall b :: b in blocks && b.Readable? ==> PythonBlank(b.text)
  {
    hide PythonSpace;
    if blocks != [] {
      var n := |blocks| - 1;
      var rest, last := blocks[..n], blocks[n];
      JoinedIsBlankExactly(rest);
      BlankJoins(Joined(rest), if last.Readable? then last.text else "");
      assert forall b :: b in blocks <==> b in rest || b == last;
    }
  }

  lemma BlankJoins(a: string, b: string)
    ensures PythonBlank(a + b) <==> PythonBlank(a) && PythonBlank(b)
  {
    hide PythonSpace;
    var all := a + b;
    assert forall i :: 0 <= i < |a| ==> all[i] == a[i];
    assert forall i :: 0 <= i < |b| ==> all[|a| + i] == b[i];
    if PythonBlank(all) {
      forall i | 0 <= i < |b| ensures PythonSpace(b[i]) { assert all[|a| + i] == b[i]; }
    }
  }

  // ---------------------------------------------------------------- the outcome

  function OutcomeOf(body: Body): Outcome {
    if body.choices == [] then NoChoices
    else
      var choice := body.choices[0];
      if choice.finish == "length" then Truncated
      else if choice.content.NoField? then NoChoices
      else if PythonBlank(TextOf(choice.content)) then Empty
      else Answer(TextOf(choice.content))
  }

  /** The reading of a response that arrived, in the order the branches stand. */
  method ReadBody(body: Body) returns (o: Outcome)
    ensures o == OutcomeOf(body)
    ensures o == NoChoices <==>
      body.choices == [] || (body.choices[0].finish != "length" && body.choices[0].content.NoField?)
    ensures o == Truncated <==> body.choices != [] && body.choices[0].finish == "length"
    ensures o == Empty <==>
      body.choices != [] && body.choices[0].finish != "length" && !body.choices[0].content.NoField? &&
      forall i :: 0 <= i < |TextOf(body.choices[0].content)| ==> PythonSpace(TextOf(body.choices[0].content)[i])
  {
    hide PythonSpace;
    if |body.choices| == 0 { return NoChoices; }
    var choice := body.choices[0];
    if choice.finish == "length" { return Truncated; }
    if choice.content.NoField? { return NoChoices; }
    var answer := AssistantText(choice.content);
    StripIsEmptyExactly(answer);
    if Strip(answer) == "" { return Empty; }
    return Answer(answer);
  }

  /**
   What an answer promises: the provider finished the first choice, and the text is what it
   sent, unstripped, with at least one visible character.
   */
  lemma AnswerExactly(body: Body, text: string)
    ensures OutcomeOf(body) == Answer(text) <==> IsAnswer(body, text)
  {
    hide PythonSpace;
    assert PythonBlank(text) <==> !exists i :: 0 <= i < |text| && !PythonSpace(text[i]);
    if body.choices != [] && body.choices[0].content.NoField? { assert TextOf(body.choices[0].content) == ""; }
  }

  // ---------------------------------------------------------------- the retries

  /** One attempt: the request raised an error of either kind, or a response came back. */
  datatype Attempt = Raised(transient: bool) | Replied(body: Body)

  datatype Result = Completed(text: string) | Failed(last: Attempt) | BadAttempts

  /** `_classify`: a response without a completion is the only one worth asking for again. */
  predicate Retryable(a: Attempt) {
    match a
    case Raised(transient) => transient
    case Replied(body) => OutcomeOf(body) == NoChoices
  }

  /** A transient error, or a response whose first choice is missing, or was finished without content. */
  ghost predicate AsksAgain(a: Attempt) {
    match a
    case Raised(transient) => transient
    case Replied(body) =>
      body.choices == [] || (body.choices[0].finish != "length" && body.choices[0].content.NoField?)
  }

  /** `complete` over what its attempts would meet; `used` attempts are made. */
  method Complete(replies: nat -> Attempt, attempts: int) returns (r: Result, used: nat)
    ensures r == BadAttempts <==> attempts < 1
    ensures attempts < 1 ==> used == 0
    ensures attempts >= 1 ==> 1 <= used <= attempts && forall i :: 0 <= i < used - 1 ==> AsksAgain(replies(i))
    ensures r.Completed? ==> used > 0 && replies(used - 1).Replied? && IsAnswer(replies(used - 1).body, r.text)
    ensures r.Failed? ==> used > 0 && r.last == replies(used - 1) && (used == attempts || !AsksAgain(r.last))
    ensures r.Failed? && r.last.Replied? ==> forall text :: !IsAnswer(r.last.body, text)
  {
    hide IsAnswer, PythonSpace;
    used := 0;
    if attempts < 1 { return BadAttempts, 0; }
    while true
      invariant used < attempts && forall i :: 0 <= i < used ==> AsksAgain(replies(i))
      decreases attempts - used
    {
      var a := replies(used);
      used := used + 1;
      if a.Replied? {
        var o := ReadBody(a.body);
        forall text ensures OutcomeOf(a.body) == Answer(text) <==> IsAnswer(a.body, text) {
          AnswerExactly(a.body, text);
        }
        if o.Answer? { return Completed(o.text), used; }
      }
      if used == attempts || !Retryable(a) { return Failed(a), used; }
    }
  }
}
