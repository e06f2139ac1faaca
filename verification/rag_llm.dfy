/** The question-answering loop of RAG/llm.py: read a question, stop on an
    exit command, search the FAQ index, warn and go on when nothing was
    found, otherwise build the prompt and ask the chat model.

    The vector search and the chat model are oracles; the loop keeps the
    log of the prompts it sent to the chat model. */
module RagLlm {
  import opened PyStr
  import opened RagPrompt

  /** `TOP_K` of RAG/llm.py. */
  const TopK: int := 3

  /** What one question gives: a warning when the search found nothing, or
      the prompt sent to the chat model and its answer. */
  datatype Turn = Unanswered | Answered(prompt: string, answer: string)

  function TurnFor(q: string, search: string -> seq<Doc>, ask: string -> string): Turn {
    var docs := search(q);
    if docs == [] then Unanswered
    else
      var prompt := PromptFor(q, docs, TopK);
      Answered(prompt, ask(prompt))
  }

  /** The turns of a whole session: one per input before the first exit command. */
  function Turns(inputs: seq<string>, search: string -> seq<Doc>, ask: string -> string): (ts: seq<Turn>)
    ensures |ts| == ExitIndex(inputs)
  {
    seq(ExitIndex(inputs), i requires 0 <= i < ExitIndex(inputs) => TurnFor(inputs[i], search, ask))
  }

  /** The prompts sent to the chat model, in order. */
  function AskedPrompts(turns: seq<Turn>): (asked: seq<string>)
    ensures |asked| <= |turns|
    decreases |turns|
  {
    if turns == [] then []
    else
      var init := AskedPrompts(turns[..|turns| - 1]);
      match turns[|turns| - 1]
      case Unanswered => init
      case Answered(p, _) => init + [p]
  }

  /** A question whose search found nothing never reaches the chat model;
      any other question does, with the prompt built from its documents. */
  lemma TurnForShortCircuit(q: string, search: string -> seq<Doc>, ask: string -> string)
    ensures TurnFor(q, search, ask).Unanswered? <==> search(q) == []
    ensures search(q) != [] ==>
              var p := TurnFor(q, search, ask).prompt;
              p == PromptFor(q, search(q), TopK) && Contains(p, q) && StartsWith(p, Intro)
  {
    if search(q) != [] {
      PromptShape(q, Context(search(q), TopK));
    }
  }

  /** The chat model is asked once per answered turn and never otherwise:
      with no document found for any question, it is never called. */
  lemma {:induction false} AskedPromptsCount(turns: seq<Turn>)
    ensures AskedPrompts(turns) == [] <==> forall i :: 0 <= i < |turns| ==> turns[i].Unanswered?
    ensures |AskedPrompts(turns)| == |turns| <==> forall i :: 0 <= i < |turns| ==> turns[i].Answered?
    decreases |turns|
  {
    if turns != [] {
      var init := turns[..|turns| - 1];
      AskedPromptsCount(init);
      assert forall i :: 0 <= i < |init| ==> init[i] == turns[i];
    }
  }

  /** Whatever the chat model would answer, a session in which no search
      finds anything calls it zero times. */
  lemma NoDocsNoCalls(inputs: seq<string>, search: string -> seq<Doc>, ask: string -> string)
    requires forall i :: 0 <= i < |inputs| ==> search(inputs[i]) == []
    ensures AskedPrompts(Turns(inputs, search, ask)) == []
  {
    var ts := Turns(inputs, search, ask);
    forall i | 0 <= i < |ts| ensures ts[i].Unanswered? {
      TurnForShortCircuit(inputs[i], search, ask);
    }
    AskedPromptsCount(ts);
  }

  /** The turns of a session are determined one input at a time. */
  lemma TurnsByElement(turns: seq<Turn>, inputs: seq<string>, search: string -> seq<Doc>, ask: string -> string)
    requires |turns| == ExitIndex(inputs)
    requires forall j :: 0 <= j < |turns| ==> turns[j] == TurnFor(inputs[j], search, ask)
    ensures turns == Turns(inputs, search, ask)
  {
  }

  /** One more turn, the one for the next input, keeps the turns in step
      with the inputs. */
  lemma TurnsSnoc(turns: seq<Turn>, turn: Turn, inputs: seq<string>, search: string -> seq<Doc>, ask: string -> string)
    requires |turns| < |inputs|
    requires forall j :: 0 <= j < |turns| ==> turns[j] == TurnFor(inputs[j], search, ask)
    requires turn == TurnFor(inputs[|turns|], search, ask)
    ensures forall j :: 0 <= j < |turns| + 1 ==> (turns + [turn])[j] == TurnFor(inputs[j], search, ask)
  {
  }

  lemma AskedPromptsSnoc(turns: seq<Turn>, t: Turn)
    ensures AskedPrompts(turns + [t]) == AskedPrompts(turns) + (if t.Answered? then [t.prompt] else [])
  {
    assert (turns + [t])[..|turns|] == turns;
  }

  /** The body of the loop for one question that is not an exit command:
      search; on no documents, the warning and no model call; otherwise
      build the prompt and ask the model. `sent` lists the prompts passed to
      `ask` here: none, or the one prompt. */
  method QueryStep(userQuestion: string, search: string -> seq<Doc>, ask: string -> string)
    returns (turn: Turn, sent: seq<string>)
    ensures turn == TurnFor(userQuestion, search, ask)
    ensures sent == (if turn.Answered? then [turn.prompt] else [])
  {
    var docs := search(userQuestion);
    if docs == [] {
      return Unanswered, [];
    }
    var prompt := BuildPrompt(userQuestion, docs, TopK);
    var answer := ask(prompt);
    sent := [prompt];
    return Answered(prompt, answer), sent;
  }

  /** Appending one turn to the session and the prompts sent for it to the
      log keeps the log equal to the answered turns' prompts. */
  method Record(turns: seq<Turn>, asked: seq<string>, turn: Turn, sent: seq<string>)
    returns (turns': seq<Turn>, asked': seq<string>)
    requires asked == AskedPrompts(turns)
    requires sent == (if turn.Answered? then [turn.prompt] else [])
    ensures turns' == turns + [turn]
    ensures asked' == asked + sent
    ensures asked' == AskedPrompts(turns')
  {
    AskedPromptsSnoc(turns, turn);
    turns' := turns + [turn];
    asked' := asked + sent;
  }

  /** The `__main__` loop with the typed inputs as a sequence; `exited` is
      false when the inputs run out before an exit command (where `input`
      would raise `EOFError`). */
  method QueryLoop(inputs: seq<string>, search: string -> seq<Doc>, ask: string -> string)
    returns (turns: seq<Turn>, asked: seq<string>, exited: bool)
    ensures turns == Turns(inputs, search, ask)
    ensures asked == AskedPrompts(turns)
    ensures exited <==> ExitIndex(inputs) < |inputs|
  {
    turns := [];
    asked := [];
    exited := false;
    var i := 0;
    while i < |inputs|
      invariant i <= |inputs| && i <= ExitIndex(inputs)
      invariant |turns| == i
      invariant forall j :: 0 <= j < i ==> turns[j] == TurnFor(inputs[j], search, ask)
      invariant asked == AskedPrompts(turns)
    {
      var userQuestion := inputs[i];
      ExitIndexStep(inputs, i);
      if IsExitCommand(userQuestion) {
        exited := true;
        break;
      }
      var turn, sent := QueryStep(userQuestion, search, ask);
      TurnsSnoc(turns, turn, inputs, search, ask);
      turns, asked := Record(turns, asked, turn, sent);
      i := i + 1;
    }
    TurnsByElement(turns, inputs, search, ask);
  }
}
