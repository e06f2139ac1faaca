/** Prompt assembly of RAG/prompt.py: the retrieved FAQ documents are cut to
    the first `top_k`, numbered from 1, joined with a blank line and put into
    a fixed instruction template, which is then stripped. RAG/llm.py holds a
    byte-identical copy of `build_prompt`; module RagLlm uses this one.

    The template's lines are indented by eight spaces in the source; the
    source lines end in CRLF, which Python reads as "\n". */
module RagPrompt {
  import opened PyStr

  const TopKDefault: int := 3

  /** A document returned by the vector search; the prompt uses only its
      question and answer fields. */
  datatype Doc = Doc(question: string, answer: string)

  /** `xs[:k]` with Python's slicing rules: a negative `k` counts from the end,
      and a bound past either end is clamped. */
  function SliceTo<T>(xs: seq<T>, k: int): (r: seq<T>)
    ensures |r| <= |xs| && r == xs[..|r|]
  {
    if k < 0 then (if |xs| + k < 0 then [] else xs[..|xs| + k])
    else if k < |xs| then xs[..k]
    else xs
  }

  /** A non-negative `k` keeps exactly `min(k, |xs|)` items: all of them when
      there are at most `k`. */
  lemma SliceToLength<T>(xs: seq<T>, k: int)
    ensures 0 <= k <= |xs| ==> |SliceTo(xs, k)| == k
    ensures k >= |xs| ==> SliceTo(xs, k) == xs
    ensures k < 0 ==> |SliceTo(xs, k)| == if |xs| + k < 0 then 0 else |xs| + k
  {
  }

  /** The label of the `i`-th snippet, `【文档片段i】`. */
  function Label(i: nat): string {
    "【文档片段" + NatToString(i) + "】"
  }

  /** Labels of distinct numbers differ, and the number can be read back
      from the label. */
  lemma LabelNumber(i: nat)
    ensures var l := Label(i);
            |l| == |NatToString(i)| + 6
            && DigitsValue(l[5..|l| - 1]) == i
  {
    var l := Label(i);
    assert l[5..|l| - 1] == NatToString(i);
    NatToStringValue(i);
  }

  /** What the `i`-th document contributes to the context. */
  function Snippet(i: nat, doc: Doc): string {
    Label(i) + "\nQ: " + doc.question + "\nA: " + doc.answer + "\n"
  }

  /** The snippets of `docs`, numbered consecutively from 1. */
  function Snippets(docs: seq<Doc>): (parts: seq<string>)
    ensures |parts| == |docs|
    ensures forall i :: 0 <= i < |docs| ==> parts[i] == Snippet(i + 1, docs[i])
  {
    seq(|docs|, i requires 0 <= i < |docs| => Snippet(i + 1, docs[i]))
  }

  lemma SnippetsSnoc(docs: seq<Doc>, d: Doc)
    ensures Snippets(docs + [d]) == Snippets(docs) + [Snippet(|docs| + 1, d)]
  {
  }

  /** The `i`-th snippet begins with its label and holds the document's
      question and answer verbatim. */
  lemma SnippetHolds(i: nat, doc: Doc)
    ensures StartsWith(Snippet(i, doc), Label(i))
    ensures Contains(Snippet(i, doc), doc.question)
    ensures Contains(Snippet(i, doc), doc.answer)
  {
    var s := Snippet(i, doc);
    assert s[..|Label(i)|] == Label(i);
    ContainsSelf(doc.question);
    ContainsSelf(doc.answer);
    assert s == (Label(i) + "\nQ: ") + doc.question + ("\nA: " + doc.answer + "\n");
    ContainsExtend(Label(i) + "\nQ: ", doc.question, "\nA: " + doc.answer + "\n", doc.question);
    assert s == (Label(i) + "\nQ: " + doc.question + "\nA: ") + doc.answer + "\n";
    ContainsExtend(Label(i) + "\nQ: " + doc.question + "\nA: ", doc.answer, "\n", doc.answer);
  }

  /** The context block: the snippets of the first `topK` documents, joined
      by a blank line. */
  function Context(docs: seq<Doc>, topK: int): string {
    Join(Snippets(SliceTo(docs, topK)), "\n\n")
  }

  /** The context is empty exactly when no document is kept. */
  lemma ContextEmpty(docs: seq<Doc>, topK: int)
    ensures Context(docs, topK) == "" <==> SliceTo(docs, topK) == []
  {
    var parts := Snippets(SliceTo(docs, topK));
    if parts != [] {
      JoinContainsPart(parts, "\n\n", 0);
      assert |parts[0]| > 0;
    }
  }

  /** Every kept document's question and answer appear in the context, and
      so does the label of every position from 1 to the number kept. */
  lemma {:induction false} ContextHoldsDocs(docs: seq<Doc>, topK: int, i: nat)
    requires i < |SliceTo(docs, topK)|
    ensures Contains(Context(docs, topK), docs[i].question)
    ensures Contains(Context(docs, topK), docs[i].answer)
    ensures Contains(Context(docs, topK), Label(i + 1))
  {
    var kept := SliceTo(docs, topK);
    assert kept[i] == docs[i];
    var parts := Snippets(kept);
    JoinContainsPart(parts, "\n\n", i);
    SnippetHolds(i + 1, docs[i]);
    ContainsTrans(Context(docs, topK), parts[i], docs[i].question);
    ContainsTrans(Context(docs, topK), parts[i], docs[i].answer);
    var l := Label(i + 1);
    assert parts[i] == [] + l + parts[i][|l|..];
    ContainsSelf(l);
    ContainsExtend([], l, parts[i][|l|..], l);
    ContainsTrans(Context(docs, topK), parts[i], l);
  }

  const Indent: string := "        "
  const Intro: string := "你是一个智能问答助手，请仅根据提供的文档片段回答用户问题。"
  const Fallback: string := "如果文档片段中没有相关内容，请回答“未找到相关信息”。"
  const QuestionHeading: string := "用户问题："
  const ContextHeading: string := "可用文档片段："
  const Closing: string := "请基于以上信息，生成简洁明了的回答："

  /** The line break and indentation that open and close the f-string. */
  const Padding: string := "\n" + Indent

  /** The f-string before stripping: the padding, then the text from the
      instruction to the closing request, then the padding again. */
  function Template(userQuestion: string, contextText: string): string {
    Padding + Body(userQuestion, contextText) + Padding
  }

  /** The text from the instruction to the closing request. */
  function Body(userQuestion: string, contextText: string): string {
    BodyHead() + userQuestion + BodyMiddle() + contextText + BodyTail()
  }

  function BodyHead(): string {
    Intro + "\n"
    + Indent + Fallback + "\n"
    + Indent + "\n"
    + Indent + QuestionHeading + "\n"
    + Indent
  }

  function BodyMiddle(): string {
    "\n\n"
    + Indent + ContextHeading + "\n"
    + Indent
  }

  function BodyTail(): string {
    "\n\n"
    + Indent + Closing
  }

  /** The prompt `build_prompt` returns for a question and a context block. */
  function Prompt(userQuestion: string, contextText: string): string {
    Strip(Template(userQuestion, contextText))
  }

  lemma BodyHeadStart()
    ensures StartsWith(BodyHead(), Intro) && BodyHead()[0] == Intro[0]
  {
  }

  lemma BodyTailEnd()
    ensures EndsWith(BodyTail(), Closing) && BodyTail()[|BodyTail()| - 1] == Closing[|Closing| - 1]
  {
  }

  /** A string framed by `h` and `t` starts as `h` does and ends as `t` does. */
  lemma Framed(h: string, q: string, m: string, c: string, t: string, p: string, e: string)
    requires StartsWith(h, p) && EndsWith(t, e) && p != [] && e != []
    ensures var b := h + q + m + c + t;
            StartsWith(b, p) && EndsWith(b, e) && b[0] == p[0] && b[|b| - 1] == e[|e| - 1]
  {
    var b := h + q + m + c + t;
    assert b[..|p|] == h[..|p|];
    assert b[|b| - |e|..] == t[|t| - |e|..];
  }

  /** The body starts with the instruction and ends with the closing request. */
  lemma BodyEnds(userQuestion: string, contextText: string)
    ensures var b := Body(userQuestion, contextText);
            StartsWith(b, Intro) && EndsWith(b, Closing) && Trimmed(b)
  {
    BodyHeadStart();
    BodyTailEnd();
    Framed(BodyHead(), userQuestion, BodyMiddle(), contextText, BodyTail(), Intro, Closing);
    assert !IsSpace(Intro[0]) && !IsSpace(Closing[|Closing| - 1]);
  }

  /** The body holds the question and the context verbatim. */
  lemma BodyHolds(userQuestion: string, contextText: string)
    ensures Contains(Body(userQuestion, contextText), userQuestion)
    ensures Contains(Body(userQuestion, contextText), contextText)
  {
    var b := Body(userQuestion, contextText);
    ContainsSelf(userQuestion);
    ContainsSelf(contextText);
    assert b == BodyHead() + userQuestion + (BodyMiddle() + contextText + BodyTail());
    ContainsExtend(BodyHead(), userQuestion, BodyMiddle() + contextText + BodyTail(), userQuestion);
    assert b == (BodyHead() + userQuestion + BodyMiddle()) + contextText + BodyTail();
    ContainsExtend(BodyHead() + userQuestion + BodyMiddle(), contextText, BodyTail(), contextText);
  }

  /** Stripping removes exactly the padding, whatever the question and the
      context are: the prompt starts with the instruction, ends with the
      closing request, has no whitespace at either end, and holds the
      question and the context verbatim. */
  lemma PromptShape(userQuestion: string, contextText: string)
    ensures Prompt(userQuestion, contextText) == Body(userQuestion, contextText)
    ensures var p := Prompt(userQuestion, contextText);
            StartsWith(p, Intro) && EndsWith(p, Closing) && Trimmed(p)
            && Contains(p, userQuestion) && Contains(p, contextText)
  {
    BodyEnds(userQuestion, contextText);
    assert AllSpace(Padding);
    StripPadded(Padding, Body(userQuestion, contextText), Padding);
    BodyHolds(userQuestion, contextText);
  }

  /** `build_prompt(user_question, retrieved_docs, top_k)` as a value. */
  function PromptFor(userQuestion: string, docs: seq<Doc>, topK: int): string {
    Prompt(userQuestion, Context(docs, topK))
  }

  /** Everything the prompt promises about the retrieved documents: each of
      the first `topK` contributes its question and answer verbatim under a
      label numbered from 1. */
  lemma PromptHoldsDocs(userQuestion: string, docs: seq<Doc>, topK: int, i: nat)
    requires i < |SliceTo(docs, topK)|
    ensures var p := PromptFor(userQuestion, docs, topK);
            Contains(p, docs[i].question) && Contains(p, docs[i].answer) && Contains(p, Label(i + 1))
  {
    PromptShape(userQuestion, Context(docs, topK));
    ContextHoldsDocs(docs, topK, i);
    var p := PromptFor(userQuestion, docs, topK);
    ContainsTrans(p, Context(docs, topK), docs[i].question);
    ContainsTrans(p, Context(docs, topK), docs[i].answer);
    ContainsTrans(p, Context(docs, topK), Label(i + 1));
  }

  /** `build_prompt`: the loop appending one snippet per kept document,
      then the join, the template and the strip. */
  method BuildPrompt(userQuestion: string, retrievedDocs: seq<Doc>, topK: int) returns (prompt: string)
    ensures prompt == PromptFor(userQuestion, retrievedDocs, topK)
  {
    var kept := SliceTo(retrievedDocs, topK);
    var contextParts: seq<string> := [];
    for i := 0 to |kept|
      invariant contextParts == Snippets(kept[..i])
    {
      assert kept[..i + 1] == kept[..i] + [kept[i]];
      SnippetsSnoc(kept[..i], kept[i]);
      contextParts := contextParts + [Snippet(i + 1, kept[i])];
    }
    assert kept[..|kept|] == kept;
    var contextText := Join(contextParts, "\n\n");
    prompt := Strip(Template(userQuestion, contextText));
  }

  // ---------------------------------------------------------------------------
  // The interactive loop of RAG/prompt.py and RAG/llm.py
  // ---------------------------------------------------------------------------

  /** `user_question.lower() in ["exit", "quit"]`. */
  predicate IsExitCommand(s: string) {
    Lower(s) == "exit" || Lower(s) == "quit"
  }

  /** The loop ends exactly on `exit` or `quit` spelt in any mix of cases,
      with nothing before or after the word. */
  lemma ExitCommandSpelling(s: string)
    ensures IsExitCommand(s) <==> EqualsIgnoringCase(s, "exit") || EqualsIgnoringCase(s, "quit")
  {
    assert LowerWord("exit") && LowerWord("quit");
    LowerEqualsWord(s, "exit");
    LowerEqualsWord(s, "quit");
  }

  /** Upper and lower case both end the loop. */
  lemma ExitCommandCase()
    ensures IsExitCommand("EXIT") && IsExitCommand("Quit")
  {
    assert Lower("EXIT") == "exit";
    assert Lower("Quit") == "quit";
  }

  /** Surrounding spaces and other words do not end the loop. */
  lemma NotExitCommand()
    ensures !IsExitCommand(" exit") && !IsExitCommand("q")
  {
    assert |Lower(" exit")| == 5;
    assert |Lower("q")| == 1;
  }

  /** An exit command is four letters long. */
  lemma ExitCommandLength(s: string)
    requires IsExitCommand(s)
    ensures |s| == 4
  {
  }

  /** The number of inputs the loop handles before it stops: the position of
      the first exit command, or all of them. */
  function ExitIndex(inputs: seq<string>): (n: nat)
    ensures n <= |inputs|
    ensures forall j :: 0 <= j < n ==> !IsExitCommand(inputs[j])
    ensures n < |inputs| ==> IsExitCommand(inputs[n])
    decreases |inputs|
  {
    if inputs == [] then 0
    else if IsExitCommand(inputs[0]) then 0
    else 1 + ExitIndex(inputs[1..])
  }

  /** Question `i` of a run that has not stopped before it: the run stops
      there exactly when it is an exit command. */
  lemma ExitIndexStep(inputs: seq<string>, i: nat)
    requires i < |inputs| && i <= ExitIndex(inputs)
    ensures IsExitCommand(inputs[i]) <==> ExitIndex(inputs) == i
  {
  }

  /** What one question of RAG/prompt.py's loop prints: a warning when the
      search found nothing, else the prompt. */
  datatype PromptTurn = NoDocs | ShowPrompt(prompt: string)

  function PromptTurnFor(q: string, search: string -> seq<Doc>): PromptTurn {
    var docs := search(q);
    if docs == [] then NoDocs else ShowPrompt(PromptFor(q, docs, TopKDefault))
  }

  /** The turns of a whole session: one per input before the first exit command. */
  function PromptTurns(inputs: seq<string>, search: string -> seq<Doc>): (ts: seq<PromptTurn>)
    ensures |ts| == ExitIndex(inputs)
  {
    seq(ExitIndex(inputs), i requires 0 <= i < ExitIndex(inputs) => PromptTurnFor(inputs[i], search))
  }

  /** A question whose search found nothing gets the warning; any other
      gets the prompt built from its documents, which holds the question. */
  lemma PromptTurnShortCircuit(q: string, search: string -> seq<Doc>)
    ensures PromptTurnFor(q, search).NoDocs? <==> search(q) == []
    ensures search(q) != [] ==>
              PromptTurnFor(q, search).prompt == PromptFor(q, search(q), TopKDefault)
              && Contains(PromptTurnFor(q, search).prompt, q)
  {
    if search(q) != [] {
      PromptShape(q, Context(search(q), TopKDefault));
    }
  }

  lemma PromptTurnsByElement(turns: seq<PromptTurn>, inputs: seq<string>, search: string -> seq<Doc>)
    requires |turns| == ExitIndex(inputs)
    requires forall j :: 0 <= j < |turns| ==> turns[j] == PromptTurnFor(inputs[j], search)
    ensures turns == PromptTurns(inputs, search)
  {
  }

  /** The body of the loop for one question that is not an exit command:
      the warning when the search finds nothing, else the built prompt. */
  method PromptTurnStep(userQuestion: string, search: string -> seq<Doc>) returns (turn: PromptTurn)
    ensures turn == PromptTurnFor(userQuestion, search)
  {
    var docs := search(userQuestion);
    if docs == [] {
      return NoDocs;
    }
    var prompt := BuildPrompt(userQuestion, docs, TopKDefault);
    return ShowPrompt(prompt);
  }

  /** The `__main__` loop of RAG/prompt.py with the typed inputs as a
      sequence and the vector search as an oracle (line 125 as the
      `search_faq` call it evidently stands for); `exited` is false when
      the inputs run out before an exit command (where `input` would raise
      `EOFError`). */
  method PromptLoop(inputs: seq<string>, search: string -> seq<Doc>)
    returns (turns: seq<PromptTurn>, exited: bool)
    ensures turns == PromptTurns(inputs, search)
    ensures exited <==> ExitIndex(inputs) < |inputs|
  {
    turns := [];
    var i := 0;
    exited := false;
    while i < |inputs|
      invariant i <= |inputs| && i <= ExitIndex(inputs)
      invariant |turns| == i
      invariant forall j :: 0 <= j < i ==> turns[j] == PromptTurnFor(inputs[j], search)
    {
      var userQuestion := inputs[i];
      ExitIndexStep(inputs, i);
      if IsExitCommand(userQuestion) {
        exited := true;
        break;
      }
      var turn := PromptTurnStep(userQuestion, search);
      turns := turns + [turn];
      i := i + 1;
    }
    PromptTurnsByElement(turns, inputs, search);
  }
}
