/** Langchian/RAG.py: `SimpleQALoader.load`, which reads a question/answer
    file as pairs of consecutive non-blank lines, and
    `CustomTextSplitter.split_text`, which keeps the first sentence of each
    paragraph. The file's contents and its formatted creation time are
    inputs. */
module QaLoader {
  import opened PyBase
  import opened PyStr
  import opened TextManage

  // ---------------------------------------------------------------------------
  // SimpleQALoader.load
  // ---------------------------------------------------------------------------

  /** `s.lstrip(chars)`: drops the leading run of characters from `chars`. */
  function LStripChars(s: string, chars: string): (r: string)
    ensures r == [] || r[0] !in chars
    decreases |s|
  {
    if s != [] && s[0] in chars then LStripChars(s[1..], chars) else s
  }

  /** What `lstrip(chars)` removes is a prefix made only of `chars`. */
  lemma {:induction false} LStripCharsSlice(s: string, chars: string)
    ensures |LStripChars(s, chars)| <= |s|
    ensures LStripChars(s, chars) == s[|s| - |LStripChars(s, chars)|..]
    ensures forall i :: 0 <= i < |s| - |LStripChars(s, chars)| ==> s[i] in chars
    decreases |s|
  {
    if s != [] && s[0] in chars {
      LStripCharsSlice(s[1..], chars);
      assert forall i :: 1 <= i < |s| ==> s[i] == s[1..][i - 1];
    }
  }

  lemma LStripCharsKeeps(s: string, chars: string)
    requires s == [] || s[0] !in chars
    ensures LStripChars(s, chars) == s
  {
  }

  const QuestionMarks: string := "Q：:"
  const AnswerMarks: string := "A：:"

  /** `lines[i].lstrip("Q：:").strip()`. */
  function QuestionOf(line: string): (q: string)
    ensures Trimmed(q)
  {
    Strip(LStripChars(line, QuestionMarks))
  }

  /** `lines[i+1].lstrip("A：:").strip()`. */
  function AnswerOf(line: string): (a: string)
    ensures Trimmed(a)
  {
    Strip(LStripChars(line, AnswerMarks))
  }

  /** Stripping one leading `<mark>: ` from a line gives back any trimmed
      text after it: the space stops `lstrip`, even when the text itself
      starts with a marker character. */
  lemma MarkedRoundTrip(mark: char, marks: string, text: string)
    requires mark in marks && ':' in marks && ' ' !in marks
    requires Trimmed(text)
    ensures Strip(LStripChars([mark, ':', ' '] + text, marks)) == text
  {
    var line := [mark, ':', ' '] + text;
    assert line[1..][1..] == " " + text;
    assert LStripChars(line, marks) == LStripChars(line[1..], marks);
    assert line[1..][0] == ':';
    assert LStripChars(line[1..], marks) == LStripChars(" " + text, marks);
    assert (" " + text)[0] == ' ';
    assert LStripChars(" " + text, marks) == " " + text;
    assert AllSpace(" ") && AllSpace("");
    assert " " + text + "" == " " + text;
    StripPadded(" ", text, "");
  }

  /** The same after `load` has stripped the line: `<mark>: ` followed by a
      trimmed text strips to a non-empty line that parses back to the text,
      the empty text included (`"Q: "` strips to `"Q:"`, which gives `""`). */
  lemma StrippedMarkedRoundTrip(mark: char, marks: string, text: string)
    requires mark in marks && ':' in marks && ' ' !in marks && !IsSpace(mark)
    requires Trimmed(text)
    ensures Strip([mark, ':', ' '] + text) != []
    ensures Strip(LStripChars(Strip([mark, ':', ' '] + text), marks)) == text
  {
    var line := [mark, ':', ' '] + text;
    if text == [] {
      assert AllSpace([]) && AllSpace(" ") && Trimmed([mark, ':']);
      assert line == [] + [mark, ':'] + " ";
      StripPadded([], [mark, ':'], " ");
      assert [mark, ':'][1..] == [':'] && [':'][1..] == [];
      assert LStripChars([mark, ':'], marks) == LStripChars([':'], marks);
      assert LStripChars([':'], marks) == LStripChars([], marks);
      assert Strip([]) == [] by { StripTrimmed([]); }
    } else {
      assert line[|line| - 1] == text[|text| - 1];
      StripTrimmed(line);
      MarkedRoundTrip(mark, marks, text);
    }
  }

  lemma QuestionRoundTrip(q: string)
    requires Trimmed(q)
    ensures QuestionOf("Q: " + q) == q
  {
    MarkedRoundTrip('Q', QuestionMarks, q);
    assert "Q: " + q == ['Q', ':', ' '] + q;
  }

  lemma AnswerRoundTrip(a: string)
    requires Trimmed(a)
    ensures AnswerOf("A: " + a) == a
  {
    MarkedRoundTrip('A', AnswerMarks, a);
    assert "A: " + a == ['A', ':', ' '] + a;
  }

  /** Without the space, `lstrip` also eats marker characters that begin the
      question itself. */
  lemma QuestionWithoutSpace()
    ensures QuestionOf("Q:Q币") == "币"
    ensures QuestionOf("Q: Q币") == "Q币"
  {
    assert "Q:Q币"[1..][1..][1..] == "币";
    assert LStripChars("Q:Q币", QuestionMarks) == "币";
    assert Trimmed("币");
    QuestionRoundTrip("Q币");
  }

  /** `f"Q: {q}\nA: {a}"`. */
  function PageContent(q: string, a: string): string {
    "Q: " + q + "\nA: " + a
  }

  /** A loaded document: its text and its metadata dict. */
  datatype QaDocument = QaDocument(pageContent: string, metadata: map<string, string>)

  function DocMetadata(filePath: string, createdAt: string): map<string, string> {
    map["source" := filePath, "created_at" := createdAt]
  }

  /** The document made of a question line and the answer line after it. */
  function DocOf(qLine: string, aLine: string, filePath: string, createdAt: string): QaDocument {
    QaDocument(PageContent(QuestionOf(qLine), AnswerOf(aLine)), DocMetadata(filePath, createdAt))
  }

  /** `[line.strip() for line in f if line.strip()]`: the same comprehension
      as in `clean_text`. */
  function FileLines(content: string): seq<string> {
    NonBlankStripped(SplitLines(content))
  }

  /** The result of `load` for the file's non-blank lines: lines `2j` and
      `2j+1` make document `j`; an odd count makes `lines[i+1]` raise
      `IndexError` on the last step, losing the documents built so far. */
  function LoadLines(lines: seq<string>, filePath: string, createdAt: string): Result<seq<QaDocument>> {
    if |lines| % 2 == 1 then Err(IndexError(|lines|))
    else
      Ok(seq(|lines| / 2, j requires 0 <= j < |lines| / 2 =>
               DocOf(lines[2 * j], lines[2 * j + 1], filePath, createdAt)))
  }

  /** `load` fails exactly on an odd number of non-blank lines; otherwise
      there is one document per pair of lines, in file order, each holding
      the pair's question and answer and the same `source` and `created_at`. */
  lemma LoadLinesResult(lines: seq<string>, filePath: string, createdAt: string)
    ensures LoadLines(lines, filePath, createdAt).Err? <==> |lines| % 2 == 1
    ensures LoadLines(lines, filePath, createdAt).Err? ==>
              LoadLines(lines, filePath, createdAt).error == IndexError(|lines|)
    ensures LoadLines(lines, filePath, createdAt).Ok? ==>
              var docs := LoadLines(lines, filePath, createdAt).value;
              2 * |docs| == |lines|
              && forall j :: 0 <= j < |docs| ==>
                   docs[j].pageContent == PageContent(QuestionOf(lines[2 * j]), AnswerOf(lines[2 * j + 1]))
                   && docs[j].metadata["source"] == filePath
                   && docs[j].metadata["created_at"] == createdAt
  {
  }

  /** A document's `page_content`, saved as a file of its own and loaded
      again, gives back the same document; an empty question or answer
      (which `load` makes from a bare `Q:` or `A:` line) included. */
  lemma ReloadPageContent(q: string, a: string, filePath: string, createdAt: string)
    requires Trimmed(q) && '\n' !in q
    requires Trimmed(a) && '\n' !in a
    ensures LoadLines(FileLines(PageContent(q, a)), filePath, createdAt)
            == Ok([QaDocument(PageContent(q, a), DocMetadata(filePath, createdAt))])
  {
    var ql := "Q: " + q;
    var al := "A: " + a;
    assert Join([ql, al], "\n") == PageContent(q, a);
    assert '\n' !in ql && '\n' !in al;
    SplitLinesJoin([ql, al]);
    assert ql == ['Q', ':', ' '] + q && al == ['A', ':', ' '] + a;
    StrippedMarkedRoundTrip('Q', QuestionMarks, q);
    StrippedMarkedRoundTrip('A', AnswerMarks, a);
    var lines := [Strip(ql), Strip(al)];
    assert NonBlankStripped([ql, al]) == lines by {
      assert [ql, al][1..] == [al] && [al][1..] == [];
    }
    var d := DocOf(lines[0], lines[1], filePath, createdAt);
    assert d == QaDocument(PageContent(q, a), DocMetadata(filePath, createdAt));
    LoadLinesByElement([d], lines, filePath, createdAt);
  }

  lemma LoadLinesByElement(docs: seq<QaDocument>, lines: seq<string>, filePath: string, createdAt: string)
    requires |lines| == 2 * |docs|
    requires forall j :: 0 <= j < |docs| ==> docs[j] == DocOf(lines[2 * j], lines[2 * j + 1], filePath, createdAt)
    ensures LoadLines(lines, filePath, createdAt) == Ok(docs)
  {
    assert |lines| % 2 == 0 && |lines| / 2 == |docs|;
    var built := seq(|lines| / 2, j requires 0 <= j < |lines| / 2 =>
                       DocOf(lines[2 * j], lines[2 * j + 1], filePath, createdAt));
    assert |built| == |docs|;
    assert forall j :: 0 <= j < |docs| ==> built[j] == docs[j];
    assert built == docs;
  }

  /** `load`: the file's non-blank lines, stripped, then the pairing loop. */
  method Load(filePath: string, content: string, createdAt: string) returns (r: Result<seq<QaDocument>>)
    ensures r == LoadLines(FileLines(content), filePath, createdAt)
  {
    var lines := FileLines(content);
    r := PairLines(lines, filePath, createdAt);
  }

  /** The loop of `load` over the line indices 0, 2, 4, .... */
  method PairLines(lines: seq<string>, filePath: string, createdAt: string) returns (r: Result<seq<QaDocument>>)
    ensures r == LoadLines(lines, filePath, createdAt)
  {
    var docs: seq<QaDocument> := [];
    var i := 0;
    while i < |lines|
      invariant i == 2 * |docs| && i <= |lines|
      invariant forall j :: 0 <= j < |docs| ==>
                  docs[j] == DocOf(lines[2 * j], lines[2 * j + 1], filePath, createdAt)
    {
      if i + 1 >= |lines| {
        assert |lines| == 2 * |docs| + 1;
        return Err(IndexError(i + 1));
      }
      var q := Strip(LStripChars(lines[i], QuestionMarks));
      var a := Strip(LStripChars(lines[i + 1], AnswerMarks));
      var pageContent := "Q: " + q + "\nA: " + a;
      var doc := QaDocument(pageContent, map["source" := filePath, "created_at" := createdAt]);
      assert doc == DocOf(lines[i], lines[i + 1], filePath, createdAt);
      docs := docs + [doc];
      i := i + 2;
    }
    LoadLinesByElement(docs, lines, filePath, createdAt);
    return Ok(docs);
  }

  // ---------------------------------------------------------------------------
  // CustomTextSplitter.split_text
  // ---------------------------------------------------------------------------

  /** The `"\n\n"`-separated paragraphs of the stripped text. */
  function Paragraphs(text: string): (ps: seq<string>)
    ensures |ps| >= 1
  {
    Split(Strip(text), "\n\n")
  }

  /** The paragraphs cover the stripped text: joined again, they give it
      back; no paragraph holds `"\n\n"`, and each cut is at the first
      `"\n\n"` after the paragraph starts (a paragraph followed by `"\n"`
      still holds none). */
  lemma ParagraphsJoin(text: string)
    ensures Join(Paragraphs(text), "\n\n") == Strip(text)
    ensures forall i :: 0 <= i < |Paragraphs(text)| ==> !Contains(Paragraphs(text)[i], "\n\n")
    ensures forall i :: 0 <= i < |Paragraphs(text)| - 1 ==> !Contains(Paragraphs(text)[i] + "\n", "\n\n")
  {
    JoinSplit(Strip(text), "\n\n");
    assert "\n\n"[..1] == "\n";
  }

  /** `p.split("。")[0]`. */
  function FirstSentence(p: string): string {
    Split(p, "。")[0]
  }

  /** The first sentence is the part of the paragraph before its first `。`,
      or the whole paragraph when there is none; it never contains `。`. */
  lemma FirstSentenceCut(p: string)
    ensures var f := FirstSentence(p);
            StartsWith(p, f) && '。' !in f
            && (|f| < |p| ==> p[|f|] == '。')
            && ('。' !in p ==> f == p)
  {
    SplitFirstIsPrefix(p, "。");
    SplitCharFirst(p, '。');
  }

  /** A blank paragraph gives `""`: the `is None` test never holds for a string. */
  lemma BlankParagraph(p: string)
    requires Strip(p) == ""
    ensures FirstSentence(Strip(p)) == ""
  {
  }

  /** `split_text`: one first sentence per paragraph, in order. */
  method SplitText(text: string) returns (resultTexts: seq<string>)
    ensures |resultTexts| == |Paragraphs(text)|
    ensures forall i :: 0 <= i < |resultTexts| ==>
              resultTexts[i] == FirstSentence(Strip(Paragraphs(text)[i]))
  {
    var stripped := Strip(text);
    var textArray := Split(stripped, "\n\n");
    resultTexts := [];
    for i := 0 to |textArray|
      invariant |resultTexts| == i
      invariant forall j :: 0 <= j < i ==> resultTexts[j] == FirstSentence(Strip(textArray[j]))
    {
      var stripTextItem := Strip(textArray[i]);
      resultTexts := resultTexts + [Split(stripTextItem, "。")[0]];
    }
  }

  /** No output of `split_text` contains `。`, and each is a prefix of its
      stripped paragraph. */
  lemma SplitTextSentences(text: string, i: nat)
    requires i < |Paragraphs(text)|
    ensures '。' !in FirstSentence(Strip(Paragraphs(text)[i]))
    ensures StartsWith(Strip(Paragraphs(text)[i]), FirstSentence(Strip(Paragraphs(text)[i])))
  {
    FirstSentenceCut(Strip(Paragraphs(text)[i]));
  }
}
