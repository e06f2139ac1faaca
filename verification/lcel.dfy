/** Language routing of Langchian/LCEL.py: `determine_language` picks a
    translation prompt from the words in the query, and both the
    `RunnableBranch` and the manual `if`/`elif` selection follow its
    answer. */
module Lcel {
  import opened PyBase
  import opened PyStr

  const JapaneseWord: string := "日语"
  const KoreanWord: string := "韩语"

  /** `determine_language(inputs)`; a dict without `"query"` raises `KeyError`. */
  function DetermineLanguage(inputs: map<string, string>): (r: Result<string>)
    ensures r.Ok? ==> r.value in {"japanese", "korean", "english"}
  {
    if "query" !in inputs then Err(KeyError("query"))
    else
      var query := inputs["query"];
      if Contains(query, JapaneseWord) then Ok("japanese")
      else if Contains(query, KoreanWord) then Ok("korean")
      else Ok("english")
  }

  /** Each label is given exactly when the query has the matching words:
      `日语` wins over `韩语`, and everything else is English. The answer
      depends on the query alone. */
  lemma DetermineLanguageCases(inputs: map<string, string>)
    ensures "query" !in inputs <==> DetermineLanguage(inputs) == Err(KeyError("query"))
    ensures "query" in inputs ==>
              var q := inputs["query"];
              (DetermineLanguage(inputs) == Ok("japanese") <==> Contains(q, JapaneseWord))
              && (DetermineLanguage(inputs) == Ok("korean") <==> !Contains(q, JapaneseWord) && Contains(q, KoreanWord))
              && (DetermineLanguage(inputs) == Ok("english") <==> !Contains(q, JapaneseWord) && !Contains(q, KoreanWord))
  {
  }

  lemma DetermineLanguageOnlyQuery(a: map<string, string>, b: map<string, string>)
    requires "query" in a && "query" in b && a["query"] == b["query"]
    ensures DetermineLanguage(a) == DetermineLanguage(b)
  {
  }

  /** A chat prompt: its system message and the human template `{query}`. */
  datatype ChatPrompt = ChatPrompt(system: string, human: string)

  const EnglishPrompt: ChatPrompt := ChatPrompt("你是一个英语翻译专家，你叫小英", "{query}")
  const JapanesePrompt: ChatPrompt := ChatPrompt("你是一个日语翻译专家，你叫小日", "{query}")
  const KoreanPrompt: ChatPrompt := ChatPrompt("你是一个韩语翻译专家，你叫小韩", "{query}")

  /** `RunnableBranch((cond, runnable), ..., default)`: the first condition
      that holds picks its runnable; each condition here is
      `determine_language(x) == label`, so a `KeyError` in it propagates. */
  function RunBranch(branches: seq<(string, ChatPrompt)>, default: ChatPrompt, inputs: map<string, string>)
    : (r: Result<ChatPrompt>)
    ensures r.Err? <==> DetermineLanguage(inputs).Err? && branches != []
    decreases |branches|
  {
    if branches == [] then Ok(default)
    else
      var lang := DetermineLanguage(inputs);
      if lang.Err? then Err(lang.error)
      else if lang.value == branches[0].0 then Ok(branches[0].1)
      else RunBranch(branches[1..], default, inputs)
  }

  /** The branches of `chain`, in their order. */
  const Branches: seq<(string, ChatPrompt)> := [("japanese", JapanesePrompt), ("korean", KoreanPrompt)]

  /** The manual selection of the test loop. */
  function ManualPrompt(lang: string): ChatPrompt {
    if lang == "japanese" then JapanesePrompt
    else if lang == "korean" then KoreanPrompt
    else EnglishPrompt
  }

  /** The branch chain and the manual selection agree on every input: both
      pick the prompt of the language `determine_language` names, and the
      branch chain fails with the same `KeyError` when there is no query. */
  lemma BranchAgreesWithManual(inputs: map<string, string>)
    ensures DetermineLanguage(inputs).Ok? ==>
              RunBranch(Branches, EnglishPrompt, inputs) == Ok(ManualPrompt(DetermineLanguage(inputs).value))
    ensures DetermineLanguage(inputs).Err? ==>
              RunBranch(Branches, EnglishPrompt, inputs) == Err(KeyError("query"))
  {
    var lang := DetermineLanguage(inputs);
    var rest := Branches[1..];
    assert rest == [("korean", KoreanPrompt)] && rest[1..] == [];
    if lang.Ok? && lang.value != "japanese" {
      assert RunBranch(Branches, EnglishPrompt, inputs) == RunBranch(rest, EnglishPrompt, inputs);
      if lang.value != "korean" {
        assert RunBranch(rest, EnglishPrompt, inputs) == RunBranch([], EnglishPrompt, inputs);
      }
    }
  }

  /** The prompt picked is the translation expert for the language picked. */
  lemma ManualPromptExpert(inputs: map<string, string>)
    requires "query" in inputs
    ensures var p := ManualPrompt(DetermineLanguage(inputs).value);
            (Contains(inputs["query"], JapaneseWord) ==> p == JapanesePrompt)
            && (!Contains(inputs["query"], JapaneseWord) && Contains(inputs["query"], KoreanWord) ==> p == KoreanPrompt)
            && (!Contains(inputs["query"], JapaneseWord) && !Contains(inputs["query"], KoreanWord) ==> p == EnglishPrompt)
  {
  }

  const KoreanQuery: string := "请你用韩语翻译这句话:\"见到你很高兴\""
  const JapaneseQuery: string := "请你用日语翻译这句话:\"见到你很高兴\""
  const EnglishQuery: string := "请你用英语翻译这句话:\"见到你很高兴\""

  /** The three test queries go to Korean, Japanese and English. */
  lemma KoreanTestQuery()
    ensures DetermineLanguage(map["query" := KoreanQuery]) == Ok("korean")
  {
    assert KoreanQuery[3..5] == KoreanWord;
    ContainsAt(KoreanQuery, KoreanWord, 3);
    assert '日' !in KoreanQuery;
    NotContainsFirstChar(KoreanQuery, JapaneseWord);
  }

  lemma JapaneseTestQuery()
    ensures DetermineLanguage(map["query" := JapaneseQuery]) == Ok("japanese")
  {
    assert JapaneseQuery[3..5] == JapaneseWord;
    ContainsAt(JapaneseQuery, JapaneseWord, 3);
  }

  lemma EnglishTestQuery()
    ensures DetermineLanguage(map["query" := EnglishQuery]) == Ok("english")
  {
    assert '日' !in EnglishQuery && '韩' !in EnglishQuery;
    NotContainsFirstChar(EnglishQuery, JapaneseWord);
    NotContainsFirstChar(EnglishQuery, KoreanWord);
  }
}
