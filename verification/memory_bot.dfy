/** The multi-role chat bot of Langchian/memory-bot.py: a fixed table of
    role prompts, the chain built for a role, role switching, and the
    streaming handler that accumulates the model's chunks into one growing
    reply. The model's stream is an input: the sequence of chunk texts. */
module MemoryBot {
  import opened PyBase
  import opened PyStr

  /** `ROLES`: role name to system prompt. */
  const Roles: map<string, string> := map[
    "通用助手" := "你是无所不知的 AI 助手。",
    "段子手" := "你是脱口秀演员，回答必须带 1 个梗。",
    "英语老师" := "你是耐心英语老师，先用英文回答，再给中文翻译。",
    "代码审查员" := "你是严格的代码审查员，指出代码问题并给出改进建议。"
  ]

  /** The role the page starts with. */
  const InitialRole: string := "通用助手"

  /** The chain `build_chain` returns: the system prompt, then the history,
      then the human question. */
  datatype Chain = Chain(system: string)

  /** `build_chain(role)`: `ROLES[role]` raises `KeyError` for an unknown role. */
  function BuildChain(role: string): (r: Result<Chain>)
    ensures r.Ok? <==> role in Roles
    ensures r.Ok? ==> r.value.system == Roles[role]
    ensures r.Err? ==> r.error == KeyError(role)
  {
    if role in Roles then Ok(Chain(Roles[role])) else Err(KeyError(role))
  }

  /** The page starts on a known role, so its first chain can be built. */
  lemma InitialRoleKnown()
    ensures InitialRole in Roles && BuildChain(InitialRole) == Ok(Chain("你是无所不知的 AI 助手。"))
  {
  }

  /** One entry of the chat box. */
  datatype ChatEntry = ChatEntry(role: string, content: string)

  /** The heading showing the current role. */
  function RoleDisplay(role: string): string {
    "**当前角色：" + role + "**"
  }

  /** The role can be read back from its heading; the heading shown before
      any switch is that of the initial role. */
  lemma RoleDisplayRoundTrip(role: string)
    ensures var d := RoleDisplay(role);
            |d| == |role| + 9 && d[7..|d| - 2] == role
    ensures RoleDisplay(InitialRole) == "**当前角色：通用助手**"
  {
  }

  /** What `switch_role` returns: the heading, the emptied chat, the new state. */
  datatype Switched = Switched(display: string, chat: seq<ChatEntry>, state: string)

  /** `switch_role(new_role)`. */
  function SwitchRole(newRole: string): (r: Switched)
    ensures r.chat == [] && r.state == newRole
  {
    Switched(RoleDisplay(newRole), [], newRole)
  }

  /** After a switch, the next message uses the new role's prompt, and its
      history is the new role's own session: switching to a role in the
      table never makes the next chain fail. */
  lemma SwitchThenBuild(newRole: string)
    ensures var s := SwitchRole(newRole);
            s.display == RoleDisplay(newRole)
            && (BuildChain(s.state).Ok? <==> newRole in Roles)
            && (newRole in Roles ==> BuildChain(s.state).value.system == Roles[newRole])
  {
  }

  /** `"".join(chunks)`: the text streamed so far. */
  function Concat(chunks: seq<string>): (s: string)
    decreases |chunks|
  {
    if chunks == [] then "" else Concat(chunks[..|chunks| - 1]) + chunks[|chunks| - 1]
  }

  /** Each chunk only extends the reply: an earlier partial reply is a
      prefix of every later one. */
  lemma {:induction false} ConcatPrefix(chunks: seq<string>, i: nat, j: nat)
    requires i <= j <= |chunks|
    ensures StartsWith(Concat(chunks[..j]), Concat(chunks[..i]))
    decreases j
  {
    if i < j {
      ConcatPrefix(chunks, i, j - 1);
      assert chunks[..j][..j - 1] == chunks[..j - 1];
      var a := Concat(chunks[..j - 1]);
      assert Concat(chunks[..j]) == a + chunks[j - 1];
      assert (a + chunks[j - 1])[..|a|] == a;
    } else {
      assert Concat(chunks[..j])[..|Concat(chunks[..j])|] == Concat(chunks[..j]);
    }
  }

  /** The length of the reply is the sum of the chunks' lengths so far. */
  function TotalLength(chunks: seq<string>): nat
    decreases |chunks|
  {
    if chunks == [] then 0 else TotalLength(chunks[..|chunks| - 1]) + |chunks[|chunks| - 1]|
  }

  lemma {:induction false} ConcatLength(chunks: seq<string>)
    ensures |Concat(chunks)| == TotalLength(chunks)
    decreases |chunks|
  {
    if chunks != [] {
      ConcatLength(chunks[..|chunks| - 1]);
    }
  }

  /** One value yielded by `chat_fn`: the chat to show and the input box text. */
  datatype Yielded = Yielded(chat: seq<ChatEntry>, inputBox: string)

  /** The `j`-th yield: the old chat unchanged, then the user's message, then
      the reply streamed up to and including chunk `j`; the input box is cleared. */
  function YieldAfter(message: string, history: seq<ChatEntry>, chunks: seq<string>, j: nat): Yielded
    requires j < |chunks|
  {
    Yielded(history + [ChatEntry("user", message), ChatEntry("assistant", Concat(chunks[..j + 1]))], "")
  }

  /** A run of `chat_fn`: the session its history is kept under, the system
      prompt used, and everything yielded. */
  datatype ChatRun = ChatRun(sessionId: string, system: string, outputs: seq<Yielded>)

  /** `chat_fn(message, history, role)` given the chunks the model streams:
      an unknown role fails in `build_chain` before anything is yielded. */
  method ChatFn(message: string, history: seq<ChatEntry>, role: string, chunks: seq<string>)
    returns (r: Result<ChatRun>)
    ensures r.Err? <==> role !in Roles
    ensures r.Err? ==> r.error == KeyError(role)
    ensures r.Ok? ==> r.value.sessionId == role && r.value.system == Roles[role]
                      && |r.value.outputs| == |chunks|
                      && forall j :: 0 <= j < |chunks| ==> r.value.outputs[j] == YieldAfter(message, history, chunks, j)
  {
    var chain := BuildChain(role);
    if chain.Err? {
      return Err(chain.error);
    }
    var sessionId := role;
    var partial := "";
    var outputs: seq<Yielded> := [];
    for i := 0 to |chunks|
      invariant partial == Concat(chunks[..i])
      invariant |outputs| == i
      invariant forall j :: 0 <= j < i ==> outputs[j] == YieldAfter(message, history, chunks, j)
    {
      assert chunks[..i + 1][..i] == chunks[..i];
      partial := partial + chunks[i];
      outputs := outputs + [Yielded(history + [ChatEntry("user", message), ChatEntry("assistant", partial)], "")];
    }
    return Ok(ChatRun(sessionId, chain.value.system, outputs));
  }

  /** The last yield holds the whole streamed reply, and every yield keeps
      the old chat as its prefix. */
  lemma ChatFnLastYield(message: string, history: seq<ChatEntry>, chunks: seq<string>)
    requires chunks != []
    ensures forall j :: 0 <= j < |chunks| ==>
              YieldAfter(message, history, chunks, j).chat[..|history|] == history
              && YieldAfter(message, history, chunks, j).chat[|history|] == ChatEntry("user", message)
    ensures YieldAfter(message, history, chunks, |chunks| - 1).chat[|history| + 1].content == Concat(chunks)
  {
    assert chunks[..|chunks|] == chunks;
  }
}
