/** The sliding-window chat memory of Langchian/memory.py: a dict from
    session id to an in-memory message history, where fetching a session's
    history creates it on demand and trims it in place to the last `k`
    rounds (2k messages). */
module ChatMemory {
  import opened PyStr

  /** The number of rounds kept. */
  const K: nat := 2

  datatype Role = Human | Ai
  datatype Message = Message(role: Role, content: string)

  /** The messages a history of `msgs` keeps after trimming: all of them
      when there are at most 2k, otherwise `msgs[-2k:]`. */
  function Window(msgs: seq<Message>): seq<Message> {
    if |msgs| > K * 2 then msgs[|msgs| - K * 2..] else msgs
  }

  /** The window holds at most 2k messages, and they are the newest ones,
      in the same order; a short history is kept whole. */
  lemma WindowKeepsNewest(msgs: seq<Message>)
    ensures |Window(msgs)| <= K * 2
    ensures Window(msgs) == msgs[|msgs| - |Window(msgs)|..]
    ensures |msgs| <= K * 2 ==> Window(msgs) == msgs
    ensures |msgs| > K * 2 ==> |Window(msgs)| == K * 2
  {
  }

  /** Trimming twice is trimming once. */
  lemma WindowIdempotent(msgs: seq<Message>)
    ensures Window(Window(msgs)) == Window(msgs)
  {
  }

  /** Trimming early does not change a later window: whatever is appended
      after a trim, the next trim sees the same last 2k messages as it would
      have without the first trim. */
  lemma WindowAfterAppend(msgs: seq<Message>, more: seq<Message>)
    ensures Window(Window(msgs) + more) == Window(msgs + more)
  {
    if |msgs| > K * 2 {
      var w := Window(msgs);
      var n := |msgs + more| - K * 2;
      assert (w + more)[|w + more| - K * 2..] == (msgs + more)[n..];
    }
  }

  /** `InMemoryChatMessageHistory`: a list of messages changed in place. */
  class ChatHistory {
    var messages: seq<Message>

    constructor()
      ensures messages == []
    {
      messages := [];
    }

    method Clear()
      modifies this
      ensures messages == []
    {
      messages := [];
    }

    method AddMessages(ms: seq<Message>)
      modifies this
      ensures messages == old(messages) + ms
    {
      messages := messages + ms;
    }
  }

  /** The module-level `store` dict. */
  class SessionStore {
    var sessions: map<string, ChatHistory>

    /** Each session has its own history object. */
    predicate Valid()
      reads this
    {
      forall a, b :: a in sessions && b in sessions && a != b ==> sessions[a] != sessions[b]
    }

    constructor()
      ensures sessions == map[] && Valid()
    {
      sessions := map[];
    }

    /** `get_session_history(session_id)`: an unseen id gets a fresh empty
        history; an existing entry is kept and trimmed in place to its
        window; no other session changes. Returns the stored object. */
    method GetSessionHistory(sessionId: string) returns (history: ChatHistory)
      requires Valid()
      modifies this, sessions.Values
      ensures Valid()
      ensures sessions.Keys == old(sessions).Keys + {sessionId}
      ensures history == sessions[sessionId]
      ensures sessionId in old(sessions) ==> history == old(sessions)[sessionId]
      ensures sessionId !in old(sessions) ==> fresh(history)
      ensures history.messages ==
              Window(if sessionId in old(sessions) then old(sessions[sessionId].messages) else [])
      ensures forall s :: s in old(sessions) && s != sessionId ==>
                sessions[s] == old(sessions)[s] && sessions[s].messages == old(sessions[s].messages)
    {
      if sessionId !in sessions {
        var created := new ChatHistory();
        sessions := sessions[sessionId := created];
      }
      history := sessions[sessionId];
      if |history.messages| > K * 2 {
        var messagesToKeep := history.messages[|history.messages| - K * 2..];
        history.Clear();
        history.AddMessages(messagesToKeep);
      }
    }
  }

  /** `question.lower() in ['quit', 'exit', 'q']`. */
  predicate IsQuitCommand(s: string) {
    Lower(s) == "quit" || Lower(s) == "exit" || Lower(s) == "q"
  }

  /** The loop ends exactly on `quit`, `exit` or `q` spelt in any mix of
      cases, with nothing before or after the word. */
  lemma QuitCommandSpelling(s: string)
    ensures IsQuitCommand(s) <==>
              EqualsIgnoringCase(s, "quit") || EqualsIgnoringCase(s, "exit") || EqualsIgnoringCase(s, "q")
  {
    assert LowerWord("quit") && LowerWord("exit") && LowerWord("q");
    LowerEqualsWord(s, "quit");
    LowerEqualsWord(s, "exit");
    LowerEqualsWord(s, "q");
  }

  /** Any case of the three words ends the loop. */
  lemma QuitCommandCase()
    ensures IsQuitCommand("Q") && IsQuitCommand("Exit")
  {
    assert Lower("Q") == "q";
    assert Lower("Exit") == "exit";
  }

  /** Only the whole word counts. */
  lemma NotQuitCommand()
    ensures !IsQuitCommand("quit now") && !IsQuitCommand("qq")
  {
    assert |Lower("quit now")| == 8;
    assert |Lower("qq")| == 2;
  }

  /** The number of questions the chat loop handles: those before the first
      quit command. */
  function QuitIndex(inputs: seq<string>): (n: nat)
    ensures n <= |inputs|
    ensures forall j :: 0 <= j < n ==> !IsQuitCommand(inputs[j])
    ensures n < |inputs| ==> IsQuitCommand(inputs[n])
    decreases |inputs|
  {
    if inputs == [] || IsQuitCommand(inputs[0]) then 0 else 1 + QuitIndex(inputs[1..])
  }
}
