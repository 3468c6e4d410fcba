/**
 * The conversation store of the Phi-3 chat service
 * (ai-services/phi3-service/app/services/phi3_service.py): conversations
 * kept in memory under random ids, a history that always opens with one
 * system message and is cut back to the most recent messages, the chat
 * turn that sends the history to Ollama, and the one-off correction
 * conversation.
 *
 * The HTTP call to Ollama is the parameter `ollama`: it is given the
 * messages sent and answers with the reply text or a failure (connection
 * error, HTTP error status, or a body without `message.content`).
 */
module Phi3 {
  import opened Wrappers
  import opened Text
  import opened Phi3Schemas
  import opened CorrectionParser

  /** One entry of a history: `{"role": ..., "content": ...}`. */
  datatype Msg = Msg(role: MessageRole, content: string)

  /** What the call to Ollama's chat endpoint gives back. */
  datatype OllamaReply = Replied(content: string) | Failed

  /** The exception `chat` and `correct_text` re-raise when the call fails. */
  datatype ChatFailure = OllamaError

  /** The `(response, conversation_id)` pair `chat` returns. */
  datatype ChatReply = ChatReply(response: string, conversationId: string)

  const DefaultSystemPrompt: string :=
    "You are a helpful language tutor. Help the user learn and practice languages. "
    + "Correct their mistakes gently and provide clear explanations."

  const CorrectionSystemPrompt: string :=
    "You are a language correction assistant. Correct mistakes and explain them clearly."

  /** `max_history`'s default, also the configured `max_conversation_history`. */
  const DefaultMaxHistory: int := 10

  /** The system prompt a new conversation opens with: the given one, unless it is missing or empty. */
  function OpeningPrompt(systemPrompt: Option<string>): (r: string)
    ensures r != []
    ensures systemPrompt.Some? && systemPrompt.value != [] ==> r == systemPrompt.value
    ensures systemPrompt.None? || systemPrompt.value == [] ==> r == DefaultSystemPrompt
  {
    if systemPrompt.Some? && systemPrompt.value != [] then systemPrompt.value else DefaultSystemPrompt
  }

  /** Python's `s[start:]` for an integer `start`, negative starts counting from the end. */
  function SliceFrom<T>(s: seq<T>, start: int): (r: seq<T>)
    ensures |r| <= |s| && r == s[|s| - |r|..]
    ensures start >= 0 ==> |r| == if start <= |s| then |s| - start else 0
    ensures start < 0 ==> |r| == if -start <= |s| then -start else |s|
  {
    if start >= 0 then (if start <= |s| then s[start..] else [])
    else if -start <= |s| then s[|s| + start..]
    else s
  }

  /**
   * The history limit of `chat`: once a history holds more than
   * `2 * maxHistory` messages it is cut to its first (system) message
   * followed by the `2 * maxHistory - 1` most recent ones.
   */
  function Truncate(h: seq<Msg>, maxHistory: int): (r: seq<Msg>)
    requires |h| >= 1
    ensures 1 <= |r| <= |h| && r[0] == h[0]
    ensures r[1..] == h[|h| - (|r| - 1)..]
    ensures |h| <= 2 * maxHistory ==> r == h
    ensures maxHistory >= 1 && |h| > 2 * maxHistory ==> |r| == 2 * maxHistory
    ensures maxHistory == 0 ==> r == h
    ensures maxHistory >= 0 && |h| >= 2 ==> |r| >= 2
  {
    var limit := maxHistory * 2;
    if |h| > limit then
      var recent := SliceFrom(h, -(limit - 1));
      assert |recent| <= |h| - 1 by {
        if limit >= 1 {
          assert |recent| == limit - 1;
        }
      }
      [h[0]] + recent
    else h
  }

  /** A stored history: one system message, first, and at most `2 * maxHistory + 1` messages when the limit is positive. */
  ghost predicate WellFormed(h: seq<Msg>, maxHistory: int) {
    && |h| >= 1
    && h[0].role == System
    && (forall k :: 1 <= k < |h| ==> h[k].role != System)
    && (maxHistory >= 1 ==> |h| <= 2 * maxHistory + 1)
  }

  /** The history a chat turn starts from: the stored one when the id resumes a conversation, else a new one's. */
  function Continued(conversationId: Option<string>, systemPrompt: Option<string>,
                     conversations: map<string, seq<Msg>>): seq<Msg>
  {
    if Resumes(conversationId, conversations) then conversations[conversationId.value]
    else [Msg(System, OpeningPrompt(systemPrompt))]
  }

  /** Storing twice under one id keeps only the second value. */
  lemma Overwrite(m: map<string, seq<Msg>>, id: string, first: seq<Msg>, second: seq<Msg>)
    ensures m[id := first][id := second] == m[id := second]
  {
  }

  /**
   * The history sent to Ollama: the user message appended, then the limit
   * applied. The system message stays first and the rest is the most recent
   * part of the grown history; a history within the limit is sent whole.
   */
  function Sent(h: seq<Msg>, message: string, maxHistory: int): (r: seq<Msg>)
    requires |h| >= 1
    ensures 1 <= |r| <= |h| + 1 && r[0] == h[0]
    ensures r[1..] == (h + [Msg(User, message)])[|h| + 2 - |r|..]
    ensures |h| + 1 <= 2 * maxHistory || maxHistory == 0 ==> r == h + [Msg(User, message)]
    ensures maxHistory >= 1 && |h| + 1 > 2 * maxHistory ==> |r| == 2 * maxHistory
  {
    Truncate(h + [Msg(User, message)], maxHistory)
  }

  /**
   * The history stored after a chat turn: on success the stripped reply
   * is appended as the assistant's; on failure the user message stays.
   */
  function AfterTurn(h: seq<Msg>, message: string, maxHistory: int, reply: OllamaReply): (r: seq<Msg>)
    requires |h| >= 1
    ensures var sent := Sent(h, message, maxHistory);
            && |r| == |sent| + (if reply.Replied? then 1 else 0)
            && r[..|sent|] == sent
            && (reply.Replied? ==> r[|r| - 1] == Msg(Assistant, Strip(reply.content)))
  {
    match reply
    case Failed => Sent(h, message, maxHistory)
    case Replied(content) => Sent(h, message, maxHistory) + [Msg(Assistant, Strip(content))]
  }

  /** A chat turn keeps a history well formed, whatever Ollama answers. */
  lemma TurnKeepsWellFormed(h: seq<Msg>, message: string, maxHistory: int, reply: OllamaReply)
    requires WellFormed(h, maxHistory)
    ensures WellFormed(AfterTurn(h, message, maxHistory, reply), maxHistory)
  {
    var grown := h + [Msg(User, message)];
    var sent := Sent(h, message, maxHistory);
    assert grown[0] == h[0];
    forall k | 1 <= k < |sent| ensures sent[k].role != System {
      var off := |grown| - (|sent| - 1);
      assert sent[1..] == grown[off..];
      assert sent[k] == sent[1..][k - 1] == grown[off + k - 1];
    }
  }

  /**
   * With a non-negative limit the message just sent is the last one Ollama
   * sees, and after a reply the history ends with that exchange.
   */
  lemma TurnEndsWithExchange(h: seq<Msg>, message: string, maxHistory: int, reply: OllamaReply)
    requires |h| >= 1 && maxHistory >= 0
    ensures var sent := Sent(h, message, maxHistory);
            |sent| >= 2 && sent[|sent| - 1] == Msg(User, message)
    ensures reply.Replied? ==>
              var after := AfterTurn(h, message, maxHistory, reply);
              after[|after| - 2..] == [Msg(User, message), Msg(Assistant, Strip(reply.content))]
  {
    var grown := h + [Msg(User, message)];
    var sent := Truncate(grown, maxHistory);
    assert grown[|grown| - 1] == Msg(User, message);
    var tail := sent[1..];
    assert |tail| >= 1 && tail == grown[|grown| - |tail|..];
    assert tail[|tail| - 1] == grown[|grown| - 1];
    assert sent[|sent| - 1] == tail[|tail| - 1];
  }

  /**
   * A negative limit `m` makes every turn drop the `-2 * m` oldest messages
   * after the system message, and once no more than that are left, the
   * message just sent goes too: only the system message is sent.
   */
  lemma NegativeLimitDropsMessages(h: seq<Msg>, message: string, maxHistory: int)
    requires |h| >= 1 && maxHistory < 0
    ensures |h| <= -2 * maxHistory ==> Sent(h, message, maxHistory) == [h[0]]
    ensures |h| > -2 * maxHistory ==>
              var sent := Sent(h, message, maxHistory);
              |sent| == |h| + 1 + 2 * maxHistory && sent[|sent| - 1] == Msg(User, message)
  {
    var grown := h + [Msg(User, message)];
    var recent := SliceFrom(grown, -(maxHistory * 2 - 1));
    assert Sent(h, message, maxHistory) == [h[0]] + recent;
    if |h| > -2 * maxHistory {
      assert recent[|recent| - 1] == grown[|grown| - 1];
    }
  }

  /** Any finite set of ids leaves a non-empty id unused (what `uuid.uuid4()` is relied on for). */
  lemma FreshIdExists(ids: set<string>)
    ensures exists id :: id != [] && id !in ids
  {
    var n := LongestId(ids);
    var id := seq(n + 1, i => 'x');
    assert id != [] && id !in ids;
  }

  ghost function LongestId(ids: set<string>): (n: nat)
    ensures forall id :: id in ids ==> |id| <= n
    decreases ids
  {
    if ids == {} then 0
    else
      var id :| id in ids;
      var m := LongestId(ids - {id});
      if |id| > m then |id| else m
  }

  /** `conversation_id` names a conversation to go on with: it is given, non-empty and known. */
  predicate Resumes(conversationId: Option<string>, conversations: map<string, seq<Msg>>) {
    conversationId.Some? && conversationId.value != [] && conversationId.value in conversations
  }

  /**
   * The `correct_text` prompt: the target language and the text to correct
   * quoted verbatim, followed by the reply format asked for.
   */
  function CorrectionPrompt(text: string, targetLanguage: string): (r: string)
    ensures OccursAt(r, targetLanguage, |PromptOpening|)
    ensures OccursAt(r, text, |PromptOpening| + |targetLanguage| + |PromptTextLabel|)
    ensures |r| >= |PromptFormat| && r[|r| - |PromptFormat|..] == PromptFormat
  {
    PromptOpening + targetLanguage + PromptTextLabel + text + PromptFormat
  }

  const PromptOpening: string := "Correct the following "

  const PromptTextLabel: string := " text and explain the mistakes:\n\nText: \""

  /** The request for the three parts and the reply format, which names the three markers of the parser. */
  const PromptFormat: string :=
    "\"\n\nProvide:\n1. The corrected text\n2. A list of specific corrections made\n"
    + "3. Brief explanation of why each correction was needed\n\nFormat your response as:\n"
    + "CORRECTED: <corrected text>\nCORRECTIONS:\n- <mistake 1>: <correction 1>\n- <mistake 2>: <correction 2>\n"
    + "EXPLANATION: <brief explanation>"

  /**
   * The messages `correct_text` sends: its own system prompt and the
   * correction prompt. A negative limit cuts the prompt away.
   */
  function CorrectionMessages(text: string, targetLanguage: string, maxHistory: int): (r: seq<Msg>)
    ensures maxHistory >= 0 ==>
              r == [Msg(System, CorrectionSystemPrompt), Msg(User, CorrectionPrompt(text, targetLanguage))]
    ensures maxHistory < 0 ==> r == [Msg(System, CorrectionSystemPrompt)]
  {
    Sent([Msg(System, CorrectionSystemPrompt)], CorrectionPrompt(text, targetLanguage), maxHistory)
  }

  class Phi3Service {
    const maxHistory: int
    var conversations: map<string, seq<Msg>>

    ghost predicate Valid()
      reads this
    {
      forall id :: id in conversations ==> WellFormed(conversations[id], maxHistory)
    }

    /** A service with no conversations (the reachability check of Ollama is not modelled). */
    constructor (maxHistory: int := DefaultMaxHistory)
      ensures this.maxHistory == maxHistory && conversations == map[]
      ensures Valid()
    {
      this.maxHistory := maxHistory;
      conversations := map[];
    }

    /** `create_conversation`: a new conversation under an unused id, opened by the system prompt. */
    method CreateConversation(systemPrompt: Option<string>) returns (id: string)
      requires Valid()
      modifies this
      ensures Valid()
      ensures id != [] && id !in old(conversations)
      ensures conversations == old(conversations)[id := [Msg(System, OpeningPrompt(systemPrompt))]]
    {
      FreshIdExists(conversations.Keys);
      id :| id != [] && id !in conversations;
      conversations := conversations[id := [Msg(System, OpeningPrompt(systemPrompt))]];
    }

    /** `get_conversation`: the history of a conversation, empty for an unknown id. */
    function GetConversation(id: string): (h: seq<Msg>)
      reads this
      ensures id !in conversations ==> h == []
      ensures id in conversations ==> h == conversations[id]
      ensures Valid() && id in conversations ==> h != [] && h[0].role == System
    {
      if id in conversations then conversations[id] else []
    }

    /**
     * `chat`: goes on with the named conversation, or opens a new one when
     * the id is missing, empty or unknown; appends the message, applies the
     * history limit and sends the history to Ollama. On success the
     * stripped reply is stored and returned with the conversation id; on
     * failure the error is passed on and the user message stays stored.
     */
    method Chat(message: string, conversationId: Option<string>, systemPrompt: Option<string>,
                ollama: seq<Msg> -> OllamaReply)
      returns (r: Result<ChatReply, ChatFailure>, ghost used: string)
      requires Valid()
      modifies this
      ensures Valid()
      ensures Resumes(conversationId, old(conversations)) ==> used == conversationId.value
      ensures !Resumes(conversationId, old(conversations)) ==> used != [] && used !in old(conversations)
      ensures var before := Continued(conversationId, systemPrompt, old(conversations));
              var reply := ollama(Sent(before, message, maxHistory));
              && conversations == old(conversations)[used := AfterTurn(before, message, maxHistory, reply)]
              && (reply.Failed? ==> r == Err(OllamaError))
              && (reply.Replied? ==> r == Ok(ChatReply(Strip(reply.content), used)))
    {
      var id := OpenOrResume(conversationId, systemPrompt);
      used := id;
      ghost var before := conversations[id];
      AddUserMessage(id, message);
      Overwrite(old(conversations), id, before, conversations[id]);
      var reply := ollama(conversations[id]);
      match reply {
        case Failed =>
          r := Err(OllamaError);
        case Replied(content) =>
          var assistantMessage := Strip(content);
          TurnKeepsWellFormed(before, message, maxHistory, reply);
          ghost var sent := conversations[id];
          conversations := conversations[id := conversations[id] + [Msg(Assistant, assistantMessage)]];
          Overwrite(old(conversations), id, sent, conversations[id]);
          r := Ok(ChatReply(assistantMessage, id));
      }
    }

    /** The conversation a chat turn goes on with: the named one, or a new one when the id is missing, empty or unknown. */
    method OpenOrResume(conversationId: Option<string>, systemPrompt: Option<string>) returns (id: string)
      requires Valid()
      modifies this
      ensures Valid()
      ensures conversations == old(conversations)[id := Continued(conversationId, systemPrompt, old(conversations))]
      ensures Resumes(conversationId, old(conversations)) ==> id == conversationId.value
      ensures !Resumes(conversationId, old(conversations)) ==> id != [] && id !in old(conversations)
    {
      if conversationId.None? || conversationId.value == [] || conversationId.value !in conversations {
        id := CreateConversation(systemPrompt);
      } else {
        id := conversationId.value;
      }
    }

    /** The first half of a chat turn: the user message appended and the history limit applied. */
    method AddUserMessage(id: string, message: string)
      requires Valid() && id in conversations
      modifies this
      ensures Valid()
      ensures conversations == old(conversations)[id := Sent(old(conversations)[id], message, maxHistory)]
    {
      ghost var before := conversations[id];
      conversations := conversations[id := conversations[id] + [Msg(User, message)]];
      if |conversations[id]| > maxHistory * 2 {
        var systemMsg := conversations[id][0];
        var recentMsgs := SliceFrom(conversations[id], -(maxHistory * 2 - 1));
        conversations := conversations[id := [systemMsg] + recentMsgs];
      }
      TurnKeepsWellFormed(before, message, maxHistory, Failed);
    }

    /**
     * `correct_text`: asks Ollama, in a conversation of its own, to correct
     * `text` in the reply format of the prompt, and reads the reply. The
     * temporary conversation is gone afterwards, on success and on failure.
     */
    method CorrectText(text: string, targetLanguage: string, provideExplanation: bool,
                       ollama: seq<Msg> -> OllamaReply)
      returns (r: Result<Correction, ChatFailure>)
      requires Valid()
      modifies this
      ensures Valid()
      ensures conversations == old(conversations)
      ensures var reply := ollama(CorrectionMessages(text, targetLanguage, maxHistory));
              && (reply.Failed? ==> r == Err(OllamaError))
              && (reply.Replied? ==> r == Ok(ParseReply(text, Strip(reply.content), provideExplanation)))
    {
      var prompt := CorrectionPrompt(text, targetLanguage);
      r := AskForCorrection(text, prompt, provideExplanation, ollama);
    }

    /** The body of `correct_text` once the prompt is built: the temporary conversation, the chat turn and the parsing. */
    method AskForCorrection(text: string, prompt: string, provideExplanation: bool,
                            ollama: seq<Msg> -> OllamaReply)
      returns (r: Result<Correction, ChatFailure>)
      requires Valid()
      modifies this
      ensures Valid()
      ensures conversations == old(conversations)
      ensures var reply := ollama(Sent([Msg(System, CorrectionSystemPrompt)], prompt, maxHistory));
              && (reply.Failed? ==> r == Err(OllamaError))
              && (reply.Replied? ==> r == Ok(ParseReply(text, Strip(reply.content), provideExplanation)))
    {
      var tempId := CreateConversation(Some(CorrectionSystemPrompt));
      ghost var withTemp := conversations;
      assert withTemp - {tempId} == old(conversations);
      assert Resumes(Some(tempId), withTemp);
      var outcome, _ := Chat(prompt, Some(tempId), None, ollama);
      assert tempId in conversations && conversations - {tempId} == withTemp - {tempId};
      match outcome {
        case Err(e) =>
          if tempId in conversations {
            conversations := conversations - {tempId};
          }
          r := Err(e);
        case Ok(answer) =>
          var parsed := ReadCorrection(text, answer.response, provideExplanation);
          conversations := conversations - {tempId};
          r := Ok(parsed);
      }
    }

    /** `clear_conversation`: forgets a conversation; an unknown id changes nothing. */
    method ClearConversation(id: string)
      requires Valid()
      modifies this
      ensures Valid()
      ensures conversations == old(conversations) - {id}
    {
      if id in conversations {
        conversations := conversations - {id};
      }
    }
  }

  /**
   * When Ollama answers in the requested format (non-empty explanation,
   * single-line fields, no markers inside), `correct_text` returns exactly
   * the corrected text, corrections and explanation of that answer.
   */
  lemma CorrectTextReadsFormattedReply(text: string, corrected: string, mistakes: seq<string>, explanation: string,
                                       provideExplanation: bool)
    requires Plain(corrected) && '\n' !in corrected
    requires forall k :: 0 <= k < |mistakes| ==> Plain(mistakes[k]) && '\n' !in mistakes[k] && mistakes[k] != []
    requires Plain(explanation) && explanation != []
    ensures ParseReply(text, Strip(FormatReply(corrected, mistakes, explanation)), provideExplanation)
            == Correction(text, corrected, mistakes, if provideExplanation then Some(explanation) else None)
  {
    var reply := FormatReply(corrected, mistakes, explanation);
    assert reply[0] == 'C';
    assert reply[|reply| - 1] == explanation[|explanation| - 1];
    StripTrimmed(reply);
    ParseFormatted(text, corrected, mistakes, explanation, provideExplanation);
  }
}
