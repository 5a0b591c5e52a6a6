/**
 The transitions of the chat page: the initial session, the "New
 Conversation" button, and one chat turn (the prompt, the completion, the
 rendering of the answer and the automatic save).

 The completion service is not modelled: its answer is an input, either the
 text of the reply or a failure.
 */
module Chat {
  import opened Optional
  import opened Segmenter
  import opened Renderer
  import opened Conversations

  const SystemPrompt := "You are Grok, a chatbot inspired by the Hitchhikers Guide to the Galaxy. When showing code examples, use markdown code blocks with language specification. For mathematical expressions, use LaTeX notation enclosed in single $ symbols."

  /** The session of a fresh browser tab: the system message alone, empty maps, no id. */
  function InitialSession(): (s: Session)
    ensures |s.messages| == 1 && s.messages[0] == Message(System, SystemPrompt)
    ensures s.codeBlocks == map[] && s.latexBlocks == map[] && s.conversationId.None?
  {
    Session([Message(System, SystemPrompt)], map[], map[], None)
  }

  /**
   "New Conversation": keep only the first message, empty both maps and drop
   the id. An empty transcript (possible after loading a file that holds
   one) has no first message and the reset fails.
   */
  function NewConversation(s: Session): (r: Option<Session>)
    ensures r.None? <==> s.messages == []
    ensures r.Some? ==> r.value.messages == [s.messages[0]]
    ensures r.Some? ==> r.value.codeBlocks == map[] && r.value.latexBlocks == map[]
    ensures r.Some? ==> r.value.conversationId.None?
  {
    if s.messages == [] then None
    else Some(Session([s.messages[0]], map[], map[], None))
  }

  /** After a reset nothing is saved until the conversation has a second message. */
  lemma SaveAfterNewConversation(s: Session, now: string, store: Store)
    requires s.messages != []
    ensures var reset := NewConversation(s).value;
            Save(reset, now, store) == Saved(reset, store, Skipped)
  {
  }

  /** The answer of the completion service. */
  datatype Completion = Success(text: string) | Failure

  /** How a turn ended. */
  datatype TurnOutcome =
    | NoPrompt                      // the input was empty: nothing happens
    | CompletionFailed              // the service raised: the error is shown
    | RenderFailed(key: string)     // rendering the answer looked up a missing key
    | Answered(saved: SaveOutcome)  // the answer was shown, recorded and saved

  /**
   The state after a turn: the session, the directory, the next unused marker
   number, the instructions displayed and how the turn ended.
   */
  datatype Turn = Turn(session: Session, store: Store, next: nat, shown: seq<Instruction>, outcome: TurnOutcome)

  /**
   A turn whose prompt got an answer: the prompt is recorded as a user
   message, the answer is segmented (which records its fragments in the
   session maps) and rendered after the prompt; if rendering succeeds the raw
   answer is appended as an assistant message and the conversation saved.
   */
  function Reply(s: Session, prompt: string, text: string, now: string, store: Store, next: nat): (r: Turn)
    ensures var p := ProcessContent(text, s.codeBlocks, s.latexBlocks, next);
            var rendered := Render(p.text, p.codeBlocks, p.latexBlocks);
            && r.session.codeBlocks == p.codeBlocks && r.session.latexBlocks == p.latexBlocks
            && r.next == p.next
            && r.shown == [ShowMarkdown(prompt)] + rendered.shown
            && (r.outcome.Answered? <==> rendered.missing.None?)
            && (rendered.missing.Some? ==> r.outcome == RenderFailed(rendered.missing.value))
    ensures next <= r.next
    ensures !r.outcome.Answered? ==>
              && r.outcome.RenderFailed?
              && r.session.messages == s.messages + [Message(User, prompt)]
              && r.session.conversationId == s.conversationId
              && r.store == store
    ensures r.outcome.Answered? ==>
              && r.session.messages == s.messages + [Message(User, prompt), Message(Assistant, text)]
              && r.session.conversationId.Some?
              && (s.conversationId.Some? ==> r.session.conversationId == s.conversationId)
              && (s.conversationId.None? ==> r.session.conversationId == Some(now))
              && Recorded(store, r)
  {
    var asked := s.(messages := s.messages + [Message(User, prompt)]);
    var p := ProcessContent(text, asked.codeBlocks, asked.latexBlocks, next);
    var segmented := asked.(codeBlocks := p.codeBlocks, latexBlocks := p.latexBlocks);
    var rendered := Render(p.text, segmented.codeBlocks, segmented.latexBlocks);
    var shown := [ShowMarkdown(prompt)] + rendered.shown;
    if rendered.missing.Some? then
      Turn(segmented, store, p.next, shown, RenderFailed(rendered.missing.value))
    else
      Conclude(s, prompt, text, p.codeBlocks, p.latexBlocks, now, store, p.next, shown)
  }

  /**
   What an answered turn leaves in the directory: without one nothing is
   written and the save fails; with one the file named after the session's id
   holds the session's record, and every other file is kept.
   */
  predicate Recorded(store: Store, r: Turn)
    requires r.session.conversationId.Some?
  {
    var id := r.session.conversationId.value;
    && (store.NoDirectory? ==> r.store == store && r.outcome == Answered(WriteFailed))
    && (store.Directory? ==>
          && r.outcome == Answered(Written(FilePath(FileName(id))))
          && WroteFile(store, r.store, FileName(id), RecordOf(r.session, id)))
  }

  /**
   The end of an answered turn: the question and the answer are appended to
   the transcript, next to the updated maps, and the conversation is saved.
   */
  function Conclude(
    s: Session,
    prompt: string,
    text: string,
    codeBlocks: map<string, CodeBlock>,
    latexBlocks: map<string, string>,
    now: string,
    store: Store,
    next: nat,
    shown: seq<Instruction>)
    : (r: Turn)
    ensures r.outcome.Answered? && r.next == next && r.shown == shown
    ensures r.session.messages == s.messages + [Message(User, prompt), Message(Assistant, text)]
    ensures r.session.codeBlocks == codeBlocks && r.session.latexBlocks == latexBlocks
    ensures r.session.conversationId.Some?
    ensures s.conversationId.Some? ==> r.session.conversationId == s.conversationId
    ensures s.conversationId.None? ==> r.session.conversationId == Some(now)
    ensures Recorded(store, r)
  {
    var answered := Session(s.messages + [Message(User, prompt), Message(Assistant, text)], codeBlocks, latexBlocks, s.conversationId);
    var saved := Save(answered, now, store);
    Turn(saved.session, saved.store, next, shown, Answered(saved.outcome))
  }

  /**
   One chat turn. A non-empty prompt is appended as a user message and shown,
   then answered. A failed completion or a failed rendering leaves the user
   message in place and saves nothing.
   */
  function ChatTurn(s: Session, prompt: string, completion: Completion, now: string, store: Store, next: nat): (r: Turn)
    ensures prompt == [] ==> r == Turn(s, store, next, [], NoPrompt)
    ensures prompt != [] ==> |r.shown| >= 1 && r.shown[0] == ShowMarkdown(prompt)
    ensures prompt != [] && !r.outcome.Answered? ==>
              && r.session.messages == s.messages + [Message(User, prompt)]
              && r.session.conversationId == s.conversationId
              && r.store == store
    ensures prompt != [] && completion.Failure? ==>
              r == Turn(s.(messages := s.messages + [Message(User, prompt)]), store, next, [ShowMarkdown(prompt)], CompletionFailed)
    ensures prompt != [] && completion.Success? ==>
              var p := ProcessContent(completion.text, s.codeBlocks, s.latexBlocks, next);
              var rendered := Render(p.text, p.codeBlocks, p.latexBlocks);
              && r.session.codeBlocks == p.codeBlocks && r.session.latexBlocks == p.latexBlocks
              && r.next == p.next
              && r.shown == [ShowMarkdown(prompt)] + rendered.shown
              && (r.outcome.Answered? <==> rendered.missing.None?)
              && (rendered.missing.Some? ==> r.outcome == RenderFailed(rendered.missing.value))
    ensures r.outcome.Answered? ==>
              && completion.Success?
              && r.session.messages == s.messages + [Message(User, prompt), Message(Assistant, completion.text)]
              && r.session.conversationId.Some?
              && (s.conversationId.Some? ==> r.session.conversationId == s.conversationId)
              && (s.conversationId.None? ==> r.session.conversationId == Some(now))
              && Recorded(store, r)
    ensures next <= r.next
  {
    if prompt == [] then Turn(s, store, next, [], NoPrompt)
    else
      match completion
      case Failure => Turn(s.(messages := s.messages + [Message(User, prompt)]), store, next, [ShowMarkdown(prompt)], CompletionFailed)
      case Success(text) => Reply(s, prompt, text, now, store, next)
  }

  /**
   An answered turn always saves: the file of the session's conversation
   then holds the whole transcript, including the new question and answer.
   */
  lemma AnsweredTurnIsSaved(s: Session, prompt: string, completion: Completion, now: string, store: Store, next: nat)
    requires store.Directory?
    requires ChatTurn(s, prompt, completion, now, store, next).outcome.Answered?
    ensures var r := ChatTurn(s, prompt, completion, now, store, next);
            var id := r.session.conversationId.value;
            && r.outcome == Answered(Written(FilePath(FileName(id))))
            && FileName(id) in r.store.files
            && r.store.files[FileName(id)].messages == Some(r.session.messages)
            && Load(s, r.store, FileName(id)) == Loaded(r.session, None)
  {
    var text := completion.text;
    var asked := s.(messages := s.messages + [Message(User, prompt)]);
    var p := ProcessContent(text, asked.codeBlocks, asked.latexBlocks, next);
    var answered := Session(s.messages + [Message(User, prompt), Message(Assistant, text)], p.codeBlocks, p.latexBlocks, s.conversationId);
    var saved := Save(answered, now, store);
    assert ChatTurn(s, prompt, completion, now, store, next).session == saved.session;
    assert ChatTurn(s, prompt, completion, now, store, next).store == saved.store;
    LoadAfterSave(answered, now, store, s);
  }

  /**
   The first answered turn of a fresh tab opens a new conversation: its id is
   the clock's value, and its file holds the system message, the question and
   the answer, titled by the first 30 characters of the question.
   */
  lemma {:induction false} FirstTurnRecord(
    prompt: string,
    text: string,
    codeBlocks: map<string, CodeBlock>,
    latexBlocks: map<string, string>,
    now: string,
    store: Store,
    next: nat,
    shown: seq<Instruction>)
    requires store.Directory?
    ensures var r := Conclude(InitialSession(), prompt, text, codeBlocks, latexBlocks, now, store, next, shown);
            var record := r.store.files[FileName(now)];
            && r.session.conversationId == Some(now)
            && FileName(now) in r.store.files
            && record.messages == Some([Message(System, SystemPrompt), Message(User, prompt), Message(Assistant, text)])
            && record.timestamp == Some(now)
            && record.title == Some(Take(prompt, TitleLength) + Ellipsis)
  {
    var r := Conclude(InitialSession(), prompt, text, codeBlocks, latexBlocks, now, store, next, shown);
    var messages := [Message(System, SystemPrompt), Message(User, prompt), Message(Assistant, text)];
    assert r.session.messages == messages;
    assert r.session.conversationId == Some(now);
    assert r.store.files[FileName(now)] == RecordOf(r.session, now);
    var t := Title(messages, now);
    assert messages[1].role == User && messages[0].role != User;
    assert Text.EndsWith(t, Ellipsis) && t[..|t| - |Ellipsis|] == Take(prompt, TitleLength);
    assert t == t[..|t| - |Ellipsis|] + t[|t| - |Ellipsis|..];
  }

  /** A turn never rewrites history: the transcript before the turn is a prefix of the one after. */
  lemma ChatTurnKeepsHistory(s: Session, prompt: string, completion: Completion, now: string, store: Store, next: nat)
    ensures var r := ChatTurn(s, prompt, completion, now, store, next);
            && |s.messages| <= |r.session.messages|
            && r.session.messages[..|s.messages|] == s.messages
  {
  }
}
