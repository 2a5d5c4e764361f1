/** Message assembly: the drop rules and the model-name fallback chain that
    turn a raw export message into an output message record. */
module Assembler {
  import opened ExportTypes
  import opened ContentNormalizer

  const FallbackModel: string := "gpt-3.5-turbo"
  const DoneStatus: string := "done"

  /** A JavaScript-truthy optional string: present and not empty. */
  predicate Truthy(o: Option<string>) {
    o.Some? && o.value != ""
  }

  /** `getModelFromMessage`: no model for user messages; otherwise the first
      truthy of `model_slug` and `default_model_slug`, else the fallback. */
  function ModelOf(msg: Message): (r: Option<string>)
    ensures r.None? <==> msg.role == "user"
    ensures r.Some? ==> r.value != ""
    ensures r.Some? && Truthy(msg.modelSlug) ==> r == msg.modelSlug
    ensures r.Some? && !Truthy(msg.modelSlug) && Truthy(msg.defaultModelSlug) ==> r == msg.defaultModelSlug
    ensures r.Some? && !Truthy(msg.modelSlug) && !Truthy(msg.defaultModelSlug) ==> r == Some(FallbackModel)
  {
    if msg.role == "user" then None
    else if Truthy(msg.modelSlug) then msg.modelSlug
    else if Truthy(msg.defaultModelSlug) then msg.defaultModelSlug
    else Some(FallbackModel)
  }

  /** The characters `String.prototype.trim` removes: JavaScript WhiteSpace
      (tab, vertical tab, form feed, space, no-break space, byte order mark
      and the other space separators) and LineTerminator. */
  predicate IsJsWhitespace(c: char) {
    || c == '\t' || c == '\U{B}' || c == '\U{C}' || c == ' ' || c == '\U{A0}' || c == '\U{FEFF}'
    || c == '\U{1680}' || ('\U{2000}' <= c <= '\U{200A}') || c == '\U{202F}' || c == '\U{205F}'
    || c == '\U{3000}'
    || c == '\n' || c == '\r' || c == '\U{2028}' || c == '\U{2029}'
  }

  /** `!s.trim()`: nothing is left once leading and trailing whitespace goes. */
  predicate Blank(s: string) {
    forall i :: 0 <= i < |s| ==> IsJsWhitespace(s[i])
  }

  /** `s.trimStart()`: drop the leading whitespace. `s.trim()` is empty
      exactly when this is, since trimming the end afterwards only removes
      characters from a string that starts with a non-whitespace one. */
  function TrimStart(s: string): (r: string)
    ensures |r| <= |s| && r == s[|s| - |r|..]
    ensures r != [] ==> !IsJsWhitespace(r[0])
    ensures forall i :: 0 <= i < |s| - |r| ==> IsJsWhitespace(s[i])
  {
    if s == [] then []
    else if IsJsWhitespace(s[0]) then TrimStart(s[1..])
    else s
  }

  /** `!s.trim()` holds exactly when every character is whitespace. */
  lemma {:induction false} BlankIffTrimmedEmpty(s: string)
    ensures Blank(s) <==> TrimStart(s) == ""
  {
    if s != [] {
      BlankIffTrimmedEmpty(s[1..]);
      assert Blank(s) <==> IsJsWhitespace(s[0]) && Blank(s[1..]) by {
        forall i | 0 < i < |s| ensures s[i] == s[1..][i - 1] { }
      }
    }
  }

  /** The message-level content type, when the content is an object that has one. */
  predicate HasExcludedContentType(c: Content) {
    c.ObjContent? && c.contentType.Some? && IsExcludedType(c.contentType.value)
  }

  /** The kinds of message `createMessage` drops before looking at the text:
      tool output, assistant messages addressed to the browser, and excluded
      media. */
  predicate DroppedKind(msg: Message) {
    || msg.role == "tool"
    || (msg.recipient == Some("web") && msg.role == "assistant")
    || HasExcludedContentType(msg.content)
  }

  /** `createMessage(message, threadId)` */
  function CreateMessage(msg: Message, threadId: string): (r: Option<OutMessage>)
    ensures r.None? <==> DroppedKind(msg) || Blank(ProcessContent(msg.content))
    ensures r.Some? ==>
      && r.value.threadId == threadId
      && r.value.role == msg.role
      && r.value.id == msg.id
      && r.value.status == DoneStatus
      && r.value.content == ProcessContent(msg.content)
      && r.value.model == ModelOf(msg)
      && r.value.createdAt == TimeOrZero(msg.createTime)
    ensures r.Some? ==> r.value.content != "" && NoSentinel(r.value.content)
    ensures r.Some? ==> (r.value.model.None? <==> r.value.role == "user")
  {
    if DroppedKind(msg) then None
    else
      var content := ProcessContent(msg.content);
      if Blank(content) then None
      else Some(OutMessage(threadId, msg.role, content, DoneStatus, ModelOf(msg), msg.id,
                           TimeOrZero(msg.createTime)))
  }

  /** A message whose text is only whitespace and sentinel glyphs is dropped. */
  lemma {:induction false} BlankAfterCleaningDropped(msg: Message, threadId: string, s: string)
    requires msg.content == StrContent(s)
    requires forall i :: 0 <= i < |s| ==> IsSentinel(s[i]) || IsJsWhitespace(s[i])
    ensures CreateMessage(msg, threadId).None?
  {
    CleanOnlyWhitespace(s);
  }

  lemma {:induction false} CleanOnlyWhitespace(s: string)
    requires forall i :: 0 <= i < |s| ==> IsSentinel(s[i]) || IsJsWhitespace(s[i])
    ensures Blank(Clean(s))
  {
    if s != [] {
      assert forall i :: 0 <= i < |s[1..]| ==> s[1..][i] == s[i + 1];
      CleanOnlyWhitespace(s[1..]);
    }
  }

  /** A message whose content type is an excluded media type is dropped even
      when that type is `audio_transcription`, unlike a part of that type. */
  lemma TranscriptionMessageDropped(msg: Message, threadId: string)
    requires msg.content.ObjContent? && msg.content.contentType == Some(AudioTranscription)
    ensures CreateMessage(msg, threadId).None?
  {
    AudioTranscriptionPrecedes("", "");
  }
}
