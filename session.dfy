/**
 * The page's workflow state and its handlers. The version history is the shared `mockVersions` list
 * that a commit updates in place; the chat log is the `messages` state that handlers append to and map
 * over; `selectedVersion` is the version the Rules view shows. Each handler takes the outcomes of its
 * external calls, the ids it would draw from `Date.now()` and the time it would stamp as inputs, and
 * returns the request it sends to the agent, if any.
 */
module Session {
  import opened Wrappers
  import opened Text
  import opened Records
  import opened History
  import opened Conversation

  class HomePage {
    var versions: seq<Version>
    var messages: seq<Message>
    var selectedVersion: string

    /** The history keeps its ids in order and exactly one current version, and every pending
        approval sits on a message that displays its buttons. */
    ghost predicate Valid()
      reads this
    {
      HistoryValid(versions) && PendingsActionable(messages)
    }

    /** The page as it mounts: the demo history, "v3" selected, and the greeting in the log. */
    constructor (at: int)
      ensures Valid()
      ensures versions == MockVersions() && messages == [Welcome(at)] && selectedVersion == "v3"
    {
      versions := MockVersions();
      messages := [Welcome(at)];
      selectedVersion := "v3";
      MockVersionsValid();
    }

    /** `handleSendMessage`: a blank input is ignored; otherwise the input is sent as typed. */
    method SendMessage(input: string, userId: string, replyId: string, at: int, reply: Call<AgentResponse>)
      returns (request: Option<string>)
      requires Valid()
      modifies this`messages
      ensures Valid()
      ensures messages == AfterSend(old(messages), input, userId, replyId, at, reply)
      ensures request == if IsBlank(input) then None else Some(input)
    {
      TrimEmptyIffBlank(input);
      SendKeepsPendingsActionable(messages, input, userId, replyId, at, reply);
      if Trim(input) == "" {
        return None;
      }
      messages := messages + [UserMessage(userId, input, at)];
      request := Some(input);
      match reply {
        case Threw =>
          messages := messages + [Notice(replyId, ChatErrorText, at)];
        case Returned(resp) =>
          messages := messages + [Message(replyId, Assistant, ReplyText(resp), at, Some(resp), None)];
      }
    }

    /** `handleFileUpload`: upload the chosen file, then ask the agent to extract its rules only. */
    method UploadDocument(file: Option<string>, upload: Call<UploadResult>, extraction: Call<AgentResponse>,
                          userId: string, replyId: string, at: int)
      returns (request: Option<AgentRequest>)
      requires Valid()
      modifies this`messages
      ensures Valid()
      ensures messages == AfterUpload(old(messages), file, upload, extraction, userId, replyId, at)
      ensures request == UploadRequest(file, upload)
    {
      UploadKeepsPendingsActionable(messages, file, upload, extraction, userId, replyId, at);
      request := None;
      if file.Some? {
        var name := file.value;
        if upload.Threw? {
          messages := messages + [Notice(replyId, FileErrorText, at)];
        } else if upload.value.success {
          messages := messages + [UserMessage(userId, UploadNote(name), at)];
          request := Some(AgentRequest(ExtractionPrompt(name), upload.value.assetIds));
          if extraction.Threw? {
            messages := messages + [Notice(replyId, FileErrorText, at)];
          } else if extraction.value.status == "success" {
            messages := messages + [ExtractionReply(replyId, at, extraction.value, name)];
          }
        }
      }
      assert messages == AfterUpload(old(messages), file, upload, extraction, userId, replyId, at);
    }

    /** `handleApproveRules`: send the pending rules of the first message with that id for validation. */
    method ApproveRules(messageId: string, validation: Call<AgentResponse>, replyId: string, at: int)
      returns (request: Option<string>)
      requires Valid()
      modifies this`messages
      ensures Valid()
      ensures messages == AfterApprove(old(messages), messageId, validation, replyId, at)
      ensures request == ApproveRequest(old(messages), messageId)
    {
      ApproveKeepsPendingsActionable(messages, messageId, validation, replyId, at);
      var found := FindMessage(messages, messageId);
      if found.None? || messages[found.value].pendingApproval.None? {
        return None;
      }
      var pending := messages[found.value].pendingApproval.value;
      request := Some(ValidationPrompt(pending.rules));
      match validation {
        case Threw =>
        case Returned(resp) =>
          if resp.status == "success" {
            messages := messages + [ValidationReply(replyId, at, resp, pending)];
          }
      }
    }

    /** `handleAddToVersion`: archive every stored version in place, append the new current one, select
        it, clear the message's pending approval and confirm. Only the presence of a pending approval is
        checked, not the phase. */
    method AddToVersion(messageId: string, confirmId: string, uploadDate: string, at: int)
      requires Valid()
      modifies this
      ensures Valid()
      ensures versions == CommittedVersions(old(versions), old(messages), messageId, uploadDate)
      ensures messages == CommittedMessages(old(versions), old(messages), messageId, confirmId, at, uploadDate)
      ensures selectedVersion ==
        if PendingOf(old(messages), messageId).Some? then VersionId(|old(versions)| + 1) else old(selectedVersion)
    {
      var found := FindMessage(messages, messageId);
      if found.None? || messages[found.value].pendingApproval.None? {
        return;
      }
      var pending := messages[found.value].pendingApproval.value;
      var newVersion := NewVersion(|versions|, pending, uploadDate);
      CommitPreservesHistory(versions, pending, uploadDate);
      CommitKeepsPendingsActionable(versions, messages, messageId, confirmId, at, uploadDate);

      var i := 0;
      while i < |versions|
        invariant 0 <= i <= |versions| == |old(versions)|
        invariant forall j :: 0 <= j < i ==> versions[j] == old(versions)[j].(status := Archived)
        invariant forall j :: i <= j < |versions| ==> versions[j] == old(versions)[j]
        invariant messages == old(messages)
      {
        versions := versions[i := versions[i].(status := Archived)];
        i := i + 1;
      }
      versions := versions + [newVersion];
      assert versions == CommitVersions(old(versions), pending, uploadDate);
      selectedVersion := newVersion.id;

      messages := ClearPending(messages, messageId);
      messages := messages + [CommitConfirmation(confirmId, at, newVersion)];
    }

    /** `handleIgnoreRules`: clear the pending approval of every message with that id, unguarded, and
        confirm. The history is never touched. */
    method IgnoreRules(messageId: string, confirmId: string, at: int)
      requires Valid()
      modifies this`messages
      ensures Valid()
      ensures messages == AfterIgnore(old(messages), messageId, confirmId, at)
      ensures versions == old(versions) && selectedVersion == old(selectedVersion)
    {
      IgnoreKeepsPendingsActionable(messages, messageId, confirmId, at);
      messages := ClearPending(messages, messageId);
      messages := messages + [Notice(confirmId, IgnoredText, at)];
    }
  }
}
