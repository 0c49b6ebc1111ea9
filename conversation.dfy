/**
 * The chat log and its review workflow, as values: which button group a message shows (inferred from
 * the shape of its agent response), and what each of the page's handlers does to the log (and, for a
 * commit, to the version history) for every possible outcome of the external calls.
 */
module Conversation {
  import opened Wrappers
  import opened Text
  import opened Lists
  import opened Records
  import opened History

  const WelcomeText := "Welcome to the GSAM Compliance Assistant. I can help you extract rules from investment guidelines, check portfolio compliance, and answer questions about regulations. How can I assist you today?"
  const DefaultReplyText := "Response received"
  const ChatErrorText := "Sorry, I encountered an error processing your request. Please try again."
  const FileErrorText := "Error processing file. Please try again."
  const ValidationDoneText := "Portfolio validation complete. Review the compliance results below."
  const IgnoredText := "Rules extraction ignored. The document was not added to version control."

  /** The greeting the page starts its log with. */
  function Welcome(at: int): Message {
    Message("0", Assistant, WelcomeText, at, None, None)
  }

  /** A message typed or triggered by the user. */
  function UserMessage(id: string, content: string, at: int): Message {
    Message(id, User, content, at, None, None)
  }

  /** An assistant message with text only. */
  function Notice(id: string, content: string, at: int): Message {
    Message(id, Assistant, content, at, None, None)
  }

  // ---------------------------------------------------------------------------
  // Phase, as the page infers it
  // ---------------------------------------------------------------------------

  /** JavaScript truthiness of an optional score: missing, the number zero and the empty string are
      false, every other score is true. */
  function Truthy(score: Option<ScoreField>): (b: bool)
    ensures b <==> score.Some? && score.value != Numeric(0) && score.value != Textual("")
  {
    match score
    case None => false
    case Some(Numeric(n)) => n != 0
    case Some(Textual(s)) => s != ""
  }

  /** The response carries an `overall_compliance_score`, flat or under `aggregated_analysis`: a
      truthy score in either place counts, and without a result there is none. */
  function HasScore(resp: AgentResponse): (b: bool)
    ensures resp.result.None? ==> !b
    ensures resp.result.Some? && Truthy(resp.result.value.overallScore) ==> b
    ensures resp.result.Some? && resp.result.value.aggregated.Some? && Truthy(resp.result.value.aggregated.value.overallScore) ==> b
    ensures b ==> Truthy(resp.result.value.overallScore)
                  || (resp.result.value.aggregated.Some? && Truthy(resp.result.value.aggregated.value.overallScore))
  {
    match resp.result
    case None => false
    case Some(res) =>
      Truthy(res.overallScore) || (res.aggregated.Some? && Truthy(res.aggregated.value.overallScore))
  }

  /** Which button group a message shows: none, "Approve & Validate / Ignore", or "Add to Current Version / Ignore". */
  datatype Phase = NoDecision | AwaitingValidation | AwaitingCommit

  /** The rich display needs an assistant message with a successful response; the approval groups
      then need a pending approval, and the score decides which of the two is shown. */
  function PhaseOf(m: Message): (p: Phase)
    ensures p != NoDecision <==>
      m.role == Assistant && m.agentResponse.Some? && m.agentResponse.value.status == "success"
      && m.pendingApproval.Some?
    ensures p == AwaitingCommit <==> p != NoDecision && HasScore(m.agentResponse.value)
  {
    if m.role == Assistant && m.agentResponse.Some? && m.agentResponse.value.status == "success"
       && m.pendingApproval.Some?
    then (if HasScore(m.agentResponse.value) then AwaitingCommit else AwaitingValidation)
    else NoDecision
  }

  /** A message's pending approval, if any, is displayed with one of the two button groups. */
  predicate Actionable(m: Message) {
    m.pendingApproval.Some? ==> PhaseOf(m) != NoDecision
  }

  /** Every pending approval in the log sits where its buttons are displayed. */
  ghost predicate PendingsActionable(msgs: seq<Message>)
    decreases |msgs|
  {
    msgs == [] || (PendingsActionable(msgs[..|msgs| - 1]) && Actionable(msgs[|msgs| - 1]))
  }

  /** Under that invariant a message shows an approval group exactly when it holds a pending approval. */
  lemma {:induction false} PendingIffButtons(msgs: seq<Message>, i: nat)
    requires PendingsActionable(msgs) && i < |msgs|
    ensures msgs[i].pendingApproval.Some? <==> PhaseOf(msgs[i]) != NoDecision
    decreases |msgs|
  {
    if i < |msgs| - 1 {
      PendingIffButtons(msgs[..|msgs| - 1], i);
    }
  }

  /** Appending keeps the invariant exactly when the new message is actionable. */
  lemma AppendKeepsActionable(msgs: seq<Message>, m: Message)
    ensures PendingsActionable(msgs + [m]) <==> PendingsActionable(msgs) && Actionable(m)
  {
    assert (msgs + [m])[..|msgs|] == msgs;
  }

  /** Appending two messages without pending approvals keeps the invariant. */
  lemma AppendPairKeepsActionable(msgs: seq<Message>, a: Message, b: Message)
    requires PendingsActionable(msgs) && a.pendingApproval.None? && b.pendingApproval.None?
    ensures PendingsActionable(msgs + [a, b])
  {
    AppendKeepsActionable(msgs, a);
    assert msgs + [a, b] == (msgs + [a]) + [b];
    AppendKeepsActionable(msgs + [a], b);
  }

  /** Clearing pending approvals keeps the invariant. */
  lemma {:induction false} ClearPendingKeepsActionable(msgs: seq<Message>, id: string)
    requires PendingsActionable(msgs)
    ensures PendingsActionable(ClearPending(msgs, id))
    decreases |msgs|
  {
    if msgs != [] {
      var front := msgs[..|msgs| - 1];
      assert ClearPending(msgs, id)[..|msgs| - 1] == ClearPending(front, id);
      ClearPendingKeepsActionable(front, id);
    }
  }

  // ---------------------------------------------------------------------------
  // Free-form query (`handleSendMessage`)
  // ---------------------------------------------------------------------------

  /** The text of a chat reply: the agent's message, or a fixed fallback when it sent none or an
      empty one. */
  function ReplyText(resp: AgentResponse): (t: string)
    ensures resp.message.Some? && resp.message.value != "" ==> t == resp.message.value
    ensures resp.message.None? || resp.message == Some("") ==> t == DefaultReplyText
    ensures t != ""
  {
    match resp.message
    case Some(text) => if text != "" then text else DefaultReplyText
    case None => DefaultReplyText
  }

  /** The log after sending `input`: nothing for a blank input; otherwise the user's message and then
      the reply (whatever its status) or an error notice. */
  function AfterSend(msgs: seq<Message>, input: string, userId: string, replyId: string, at: int,
                     reply: Call<AgentResponse>): (r: seq<Message>)
    ensures |r| == |msgs| + (if Trim(input) == "" then 0 else 2)
    ensures r[..|msgs|] == msgs
  {
    if Trim(input) == "" then msgs
    else
      var answer := match reply
        case Threw => Notice(replyId, ChatErrorText, at)
        case Returned(resp) => Message(replyId, Assistant, ReplyText(resp), at, Some(resp), None);
      var r := msgs + [UserMessage(userId, input, at), answer];
      assert r[..|msgs|] == msgs;
      r
  }

  /** A blank input changes nothing; any other input appends the user's message and exactly one
      assistant reply. */
  lemma SendEffects(msgs: seq<Message>, input: string, userId: string, replyId: string, at: int,
                    reply: Call<AgentResponse>)
    ensures var r := AfterSend(msgs, input, userId, replyId, at, reply);
      && (IsBlank(input) ==> r == msgs)
      && (!IsBlank(input) ==>
            && |r| == |msgs| + 2 && r[..|msgs|] == msgs
            && r[|msgs|] == UserMessage(userId, input, at)
            && r[|msgs| + 1].id == replyId && r[|msgs| + 1].role == Assistant)
  {
    TrimEmptyIffBlank(input);
  }

  /** The reply to a non-blank input never carries a pending approval. It keeps the response whatever
      its status and reads as the agent's text, or "Response received" when the agent sent none; a
      call that throws gives the error notice instead. */
  lemma SendReplyEffects(msgs: seq<Message>, input: string, userId: string, replyId: string, at: int,
                         reply: Call<AgentResponse>)
    requires !IsBlank(input)
    ensures var r := AfterSend(msgs, input, userId, replyId, at, reply);
      && |r| == |msgs| + 2
      && r[|msgs| + 1].pendingApproval.None?
      && (reply.Returned? ==> r[|msgs| + 1].agentResponse == Some(reply.value))
      && (reply.Returned? && reply.value.message.Some? && reply.value.message.value != "" ==>
            r[|msgs| + 1].content == reply.value.message.value)
      && (reply.Returned? && (reply.value.message.None? || reply.value.message == Some("")) ==>
            r[|msgs| + 1].content == DefaultReplyText)
      && (reply.Threw? ==> r[|msgs| + 1] == Notice(replyId, ChatErrorText, at))
  {
    TrimEmptyIffBlank(input);
  }

  /** Sending never leaves a pending approval where its buttons are hidden. */
  lemma SendKeepsPendingsActionable(msgs: seq<Message>, input: string, userId: string, replyId: string, at: int,
                                    reply: Call<AgentResponse>)
    requires PendingsActionable(msgs)
    ensures PendingsActionable(AfterSend(msgs, input, userId, replyId, at, reply))
  {
    if Trim(input) != "" {
      var answer := match reply
        case Threw => Notice(replyId, ChatErrorText, at)
        case Returned(resp) => Message(replyId, Assistant, ReplyText(resp), at, Some(resp), None);
      assert AfterSend(msgs, input, userId, replyId, at, reply) == msgs + [UserMessage(userId, input, at), answer];
      AppendPairKeepsActionable(msgs, UserMessage(userId, input, at), answer);
    }
  }

  // ---------------------------------------------------------------------------
  // Document extraction (`handleFileUpload`)
  // ---------------------------------------------------------------------------

  /** The rules an extraction returned: the flat rule list when present, else the aggregated rules
      table, else none. Any rules found come from one of those two fields. */
  function ExtractedRules(resp: AgentResponse): (r: seq<Rule>)
    ensures r != [] ==>
      && resp.result.Some?
      && (|| resp.result.value.extractedRules == Some(r)
          || (resp.result.value.aggregated.Some? && resp.result.value.aggregated.value.rulesTable == Some(r)))
  {
    match resp.result
    case None => []
    case Some(res) =>
      if res.extractedRules.Some? then res.extractedRules.value
      else if res.aggregated.Some? && res.aggregated.value.rulesTable.Some? then res.aggregated.value.rulesTable.value
      else []
  }

  /** A present `extracted_rules` wins even when empty (an empty array is truthy); otherwise the
      aggregated rules table is used; otherwise there are no rules. */
  lemma ExtractedRulesPrecedence(resp: AgentResponse)
    ensures resp.result.Some? && resp.result.value.extractedRules.Some? ==>
              ExtractedRules(resp) == resp.result.value.extractedRules.value
    ensures resp.result.Some? && resp.result.value.extractedRules.None? && resp.result.value.aggregated.Some?
            && resp.result.value.aggregated.value.rulesTable.Some? ==>
              ExtractedRules(resp) == resp.result.value.aggregated.value.rulesTable.value
    ensures (resp.result.None? || (resp.result.value.extractedRules.None?
             && (resp.result.value.aggregated.None? || resp.result.value.aggregated.value.rulesTable.None?))) ==>
              ExtractedRules(resp) == []
  {
  }

  const ExtractionRequestText := "Extract all compliance rules from the uploaded investment guidelines document: "
  const ExtractionOnlyText := ". Only extract rules with confidence scores and source traceability. Do not validate against portfolio yet."

  /** The extraction-only prompt sent for an uploaded file. */
  function ExtractionPrompt(filename: string): string {
    ExtractionRequestText + filename + ExtractionOnlyText
  }

  /** The user's message recording an upload. */
  function UploadNote(filename: string): string {
    "Uploaded file: " + filename
  }

  /** The text of the reply that opens a review. */
  function ExtractionSummary(count: nat, filename: string): string {
    "I've extracted " + NatToString(count) + " compliance rules from " + filename + ". Please review the rules below."
  }

  /** The reply that opens a review: the response and a pending approval over the extracted rules. */
  function ExtractionReply(id: string, at: int, resp: AgentResponse, filename: string): (r: Message)
    ensures r.id == id && r.role == Assistant && r.agentResponse == Some(resp)
    ensures r.pendingApproval == Some(Pending(ExtractedRules(resp), filename))
    ensures resp.status == "success" ==>
      Actionable(r) && PhaseOf(r) == (if HasScore(resp) then AwaitingCommit else AwaitingValidation)
  {
    var rules := ExtractedRules(resp);
    Message(id, Assistant,
      ExtractionSummary(|rules|, filename),
      at, Some(resp), Some(Pending(rules, filename)))
  }

  /** The agent request an upload issues, if it gets that far. */
  function UploadRequest(file: Option<string>, upload: Call<UploadResult>): Option<AgentRequest> {
    if file.Some? && upload.Returned? && upload.value.success
    then Some(AgentRequest(ExtractionPrompt(file.value), upload.value.assetIds))
    else None
  }

  /** The log after an upload of `file` (missing when no file was chosen). */
  function AfterUpload(msgs: seq<Message>, file: Option<string>, upload: Call<UploadResult>,
                       extraction: Call<AgentResponse>, userId: string, replyId: string, at: int): (r: seq<Message>)
    ensures |msgs| <= |r| <= |msgs| + 2
    ensures r[..|msgs|] == msgs
  {
    match file
    case None => msgs
    case Some(name) =>
      match upload
      case Threw => msgs + [Notice(replyId, FileErrorText, at)]
      case Returned(u) =>
        if !u.success then msgs
        else
          var withUser := msgs + [UserMessage(userId, UploadNote(name), at)];
          var r := match extraction
            case Threw => withUser + [Notice(replyId, FileErrorText, at)]
            case Returned(resp) =>
              if resp.status == "success" then withUser + [ExtractionReply(replyId, at, resp, name)] else withUser;
          assert r[..|msgs|] == msgs;
          r
  }

  /** Nothing happens without a file or after a refused upload, and an upload that throws appends one
      error notice and nothing else; in none of these cases is the agent called. */
  lemma UploadFailsEarly(msgs: seq<Message>, file: Option<string>, upload: Call<UploadResult>,
                         extraction: Call<AgentResponse>, userId: string, replyId: string, at: int)
    requires UploadRequest(file, upload).None?
    ensures var r := AfterUpload(msgs, file, upload, extraction, userId, replyId, at);
      && (file.Some? && upload.Threw? ==> r == msgs + [Notice(replyId, FileErrorText, at)])
      && (!(file.Some? && upload.Threw?) ==> r == msgs)
  {
  }

  /** A completed upload appends the user's message first; then one error notice if extraction threw,
      and nothing more on a non-success status. */
  lemma UploadWithoutExtraction(msgs: seq<Message>, file: Option<string>, upload: Call<UploadResult>,
                                extraction: Call<AgentResponse>, userId: string, replyId: string, at: int)
    requires UploadRequest(file, upload).Some?
    requires extraction.Threw? || extraction.value.status != "success"
    ensures var r := AfterUpload(msgs, file, upload, extraction, userId, replyId, at);
      && r[..|msgs| + 1] == msgs + [UserMessage(userId, UploadNote(file.value), at)]
      && (extraction.Threw? ==> r == msgs + [UserMessage(userId, UploadNote(file.value), at), Notice(replyId, FileErrorText, at)])
      && (extraction.Returned? ==> |r| == |msgs| + 1)
  {
  }

  /** A successful extraction appends the user's message and one reply whose pending approval carries
      the selected rules and the filename, even when there are zero rules; the reply shows the approval
      group unless the response already carries a score. */
  lemma UploadOpensApproval(msgs: seq<Message>, name: string, upload: UploadResult, resp: AgentResponse,
                            userId: string, replyId: string, at: int)
    requires upload.success && resp.status == "success"
    ensures var r := AfterUpload(msgs, Some(name), Returned(upload), Returned(resp), userId, replyId, at);
      && |r| == |msgs| + 2 && r[..|msgs|] == msgs
      && r[|msgs|] == UserMessage(userId, UploadNote(name), at)
      && r[|msgs| + 1].pendingApproval == Some(Pending(ExtractedRules(resp), name))
      && PhaseOf(r[|msgs| + 1]) == (if HasScore(resp) then AwaitingCommit else AwaitingValidation)
  {
    var r := AfterUpload(msgs, Some(name), Returned(upload), Returned(resp), userId, replyId, at);
    var reply := ExtractionReply(replyId, at, resp, name);
    assert r == msgs + [UserMessage(userId, UploadNote(name), at), reply];
    assert PhaseOf(reply) == (if HasScore(resp) then AwaitingCommit else AwaitingValidation);
    assert r[..|msgs|] == msgs;
  }

  /** No upload outcome leaves a pending approval where its buttons are hidden. */
  lemma UploadKeepsPendingsActionable(msgs: seq<Message>, file: Option<string>, upload: Call<UploadResult>,
                                      extraction: Call<AgentResponse>, userId: string, replyId: string, at: int)
    requires PendingsActionable(msgs)
    ensures PendingsActionable(AfterUpload(msgs, file, upload, extraction, userId, replyId, at))
  {
    var r := AfterUpload(msgs, file, upload, extraction, userId, replyId, at);
    if file.Some? && upload.Threw? {
      AppendKeepsActionable(msgs, Notice(replyId, FileErrorText, at));
    } else if file.Some? && upload.value.success {
      var withUser := msgs + [UserMessage(userId, UploadNote(file.value), at)];
      AppendKeepsActionable(msgs, UserMessage(userId, UploadNote(file.value), at));
      if extraction.Threw? {
        AppendKeepsActionable(withUser, Notice(replyId, FileErrorText, at));
      } else if extraction.value.status == "success" {
        AppendKeepsActionable(withUser, ExtractionReply(replyId, at, extraction.value, file.value));
      }
    }
  }

  // ---------------------------------------------------------------------------
  // Approve and validate (`handleApproveRules`)
  // ---------------------------------------------------------------------------

  /** The position of the first message with that id, if any. */
  function FindMessage(msgs: seq<Message>, id: string): (r: Option<nat>)
    ensures r.Some? ==> r.value < |msgs| && msgs[r.value].id == id
    ensures r.Some? ==> forall j :: 0 <= j < r.value ==> msgs[j].id != id
    ensures r.None? <==> forall j :: 0 <= j < |msgs| ==> msgs[j].id != id
  {
    FindFirst(msgs, (m: Message) => m.id == id)
  }

  /** A lookup in an extended log: an id absent from the old part is found first in the new part. */
  lemma FindMessageAppended(msgs: seq<Message>, extra: seq<Message>, id: string, k: nat)
    requires FindMessage(msgs, id).None? && k < |extra| && extra[k].id == id
    requires forall j :: 0 <= j < k ==> extra[j].id != id
    ensures FindMessage(msgs + extra, id) == Some(|msgs| + k)
  {
    assert (msgs + extra)[|msgs| + k] == extra[k];
  }

  /** A log whose first messages carry the same ids finds an id at the same place. */
  lemma FindMessageSameIds(msgs: seq<Message>, other: seq<Message>, id: string)
    requires FindMessage(msgs, id).Some? && |msgs| <= |other|
    requires forall j :: 0 <= j < |msgs| ==> other[j].id == msgs[j].id
    ensures FindMessage(other, id) == FindMessage(msgs, id)
  {
    var k := FindMessage(msgs, id).value;
    assert other[k].id == id;
  }

  /** The pending approval of the first message with that id; none when no message has it. */
  function PendingOf(msgs: seq<Message>, id: string): Option<Pending> {
    match FindMessage(msgs, id)
    case None => None
    case Some(i) => msgs[i].pendingApproval
  }

  /** How a rule's limit is printed: its value threshold, or when that is empty its plain threshold,
      or when that is missing too the word "undefined". */
  function ThresholdText(rule: Rule): (t: string)
    ensures rule.valueThreshold != "" ==> t == rule.valueThreshold
    ensures rule.valueThreshold == "" && rule.threshold.Some? ==> t == rule.threshold.value
    ensures rule.valueThreshold == "" && rule.threshold.None? ==> t == "undefined"
  {
    if rule.valueThreshold != "" then rule.valueThreshold
    else match rule.threshold
      case Some(t) => t
      case None => "undefined"
  }

  /** One rule in the validation request: its name, a colon and its printed limit. */
  function RuleSummary(rule: Rule): string {
    rule.ruleName + ": " + ThresholdText(rule)
  }

  /** The rules of a validation request: their summaries joined with "; ". */
  function RulesText(rules: seq<Rule>): (r: string)
    ensures rules == [] ==> r == ""
    ensures |rules| == 1 ==> r == RuleSummary(rules[0])
  {
    Join(seq(|rules|, i requires 0 <= i < |rules| => RuleSummary(rules[i])), "; ")
  }

  /** The request text is empty exactly when there are no rules. */
  lemma RulesTextEmptyIff(rules: seq<Rule>)
    ensures RulesText(rules) == "" <==> rules == []
  {
    if rules != [] {
      var parts := seq(|rules|, i requires 0 <= i < |rules| => RuleSummary(rules[i]));
      JoinStartsWithFirst(parts, "; ");
      assert |parts[0]| >= 2;
    }
  }

  /** One more rule adds "; " and its summary at the end of the request text. */
  lemma RulesTextSnoc(rules: seq<Rule>, rule: Rule)
    requires rules != []
    ensures RulesText(rules + [rule]) == RulesText(rules) + "; " + RuleSummary(rule)
  {
    var parts := seq(|rules|, i requires 0 <= i < |rules| => RuleSummary(rules[i]));
    var more := rules + [rule];
    assert seq(|more|, i requires 0 <= i < |more| => RuleSummary(more[i])) == parts + [RuleSummary(rule)];
    JoinSnoc(parts, RuleSummary(rule), "; ");
  }

  const ValidationRequestText := "Validate these compliance rules against our portfolio holdings: "
  const BreachAnalysisText := ". Provide detailed compliance score and breach analysis for all funds."

  /** The validation request for a pending rule list. */
  function ValidationPrompt(rules: seq<Rule>): string {
    ValidationRequestText + RulesText(rules) + BreachAnalysisText
  }

  /** The request an approval issues: none when the message has no pending approval. */
  function ApproveRequest(msgs: seq<Message>, id: string): Option<string> {
    match PendingOf(msgs, id)
    case None => None
    case Some(p) => Some(ValidationPrompt(p.rules))
  }

  /** The reply to a successful validation: the response and a copy of the pending approval. */
  function ValidationReply(id: string, at: int, resp: AgentResponse, pending: Pending): (r: Message)
    ensures r.id == id && r.role == Assistant && r.agentResponse == Some(resp)
    ensures r.pendingApproval == Some(pending)
    ensures resp.status == "success" ==>
      Actionable(r) && PhaseOf(r) == (if HasScore(resp) then AwaitingCommit else AwaitingValidation)
  {
    Message(id, Assistant, ValidationDoneText, at, Some(resp), Some(Pending(pending.rules, pending.filename)))
  }

  /** The log after approving message `id`. */
  function AfterApprove(msgs: seq<Message>, id: string, validation: Call<AgentResponse>, replyId: string, at: int): (r: seq<Message>)
    ensures |msgs| <= |r| <= |msgs| + 1
    ensures r[..|msgs|] == msgs
    ensures PendingOf(msgs, id).None? ==> r == msgs
  {
    match PendingOf(msgs, id)
    case None => msgs
    case Some(p) =>
      match validation
      case Threw => msgs
      case Returned(resp) =>
        if resp.status == "success" then
          var r := msgs + [ValidationReply(replyId, at, resp, p)];
          assert r[..|msgs|] == msgs;
          r
        else msgs
  }

  /** Approving a message without a pending approval issues nothing and changes nothing. Otherwise the
      pending rules are sent for validation; a throw or a non-success status appends nothing; success
      appends exactly one reply with the same rules and filename, leaving the original message (and
      every other) as it was, and that reply shows the commit group only if the response has a score. */
  lemma ApproveEffects(msgs: seq<Message>, id: string, validation: Call<AgentResponse>, replyId: string, at: int)
    ensures var r := AfterApprove(msgs, id, validation, replyId, at);
      && (PendingOf(msgs, id).None? ==> r == msgs && ApproveRequest(msgs, id).None?)
      && (PendingOf(msgs, id).Some? ==>
            && ApproveRequest(msgs, id) == Some(ValidationPrompt(PendingOf(msgs, id).value.rules))
            && ((validation.Threw? || validation.value.status != "success") ==> r == msgs)
            && (validation.Returned? && validation.value.status == "success" ==>
                  && |r| == |msgs| + 1 && r[..|msgs|] == msgs
                  && r[|msgs|].pendingApproval == PendingOf(msgs, id)
                  && PhaseOf(r[|msgs|]) == (if HasScore(validation.value) then AwaitingCommit else AwaitingValidation)))
  {
    var r := AfterApprove(msgs, id, validation, replyId, at);
    if r != msgs {
      assert r[..|msgs|] == msgs;
    }
  }

  /** Approving never leaves a pending approval where its buttons are hidden: the reply it may append
      carries a successful response. */
  lemma ApproveKeepsPendingsActionable(msgs: seq<Message>, id: string, validation: Call<AgentResponse>, replyId: string, at: int)
    requires PendingsActionable(msgs)
    ensures PendingsActionable(AfterApprove(msgs, id, validation, replyId, at))
  {
    if PendingOf(msgs, id).Some? && validation.Returned? && validation.value.status == "success" {
      AppendKeepsActionable(msgs, ValidationReply(replyId, at, validation.value, PendingOf(msgs, id).value));
    }
  }

  /** A validation whose only score is the number 0 reads as "not validated": its reply shows the
      approval group again, not the commit group. */
  lemma ZeroScoreReadsAsUnvalidated(msgs: seq<Message>, id: string, resp: AgentResponse, replyId: string, at: int)
    requires PendingOf(msgs, id).Some? && resp.status == "success"
    requires resp.result == Some(AgentResult(None, None, Some(Numeric(0))))
    ensures PhaseOf(AfterApprove(msgs, id, Returned(resp), replyId, at)[|msgs|]) == AwaitingValidation
  {
  }

  /** The original message keeps its pending approval, so approving it again is not rejected: a second
      successful approval sends the same request and appends a second reply. */
  lemma ApproveTwiceValidatesTwice(msgs: seq<Message>, id: string, first: AgentResponse, second: AgentResponse,
                                   replyId1: string, replyId2: string, at: int)
    requires PendingOf(msgs, id).Some? && first.status == "success" && second.status == "success"
    ensures var once := AfterApprove(msgs, id, Returned(first), replyId1, at);
      var twice := AfterApprove(once, id, Returned(second), replyId2, at);
      && ApproveRequest(once, id) == ApproveRequest(msgs, id)
      && |twice| == |msgs| + 2
      && twice[|msgs|].pendingApproval == twice[|msgs| + 1].pendingApproval == PendingOf(msgs, id)
  {
    var once := AfterApprove(msgs, id, Returned(first), replyId1, at);
    var i := FindMessage(msgs, id).value;
    assert once[..|msgs|] == msgs;
    assert FindMessage(once, id) == Some(i);
  }

  // ---------------------------------------------------------------------------
  // Commit (`handleAddToVersion`) and discard (`handleIgnoreRules`)
  // ---------------------------------------------------------------------------

  /** Drops the pending approval of every message with that id; nothing else in the log changes. */
  function ClearPending(msgs: seq<Message>, id: string): (r: seq<Message>)
    ensures |r| == |msgs|
    ensures forall i :: 0 <= i < |msgs| ==> r[i].(pendingApproval := msgs[i].pendingApproval) == msgs[i]
    ensures forall i :: 0 <= i < |msgs| ==> if msgs[i].id == id then r[i].pendingApproval.None? else r[i] == msgs[i]
  {
    seq(|msgs|, i requires 0 <= i < |msgs| =>
      if msgs[i].id == id then msgs[i].(pendingApproval := None) else msgs[i])
  }

  const NowCurrentText := " rules. This version is now current and reflected in the Compliance Dashboard and Version Control."

  /** The confirmation a commit appends, naming the new version and its rule count. */
  function CommitConfirmation(id: string, at: int, v: Version): Message {
    Notice(id, "Successfully added " + v.version + " with " + NatToString(v.ruleCount)
      + NowCurrentText, at)
  }

  /** The history after committing message `id`. */
  function CommittedVersions(vs: seq<Version>, msgs: seq<Message>, id: string, uploadDate: string): (r: seq<Version>)
    ensures PendingOf(msgs, id).None? <==> r == vs
    ensures PendingOf(msgs, id).Some? ==>
      |r| == |vs| + 1 && CurrentCount(r) == 1 && r[|vs|].ruleCount == |PendingOf(msgs, id).value.rules|
  {
    match PendingOf(msgs, id)
    case None => vs
    case Some(p) => CommitVersions(vs, p, uploadDate)
  }

  /** The log after committing message `id`. */
  function CommittedMessages(vs: seq<Version>, msgs: seq<Message>, id: string, confirmId: string, at: int,
                             uploadDate: string): (r: seq<Message>)
    ensures |r| == |msgs| + (if PendingOf(msgs, id).Some? then 1 else 0)
    ensures forall i :: 0 <= i < |msgs| ==> r[i].id == msgs[i].id && (msgs[i].id != id ==> r[i] == msgs[i])
    ensures PendingOf(msgs, id).Some? ==> forall i :: 0 <= i < |msgs| && msgs[i].id == id ==> r[i].pendingApproval.None?
  {
    match PendingOf(msgs, id)
    case None => msgs
    case Some(p) => ClearPending(msgs, id) + [CommitConfirmation(confirmId, at, NewVersion(|vs|, p, uploadDate))]
  }

  /** Committing a message without a pending approval changes neither the history nor the log. */
  lemma CommitStaleIsNoop(vs: seq<Version>, msgs: seq<Message>, id: string, confirmId: string, at: int, uploadDate: string)
    requires PendingOf(msgs, id).None?
    ensures CommittedVersions(vs, msgs, id, uploadDate) == vs
    ensures CommittedMessages(vs, msgs, id, confirmId, at, uploadDate) == msgs
  {
  }

  /** Committing a message that holds a pending approval, whichever button group it shows: the history
      grows by one and keeps exactly one current version; every message with that id loses its pending
      approval and shows no buttons, every other message is unchanged, and one confirmation naming
      "Version n.0" and the rule count is appended. */
  lemma CommitEffects(vs: seq<Version>, msgs: seq<Message>, id: string, confirmId: string, at: int, uploadDate: string)
    requires PendingOf(msgs, id).Some?
    ensures var nv := CommittedVersions(vs, msgs, id, uploadDate);
      var r := CommittedMessages(vs, msgs, id, confirmId, at, uploadDate);
      var p := PendingOf(msgs, id).value;
      && |nv| == |vs| + 1 && CurrentCount(nv) == 1 && nv[|vs|].status == Current
      && nv[|vs|].ruleCount == |p.rules| && nv[|vs|].filename == p.filename
      && |r| == |msgs| + 1
      && (forall i :: 0 <= i < |msgs| && msgs[i].id == id ==>
            r[i] == msgs[i].(pendingApproval := None) && PhaseOf(r[i]) == NoDecision)
      && (forall i :: 0 <= i < |msgs| && msgs[i].id != id ==> r[i] == msgs[i])
      && r[|msgs|].role == Assistant && r[|msgs|].pendingApproval.None?
      && r[|msgs|].content == "Successfully added " + VersionLabel(|vs| + 1) + " with " + NatToString(|p.rules|)
           + NowCurrentText
  {
  }

  /** Committing never leaves a pending approval where its buttons are hidden. */
  lemma CommitKeepsPendingsActionable(vs: seq<Version>, msgs: seq<Message>, id: string, confirmId: string, at: int,
                                     uploadDate: string)
    requires PendingsActionable(msgs)
    ensures PendingsActionable(CommittedMessages(vs, msgs, id, confirmId, at, uploadDate))
  {
    if PendingOf(msgs, id).Some? {
      var p := PendingOf(msgs, id).value;
      ClearPendingKeepsActionable(msgs, id);
      AppendKeepsActionable(ClearPending(msgs, id), CommitConfirmation(confirmId, at, NewVersion(|vs|, p, uploadDate)));
    }
  }

  /** The log after discarding message `id`. */
  function AfterIgnore(msgs: seq<Message>, id: string, confirmId: string, at: int): (r: seq<Message>)
    ensures |r| == |msgs| + 1
    ensures forall i :: 0 <= i < |r| && r[i].id == id ==> r[i].pendingApproval.None?
  {
    ClearPending(msgs, id) + [Notice(confirmId, IgnoredText, at)]
  }

  /** Discarding has no guard: whatever the phase, and even when nothing was pending or no message has
      that id, every message with that id ends with no pending approval, every other message is
      unchanged, and exactly one confirmation is appended. */
  lemma IgnoreEffects(msgs: seq<Message>, id: string, confirmId: string, at: int)
    ensures var r := AfterIgnore(msgs, id, confirmId, at);
      && |r| == |msgs| + 1
      && (forall i :: 0 <= i < |msgs| && msgs[i].id == id ==>
            r[i] == msgs[i].(pendingApproval := None) && PhaseOf(r[i]) == NoDecision)
      && (forall i :: 0 <= i < |msgs| && msgs[i].id != id ==> r[i] == msgs[i])
      && r[|msgs|] == Notice(confirmId, IgnoredText, at)
      && PendingOf(r, id).None?
  {
    var r := AfterIgnore(msgs, id, confirmId, at);
    match FindMessage(r, id)
    case None =>
    case Some(k) =>
      if k == |msgs| {
        assert r[k] == Notice(confirmId, IgnoredText, at);
      }
  }

  /** Discarding never leaves a pending approval where its buttons are hidden. */
  lemma IgnoreKeepsPendingsActionable(msgs: seq<Message>, id: string, confirmId: string, at: int)
    requires PendingsActionable(msgs)
    ensures PendingsActionable(AfterIgnore(msgs, id, confirmId, at))
  {
    ClearPendingKeepsActionable(msgs, id);
    AppendKeepsActionable(ClearPending(msgs, id), Notice(confirmId, IgnoredText, at));
  }

  /** Extract, approve, then commit from the validation reply: the reply's approval is cleared, but the
      original extraction message keeps its pending approval and still shows "Approve & Validate". */
  lemma StaleApprovalSurvivesCommit(vs: seq<Version>, msgs: seq<Message>, extractionId: string, resp: AgentResponse,
                                    replyId: string, confirmId: string, at: int, uploadDate: string)
    requires PendingOf(msgs, extractionId).Some? && resp.status == "success"
    requires FindMessage(msgs, replyId).None? && replyId != extractionId
    requires PhaseOf(msgs[FindMessage(msgs, extractionId).value]) == AwaitingValidation
    ensures var validated := AfterApprove(msgs, extractionId, Returned(resp), replyId, at);
      var committed := CommittedMessages(vs, validated, replyId, confirmId, at, uploadDate);
      && CommittedVersions(vs, validated, replyId, uploadDate) == CommitVersions(vs, PendingOf(msgs, extractionId).value, uploadDate)
      && |committed| == |msgs| + 2 && committed[|msgs|].pendingApproval.None?
      && committed[FindMessage(msgs, extractionId).value] == msgs[FindMessage(msgs, extractionId).value]
      && PendingOf(committed, extractionId) == PendingOf(msgs, extractionId)
      && PhaseOf(committed[FindMessage(msgs, extractionId).value]) == AwaitingValidation
  {
    var validated := AfterApprove(msgs, extractionId, Returned(resp), replyId, at);
    var e := FindMessage(msgs, extractionId).value;
    ApproveEffects(msgs, extractionId, Returned(resp), replyId, at);
    FindMessageAppended(msgs, validated[|msgs|..], replyId, 0);
    assert msgs + validated[|msgs|..] == validated;
    var committed := CommittedMessages(vs, validated, replyId, confirmId, at, uploadDate);
    CommitEffects(vs, validated, replyId, confirmId, at, uploadDate);
    FindMessageSameIds(msgs, committed, extractionId);
  }

  /** A whole review from an upload with no score yet: extract, approve the extraction reply, commit
      the validation reply. The history gains the version built from the extracted rules, the log grows
      by four messages, and the extraction reply still shows "Approve & Validate" afterwards. */
  lemma ReviewRoundLog(vs: seq<Version>, msgs: seq<Message>, name: string, upload: UploadResult,
                        extraction: AgentResponse, validation: AgentResponse, userId: string,
                        extractionId: string, validationId: string, confirmId: string,
                        uploadDate: string, at: int)
    requires upload.success && extraction.status == "success" && validation.status == "success"
    requires !HasScore(extraction)
    requires FindMessage(msgs, extractionId).None? && FindMessage(msgs, validationId).None?
    requires userId != extractionId && userId != validationId && extractionId != validationId
    ensures var up := AfterUpload(msgs, Some(name), Returned(upload), Returned(extraction), userId, extractionId, at);
      var ap := AfterApprove(up, extractionId, Returned(validation), validationId, at);
      var cm := CommittedMessages(vs, ap, validationId, confirmId, at, uploadDate);
      var p := Pending(ExtractedRules(extraction), name);
      && PendingOf(ap, validationId) == Some(p)
      && CommittedVersions(vs, ap, validationId, uploadDate) == CommitVersions(vs, p, uploadDate)
      && |cm| == |msgs| + 4
      && cm[|msgs| + 1].pendingApproval == Some(p)
      && PhaseOf(cm[|msgs| + 1]) == AwaitingValidation
      && cm[|msgs| + 2].pendingApproval.None?
  {
    var up := AfterUpload(msgs, Some(name), Returned(upload), Returned(extraction), userId, extractionId, at);
    UploadOpensApproval(msgs, name, upload, extraction, userId, extractionId, at);
    FindMessageAppended(msgs, up[|msgs|..], extractionId, 1);
    assert msgs + up[|msgs|..] == up;
    assert FindMessage(up, validationId).None?;
    StaleApprovalSurvivesCommit(vs, up, extractionId, validation, validationId, confirmId, at, uploadDate);
  }
}
