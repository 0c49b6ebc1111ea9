# Compliance review workflow

This project models the review-and-versioning workflow of the compliance assistant's main page
(`src/pages/Home.tsx`). The page keeps two pieces of state:

- **The version history.** A module-level list of versions that a commit changes in place.
- **The chat log.** Its messages may carry a *pending approval*: the rules extracted from an uploaded
  guidelines document, with the document's file name.

A document goes through a review in steps:

1. It is uploaded and its rules are extracted. The extraction reply opens a pending approval.
2. "Approve & Validate" sends the rules for validation. The validation reply carries the same pending
   approval.
3. "Add to Current Version" archives every stored version and appends a new current one.
4. "Ignore" discards the pending approval instead.

Which button group a message shows is not stored anywhere. The page infers it from whether the
message's agent response carries an `overall_compliance_score`, flat or under `aggregated_analysis`.

Beside the handlers sit pure helpers:

- the rule filter of the Rules view: the inline filter the view runs, and `getFilteredRules`, which
  the page defines but never calls (the model proves the two agree);
- the severity and compliance-score colour classifiers;
- the set toggle behind the expandable rule rows and the remediation checklist.

Modules:

- `Wrappers`: `Option`.
- `Text`: the JavaScript string operations the page relies on:
  - decimal printing of a count;
  - ASCII `toLowerCase`;
  - `includes`;
  - `trim`;
  - `join`.
- `Lists`: `find` as "first matching position", and order-preserving sub-lists.
- `Records`: rules, breaches, versions, messages and the parts of an agent response the page reads.
- `Helpers`: the pure helpers.
- `History`: what a commit does to the version history, and the history's invariant. The invariant is
  that the k-th entry has id `v<k>` and label `Version <k>.0`, and that exactly one entry is current.
- `Conversation`: the phase inference and, for every handler, the log it produces for every outcome of
  its external calls (as functions), with the lemmas stating each handler's effects.
- `Session`: the class `HomePage`, whose methods are the handlers. They update the version history in
  place, append to or map over the log, and change the selected version. Each method is proved to
  produce exactly the state given by the `Conversation` and `History` functions, and to keep `Valid()`.
  `Valid()` holds when the history invariant holds and every pending approval sits on a message that
  displays a button group.

External calls (`uploadFiles`, `callAIAgent`) become parameters of type `Call<T>`, which either `Threw`
or `Returned` a value, so every proof holds for every possible response. Message ids drawn from
`Date.now()`, timestamps and the ISO upload date are parameters too. A handler that calls the agent
returns the request it sends.

Four behaviours of the code shape the model:

- The phase is inferred from the response, not stored.
- A commit checks only that a pending approval is present. It does not check the phase, so a commit
  issued from an extraction reply that was never validated is accepted (`Conversation.CommitEffects`
  holds for any message with a pending approval).
- Approving leaves the original message's pending approval in place. So it can be approved again
  (`Conversation.ApproveTwiceValidatesTwice`), and it still shows its buttons after the validation
  reply has been committed (`Conversation.StaleApprovalSurvivesCommit`).
- The change summary of a new version is always "all rules added, none removed or modified". No diff is
  computed.

## Model

| member | source | states |
|---|---|---|
| Text.NatToString | src/pages/Home.tsx:780-781 | a count prints as a non-empty string of decimal digits with no leading zero (0 prints as "0"), with at least two digits from 10 up |
| Text.NatToStringValue | src/pages/Home.tsx:780-781 | reading the printed digits back as a decimal number gives the count |
| Text.NatToStringInjective | src/pages/Home.tsx:780-781 | distinct counts print differently, so distinct version numbers give distinct ids |
| Text.ToLower | src/pages/Home.tsx:231 | lowering keeps the length, maps each upper-case ASCII letter to its lower-case letter (code plus 32) and changes no other character |
| Text.ToLowerIdempotent | src/pages/Home.tsx:231 | lowering twice is lowering once |
| Text.Includes | src/pages/Home.tsx:838-839 | `includes` holds exactly when the needle occurs at some position of the text |
| Text.TrimStart | src/pages/Home.tsx:628 | `trimStart` gives a suffix, drops only whitespace, and leaves no leading whitespace |
| Text.TrimEnd | src/pages/Home.tsx:628 | `trimEnd` gives a prefix, drops only whitespace, and leaves no trailing whitespace |
| Text.TrimEmptyIffBlank | src/pages/Home.tsx:628 | the trimmed input is empty exactly when every character is whitespace |
| Text.JoinSnoc | src/pages/Home.tsx:741-743 | joining one more part appends the separator and that part |
| Text.JoinStartsWithFirst | src/pages/Home.tsx:741-743 | a join starts with its first part |
| Lists.FindFirst | src/pages/Home.tsx:734 | `find` gives the first position whose element matches, and nothing exactly when none matches |
| Helpers.SeverityColor | src/pages/Home.tsx:230-236 | red, amber and orange exactly for lowered "high", "low" and "medium"; blue exactly for every other severity |
| Helpers.SeverityColorIgnoresCase | src/pages/Home.tsx:231 | a severity and its lowered form get the same class |
| Helpers.SeverityColorExamples | src/pages/Home.tsx:230-236 | "High", "HIGH" and "high" are red; "critical" falls to the blue default |
| Helpers.ComplianceColor | src/pages/Home.tsx:238-242 | green exactly from 80 up, amber exactly from 60 up to but not including 80, red exactly below 60 |
| Helpers.ComplianceColorMonotone | src/pages/Home.tsx:238-242 | a higher score never gets a worse colour |
| Helpers.Toggle | src/pages/Home.tsx:307-315 | the toggled element is present afterwards exactly when it was absent before; every other element is unchanged |
| Helpers.ToggleTwice | src/pages/Home.tsx:493-501 | toggling the same row or checklist item twice restores the set |
| Helpers.ShownRules | src/pages/Home.tsx:1192-1200 | the inline filter keeps an order-preserving sub-list; a rule is in it exactly when it matches the query and the type, and then as many times as in the input |
| Helpers.StagedFilterAgrees | src/pages/Home.tsx:832-849 | the two-pass `getFilteredRules` keeps the same rules in the same order as the inline filter |
| Helpers.GetFilteredRules | src/pages/Home.tsx:832-849 | a missing list gives no rules; otherwise the result is the inline filter's |
| Helpers.ShownRulesNoFilter | src/pages/Home.tsx:1192-1200 | with no query and type `all`, the rules come back unchanged |
| Helpers.ShownRulesIdempotent | src/pages/Home.tsx:1192-1200 | filtering a filtered list changes nothing |
| History.VersionIdInjective | src/pages/Home.tsx:780 | `v<a>` equals `v<b>` only when a equals b |
| History.ArchiveAll | src/pages/Home.tsx:793 | the archiving pass marks every stored version archived and changes nothing else about it |
| History.ArchiveAllHasNoCurrent | src/pages/Home.tsx:793 | after the archiving pass no version is current |
| History.CommitVersions | src/pages/Home.tsx:793-794 | a commit grows the history by one; the new last entry is the only current one; every earlier entry is archived and otherwise unchanged |
| History.NewVersion | src/pages/Home.tsx:779-791 | the appended version has the next id and label, is current, has the pending filename, the upload date and the pending rule count, reports every rule as added and none removed or modified, and stores no rule list |
| History.CommittedVersionFields | src/pages/Home.tsx:779-791 | the new version is `v<n+1>` / `Version <n+1>.0`; it has the pending filename and the upload date, its rule count is the number of pending rules, its changes are {added: count, removed: 0, modified: 0}, and it stores no rules, score or breaches |
| History.CommitPreservesHistory | src/pages/Home.tsx:779-794 | a commit keeps the id and label pattern and exactly one current version |
| History.VersionIdsDistinct | src/pages/Home.tsx:780 | in a valid history no two versions share an id |
| History.NewVersionIdFresh | src/pages/Home.tsx:780 | the id a commit hands out is not already taken |
| History.FindVersion | src/pages/Home.tsx:1189 | the selected version is the first one with that id |
| History.PanelRules | src/pages/Home.tsx:1188-1200 | the Rules view lists nothing when no version has the selected id, and otherwise an order-preserving sub-list of that version's stored rules |
| History.CommittedVersionShowsNoRules | src/pages/Home.tsx:1189-1200 | right after a commit the Rules view lists nothing, because the selected new version stores no rules |
| History.MockVersionsValid | src/pages/Home.tsx:123-184 | the demo history (v1 and v2 archived, v3 current) already satisfies the history invariant |
| Conversation.Truthy | src/pages/Home.tsx:926 | a score counts exactly when it is present and is neither the number 0 nor the empty string |
| Conversation.HasScore | src/pages/Home.tsx:926 | a response has a score when the flat or the nested `overall_compliance_score` is truthy, and only then; without a result it has none |
| Conversation.PhaseOf | src/pages/Home.tsx:914-992 | a message shows a button group exactly when it is an assistant message with a successful response and a pending approval, and it shows the commit group exactly when that response has a score |
| Conversation.PendingIffButtons | src/pages/Home.tsx:914-992 | under the log invariant, a message shows an approval button group exactly when it holds a pending approval |
| Conversation.AppendKeepsActionable | src/pages/Home.tsx:914-992 | appending keeps the log invariant exactly when the new message shows its buttons or has nothing pending |
| Conversation.ClearPendingKeepsActionable | src/pages/Home.tsx:798-802 | clearing pending approvals keeps the log invariant |
| Conversation.ReplyText | src/pages/Home.tsx:647 | a chat reply reads as the agent's text when it is non-empty, and as "Response received" otherwise; it is never empty |
| Conversation.AfterSend | src/pages/Home.tsx:627-664 | sending only appends: nothing for a blank input, exactly two messages otherwise, and the earlier log is kept |
| Conversation.SendEffects | src/pages/Home.tsx:627-664 | a blank input changes nothing; any other input appends the user's message and then one assistant reply with the reply id |
| Conversation.SendReplyEffects | src/pages/Home.tsx:640-663 | the reply never carries a pending approval; it keeps the response whatever its status and reads as the agent's text, or "Response received" when there is none; a call that throws gives the error notice instead |
| Conversation.SendKeepsPendingsActionable | src/pages/Home.tsx:627-664 | sending keeps the log invariant |
| Conversation.ExtractedRulesPrecedence | src/pages/Home.tsx:696-697 | a present `extracted_rules` wins even when empty, then `aggregated_analysis.rules_table`, then the empty list |
| Conversation.ExtractedRules | src/pages/Home.tsx:696-697 | any extracted rules come from the flat `extracted_rules` or from the aggregated rules table of the result |
| Conversation.ExtractionReply | src/pages/Home.tsx:700-711 | the extraction reply is an assistant message with the reply id, the response, and a pending approval over the extracted rules and the filename; after a successful status it displays the approval group, or the commit group when the response has a score |
| Conversation.AfterUpload | src/pages/Home.tsx:670-730 | an upload only appends, at most two messages, and keeps the earlier log |
| Conversation.UploadFailsEarly | src/pages/Home.tsx:670-730 | no file or a refused upload changes nothing; an upload that throws appends one error notice; the agent is not called in these cases |
| Conversation.UploadWithoutExtraction | src/pages/Home.tsx:678-725 | a completed upload appends the user's message; a throwing extraction then adds one error notice, and a non-success status adds nothing |
| Conversation.UploadOpensApproval | src/pages/Home.tsx:678-712 | a successful extraction appends the user's message and one reply whose pending approval holds the selected rules and the filename, even when there are zero rules; the reply shows the approval group unless the response has a score |
| Conversation.UploadKeepsPendingsActionable | src/pages/Home.tsx:670-730 | no upload outcome breaks the log invariant |
| Conversation.FindMessage | src/pages/Home.tsx:734 | the handlers act on the first message with the given id, and on none exactly when no message has it |
| Conversation.ThresholdText | src/pages/Home.tsx:742 | a rule's limit prints as its `value_threshold`, or when that is empty as its `threshold`, or when that is missing too as "undefined" |
| Conversation.RulesText | src/pages/Home.tsx:741-743 | no rules give the empty text, and one rule gives its own summary with no separator |
| Conversation.RulesTextEmptyIff | src/pages/Home.tsx:741-743 | the rules text is empty exactly when there are no rules |
| Conversation.RulesTextSnoc | src/pages/Home.tsx:741-743 | one more rule appends "; ", its name, ": " and its threshold, where an empty `value_threshold` falls back to `threshold` |
| Conversation.ValidationReply | src/pages/Home.tsx:752-764 | the validation reply is an assistant message with the reply id, the response and the same pending approval; after a successful status it displays a button group, the commit group exactly when the response has a score |
| Conversation.AfterApprove | src/pages/Home.tsx:733-771 | approving only appends, at most one message, keeps the earlier log, and changes nothing when the id holds no pending approval |
| Conversation.ApproveEffects | src/pages/Home.tsx:733-771 | without a pending approval, nothing is requested and nothing changes. Otherwise the pending rules are sent; a throw or a non-success status appends nothing; success appends exactly one reply with the same pending approval, and every earlier message is unchanged |
| Conversation.ApproveKeepsPendingsActionable | src/pages/Home.tsx:755-766 | approving keeps the log invariant |
| Conversation.ZeroScoreReadsAsUnvalidated | src/pages/Home.tsx:926 | a validation whose only score is 0 still shows the approval group, because 0 is falsy |
| Conversation.ApproveTwiceValidatesTwice | src/pages/Home.tsx:733-771 | the original approval survives, so a second approval sends the same request and appends a second reply with the same pending approval |
| Conversation.ClearPending | src/pages/Home.tsx:798-802 | the log keeps its length; every message with that id loses its pending approval, every other message is unchanged, and nothing but the pending approval changes |
| Conversation.CommittedVersions | src/pages/Home.tsx:774-794 | the history is unchanged exactly when the id holds no pending approval; otherwise it grows by one version, exactly one current, counting the pending rules |
| Conversation.CommittedMessages | src/pages/Home.tsx:774-812 | a commit adds one confirmation only when something was pending, keeps every message's id and every message with another id, and clears the pending approval of the committed id |
| Conversation.CommitStaleIsNoop | src/pages/Home.tsx:775-776 | committing a message without a pending approval, or an unknown id, changes neither the history nor the log |
| Conversation.CommitEffects | src/pages/Home.tsx:774-812 | committing any message with a pending approval, whatever its phase: the history grows by one with exactly one current version; messages with that id lose their approval; all other messages are unchanged; one confirmation naming `Version <n+1>.0` and the rule count is appended |
| Conversation.CommitKeepsPendingsActionable | src/pages/Home.tsx:797-811 | committing keeps the log invariant |
| Conversation.AfterIgnore | src/pages/Home.tsx:815-829 | discarding appends exactly one message, and afterwards no message with that id holds a pending approval |
| Conversation.IgnoreEffects | src/pages/Home.tsx:815-829 | discarding has no guard: messages with that id lose their approval whatever their phase; the others are unchanged; exactly one confirmation is appended; afterwards nothing is pending under that id |
| Conversation.IgnoreKeepsPendingsActionable | src/pages/Home.tsx:815-829 | discarding keeps the log invariant |
| Conversation.StaleApprovalSurvivesCommit | src/pages/Home.tsx:758-802 | after approving and then committing the validation reply, the history gains the original pending rules, the reply's approval is gone, and the original extraction message is unchanged and still shows "Approve & Validate" |
| Conversation.ReviewRoundLog | src/pages/Home.tsx:670-812 | upload, approve and commit in a row: the history gains the version built from the extracted rules, the log grows by four, and the extraction reply keeps its pending approval |
| Session.HomePage.constructor | src/pages/Home.tsx:613-625 | the page mounts with the demo history, "v3" selected and the greeting alone in the log, in a valid state |
| Session.HomePage.SendMessage | src/pages/Home.tsx:627-664 | the log becomes the one `Conversation.SendEffects` describes; the input is sent exactly when it is not blank; the page stays valid |
| Session.HomePage.UploadDocument | src/pages/Home.tsx:670-730 | the log becomes the one the upload lemmas describe; the extraction request goes out exactly when a file was uploaded successfully; the page stays valid |
| Session.HomePage.ApproveRules | src/pages/Home.tsx:733-771 | the log becomes the one `Conversation.ApproveEffects` describes, the validation request is issued exactly when a pending approval is found, and the page stays valid |
| Session.HomePage.AddToVersion | src/pages/Home.tsx:774-812 | an in-place pass archives every stored version, then the new version is appended and selected. History and log become those of `Conversation.CommitEffects`; nothing changes without a pending approval; the history invariant is kept |
| Session.HomePage.IgnoreRules | src/pages/Home.tsx:815-829 | the log becomes the one `Conversation.IgnoreEffects` describes; the history and the selected version are untouched; the page stays valid |

## Left out

- Rendering: the JSX, styling, tabs, scrolling and refs. The model keeps only the conditions that decide
  which button group a message shows.
- The internals of `uploadFiles` and `callAIAgent`, which live outside this file and use the network.
  Their outcomes are parameters.
- Clock reads: `Date.now()` ids, `new Date()` timestamps and `toISOString` dates are free parameters.
  Any two of them may be equal, so shared ids are covered; what the model does not capture is how the
  ids of one handler relate to each other (the reply id being the user message's id plus one).
- The `isLoading` flag, the clearing of the input box and of the file input, and the async
  interleaving of in-flight calls. Each handler runs to completion with the log it starts from.
  `setMessages(prev => ...)` updates are therefore applied to the same log the handler read.
- React's state batching and stale closures (`messages.find` reads the log of the last render).
- Floating point: `parseFloat` of a textual score, the gauge arithmetic, and NaN. The colour classifier
  takes a real score; a textual score only counts as truthy or not.
- The mock fund data, the holdings and the hard-coded compare panel, which are static demo content.
- There is no diff engine, because the code has none.
- Text.ToLower: lowers ASCII letters only, where JavaScript's `toLowerCase` also lowers other alphabets.
- Rule fields the workflow never reads (`applicable_funds`, `confidence`, `source_section` and the
  rest), the `uploadedFile` of a pending approval, and the `type` of a pending approval (always
  `rule_extraction`).
- Session.HomePage.UploadDocument: the file is reduced to its name.
- History.MockVersions: the demo rules keep their id, name, type and threshold. Their confidence scores
  and source quotes are not part of this model.
- Badly shaped values inside a response: a rule list that is not an array, or a score of another
  type. A missing `result` is modelled (it is optional and read through optional chaining), and a
  missing `response` makes each handler throw inside its `try`, which lands in its `catch`: that is
  the `Threw` outcome.
- Session.HomePage.constructor: models the first mount only. The version history is module-level, so a
  later mount of the page starts from the history earlier commits left, not from the demo list.
