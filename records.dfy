/**
 * The records the page works with: extracted rules, breaches, stored versions, chat messages and
 * their pending approval, and the parts of the agent's response that the workflow reads.
 *
 * Responses arrive as untyped JSON, so every field the page probes with `?.` or `||` is optional.
 */
module Records {
  import opened Wrappers

  /** A compliance rule as the agent extracts it. `valueThreshold` may come back empty, in which
      case the page falls back to `threshold`, itself possibly missing. */
  datatype Rule = Rule(
    ruleId: string,
    ruleName: string,
    ruleType: string,
    valueThreshold: string,
    threshold: Option<string>)

  /** A detected violation of a rule by a fund. */
  datatype Breach = Breach(
    fundName: string,
    ruleViolated: string,
    currentValue: string,
    limit: string,
    severity: string,
    remediation: string)

  datatype VersionStatus = Current | Archived

  /** The change summary stored with each version. */
  datatype Changes = Changes(added: nat, removed: nat, modified: nat)

  /** One entry of the version history. `version` is its display label ("Version 2.0"). */
  datatype Version = Version(
    id: string,
    version: string,
    filename: string,
    uploadDate: string,
    ruleCount: nat,
    status: VersionStatus,
    changes: Changes,
    rules: Option<seq<Rule>>,
    complianceScore: Option<int>,
    breaches: Option<seq<Breach>>)

  /** `overall_compliance_score` comes back either as a number or as a string. */
  datatype ScoreField = Numeric(n: int) | Textual(s: string)

  /** The `aggregated_analysis` wrapper of a response. */
  datatype Aggregated = Aggregated(rulesTable: Option<seq<Rule>>, overallScore: Option<ScoreField>)

  /** The `result` object of a response. */
  datatype AgentResult = AgentResult(
    extractedRules: Option<seq<Rule>>,
    aggregated: Option<Aggregated>,
    overallScore: Option<ScoreField>)

  /** What the agent call resolves to: a status string, an optional reply text and an optional result. */
  datatype AgentResponse = AgentResponse(status: string, message: Option<string>, result: Option<AgentResult>)

  /** The outcome of an awaited external call: it either rejected or resolved to a value. */
  datatype Call<T> = Threw | Returned(value: T)

  /** What the file-upload call resolves to. */
  datatype UploadResult = UploadResult(success: bool, assetIds: seq<string>)

  /** A request issued to the agent: the prompt and the uploaded assets attached to it. */
  datatype AgentRequest = AgentRequest(prompt: string, assets: seq<string>)

  datatype Role = User | Assistant

  /** The `pendingApproval` of a message (its `type` is always `rule_extraction`). */
  datatype Pending = Pending(rules: seq<Rule>, filename: string)

  /** One chat entry; `timestamp` stands for the `Date` the page stamps it with. */
  datatype Message = Message(
    id: string,
    role: Role,
    content: string,
    timestamp: int,
    agentResponse: Option<AgentResponse>,
    pendingApproval: Option<Pending>)
}
