/**
 * The version history (`mockVersions`): the specification of what a commit does to it, the
 * invariant it keeps (ids "v1", "v2", ... in order and exactly one `current` entry), and the
 * lookup of the selected version whose rules the Rules view lists.
 */
module History {
  import opened Wrappers
  import opened Text
  import opened Lists
  import opened Records
  import opened Helpers

  /** The id of the `k`-th version: the letter v followed by `k` in decimal. */
  function VersionId(k: nat): string {
    "v" + NatToString(k)
  }

  /** The display label of the `k`-th version: "Version ", `k` in decimal, then ".0". */
  function VersionLabel(k: nat): string {
    "Version " + NatToString(k) + ".0"
  }

  /** Distinct ordinals give distinct ids. */
  lemma VersionIdInjective(a: nat, b: nat)
    requires VersionId(a) == VersionId(b)
    ensures a == b
  {
    assert VersionId(a)[1..] == NatToString(a);
    assert VersionId(b)[1..] == NatToString(b);
    NatToStringInjective(a, b);
  }

  /** How many entries of `vs` have status `current`. */
  function CurrentCount(vs: seq<Version>): nat
    decreases |vs|
  {
    if vs == [] then 0
    else CurrentCount(vs[..|vs| - 1]) + (if vs[|vs| - 1].status == Current then 1 else 0)
  }

  /** The history's invariant: the `k`-th entry carries the `k`-th id and label, and exactly one is current. */
  ghost predicate HistoryValid(vs: seq<Version>) {
    && (forall i :: 0 <= i < |vs| ==> vs[i].id == VersionId(i + 1) && vs[i].version == VersionLabel(i + 1))
    && CurrentCount(vs) == 1
  }

  /** Every stored version marked archived, with nothing else about it changed. */
  function ArchiveAll(vs: seq<Version>): (r: seq<Version>)
    ensures |r| == |vs|
    ensures forall i :: 0 <= i < |vs| ==> r[i].status == Archived && r[i].(status := vs[i].status) == vs[i]
  {
    seq(|vs|, i requires 0 <= i < |vs| => vs[i].(status := Archived))
  }

  /** After archiving, nothing is current. */
  lemma {:induction false} ArchiveAllHasNoCurrent(vs: seq<Version>)
    ensures CurrentCount(ArchiveAll(vs)) == 0
    decreases |vs|
  {
    if vs != [] {
      var front := vs[..|vs| - 1];
      assert ArchiveAll(vs)[..|vs| - 1] == ArchiveAll(front);
      ArchiveAllHasNoCurrent(front);
    }
  }

  /** The entry a commit appends when the history holds `n` versions. */
  function NewVersion(n: nat, pending: Pending, uploadDate: string): (r: Version)
    ensures r.id == VersionId(n + 1) && r.version == VersionLabel(n + 1) && r.status == Current
    ensures r.filename == pending.filename && r.uploadDate == uploadDate && r.ruleCount == |pending.rules|
    ensures r.changes.added == r.ruleCount && r.changes.removed == 0 && r.changes.modified == 0
    ensures r.rules.None?
  {
    Version(
      VersionId(n + 1), VersionLabel(n + 1), pending.filename, uploadDate, |pending.rules|, Current,
      Changes(|pending.rules|, 0, 0), None, None, None)
  }

  /** The history after a commit of `pending`: every stored version archived, one new current one appended. */
  function CommitVersions(vs: seq<Version>, pending: Pending, uploadDate: string): (r: seq<Version>)
    ensures |r| == |vs| + 1
    ensures CurrentCount(r) == 1 && r[|vs|].status == Current
    ensures forall i :: 0 <= i < |vs| ==> r[i].status == Archived && r[i].(status := vs[i].status) == vs[i]
  {
    var archived := ArchiveAll(vs);
    var r := archived + [NewVersion(|vs|, pending, uploadDate)];
    ArchiveAllHasNoCurrent(vs);
    assert r[..|vs|] == archived;
    r
  }

  /** The appended version: id and label from the prior length, the pending filename, one count of
      rules reported as all added, and no rules, score or breaches stored with it. */
  lemma CommittedVersionFields(vs: seq<Version>, pending: Pending, uploadDate: string)
    ensures var v := CommitVersions(vs, pending, uploadDate)[|vs|];
      && v.id == "v" + NatToString(|vs| + 1)
      && v.version == "Version " + NatToString(|vs| + 1) + ".0"
      && v.filename == pending.filename && v.uploadDate == uploadDate
      && v.ruleCount == |pending.rules| && v.changes == Changes(|pending.rules|, 0, 0)
      && v.rules.None? && v.complianceScore.None? && v.breaches.None?
  {
  }

  /** A commit keeps the history's invariant. */
  lemma CommitPreservesHistory(vs: seq<Version>, pending: Pending, uploadDate: string)
    requires HistoryValid(vs)
    ensures HistoryValid(CommitVersions(vs, pending, uploadDate))
  {
    var r := CommitVersions(vs, pending, uploadDate);
    forall i | 0 <= i < |r|
      ensures r[i].id == VersionId(i + 1) && r[i].version == VersionLabel(i + 1)
    {
      if i < |vs| {
        assert r[i].(status := vs[i].status) == vs[i];
      }
    }
  }

  /** In a valid history no two versions share an id. */
  lemma VersionIdsDistinct(vs: seq<Version>)
    requires HistoryValid(vs)
    ensures forall i, j :: 0 <= i < j < |vs| ==> vs[i].id != vs[j].id
  {
    forall i, j | 0 <= i < j < |vs|
      ensures vs[i].id != vs[j].id
    {
      if vs[i].id == vs[j].id {
        VersionIdInjective(i + 1, j + 1);
      }
    }
  }

  /** The id a commit gives its new version is not already taken. */
  lemma NewVersionIdFresh(vs: seq<Version>)
    requires HistoryValid(vs)
    ensures forall i :: 0 <= i < |vs| ==> vs[i].id != VersionId(|vs| + 1)
  {
    forall i | 0 <= i < |vs|
      ensures vs[i].id != VersionId(|vs| + 1)
    {
      if vs[i].id == VersionId(|vs| + 1) {
        VersionIdInjective(i + 1, |vs| + 1);
      }
    }
  }

  /** The position of the first version with that id, if any. */
  function FindVersion(vs: seq<Version>, id: string): (r: Option<nat>)
    ensures r.Some? ==> r.value < |vs| && vs[r.value].id == id
    ensures r.Some? ==> forall j :: 0 <= j < r.value ==> vs[j].id != id
    ensures r.None? <==> forall j :: 0 <= j < |vs| ==> vs[j].id != id
  {
    FindFirst(vs, (v: Version) => v.id == id)
  }

  /** The Rules view: the selected version's rules (none when it has no rule list) through the filter. */
  function PanelRules(vs: seq<Version>, selected: string, query: string, ruleType: string): (r: seq<Rule>)
    ensures FindVersion(vs, selected).None? ==> r == []
    ensures FindVersion(vs, selected).Some? ==> IsSubsequence(r, vs[FindVersion(vs, selected).value].rules.GetOr([]))
  {
    match FindVersion(vs, selected)
    case None => []
    case Some(i) => ShownRules(vs[i].rules.GetOr([]), query, ruleType)
  }

  /** Right after a commit the selected version is the new one, which stores no rules, so the
      Rules view lists nothing whatever the search and type filter. */
  lemma CommittedVersionShowsNoRules(vs: seq<Version>, pending: Pending, uploadDate: string, query: string, ruleType: string)
    requires HistoryValid(vs)
    ensures PanelRules(CommitVersions(vs, pending, uploadDate), VersionId(|vs| + 1), query, ruleType) == []
  {
    var r := CommitVersions(vs, pending, uploadDate);
    CommitPreservesHistory(vs, pending, uploadDate);
    VersionIdsDistinct(r);
    assert r[|vs|].id == VersionId(|vs| + 1);
    assert FindVersion(r, VersionId(|vs| + 1)) == Some(|vs|);
  }

  /** A rule of the demo history, without its source reference. */
  function DemoRule(id: string, name: string, ruleType: string, threshold: string): Rule {
    Rule(id, name, ruleType, threshold, None)
  }

  const CashLimit := DemoRule("R001", "Cash Limit", "Limit", "≤10%")
  const EsgMinimum := DemoRule("R004", "ESG Minimum Rating", "Requirement", "≥BBB")
  const CashBreach := Breach("China Growth Fund", "Cash Limit", "12%", "10%", "High", "Reduce cash position by 2%")

  /** The first demo version. */
  function MockVersion1(): Version {
    Version("v1", "Version 1.0", "IMA_eg1.pdf", "2024-01-15", 18, Archived, Changes(18, 0, 0),
      Some([CashLimit,
            DemoRule("R002", "Equity Concentration", "Restriction", "No single equity >15%"),
            DemoRule("R003", "Geographic Restriction", "Restriction", "China ≤60%")]),
      Some(75), Some([CashBreach]))
  }

  /** The second demo version. */
  function MockVersion2(): Version {
    Version("v2", "Version 2.0", "IMA_eg2.pdf", "2024-02-20", 22, Archived, Changes(6, 2, 3),
      Some([CashLimit,
            DemoRule("R002", "Equity Concentration", "Restriction", "No single equity >12%"),
            DemoRule("R003", "Geographic Restriction", "Restriction", "China ≤55%"),
            EsgMinimum]),
      Some(82),
      Some([CashBreach,
            Breach("Emerging Markets Fund", "Geographic Restriction", "15%", "12%", "Medium", "Reduce Brazil exposure by 3%")]))
  }

  /** The third demo version, the current one. */
  function MockVersion3(): Version {
    Version("v3", "Version 3.0", "IMA_eg3.pdf", "2024-03-10", 24, Current, Changes(3, 1, 4),
      Some([CashLimit,
            DemoRule("R002", "Equity Concentration", "Restriction", "No single equity >12%"),
            DemoRule("R003", "Geographic Restriction - China", "Restriction", "China ≤50%"),
            EsgMinimum,
            DemoRule("R005", "Sector Concentration", "Limit", "≤30% per sector")]),
      Some(67),
      Some([CashBreach,
            Breach("Emerging Markets Fund", "Geographic Restriction - Brazil", "15%", "12%", "Medium", "Reduce Brazil exposure by 3%"),
            Breach("Global Bond Fund", "Duration Limit", "8.2 years", "7.5 years", "Low", "Shorten portfolio duration")]))
  }

  /** The history the page starts from: three versions, the third one current. */
  function MockVersions(): seq<Version> {
    [MockVersion1(), MockVersion2(), MockVersion3()]
  }

  /** The demo history already satisfies the invariant every commit keeps. */
  lemma MockVersionsValid()
    ensures HistoryValid(MockVersions())
  {
    var vs := MockVersions();
    assert NatToString(1) == "1" && NatToString(2) == "2" && NatToString(3) == "3";
    assert vs[..1] == [MockVersion1()] && vs[..2] == [MockVersion1(), MockVersion2()];
    assert CurrentCount(vs[..1]) == 0;
    assert CurrentCount(vs[..2]) == 0;
  }
}
