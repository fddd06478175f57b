/** The scanner's report entries and how a report orders them: `getSeverityScore` and the
    stable sort by descending score. */
module Findings {
  import opened StableSort

  datatype FindingType = FlagType | SuspiciousType | MetadataType | InfoType

  datatype Severity = Critical | High | Medium | Low | Info

  datatype Finding = Finding(
    kind: FindingType,
    content: string,
    description: string,
    severity: Severity,
    via: string)

  /** `getSeverityScore`: critical 5, high 4, medium 3, low 2, anything else 1. */
  function Score(s: Severity): (n: int)
    ensures 1 <= n <= 5
  {
    match s
    case Critical => 5
    case High => 4
    case Medium => 3
    case Low => 2
    case Info => 1
  }

  /** Each score belongs to one severity only, so ordering by score is ordering by severity. */
  lemma ScoreInjective(a: Severity, b: Severity)
    requires Score(a) == Score(b)
    ensures a == b
  {
  }

  function FindingScore(f: Finding): int
  {
    Score(f.severity)
  }

  /** `findings.sort((a, b) => score(b.severity) - score(a.severity))`: the same findings,
      most severe first. */
  function SortFindings(fs: seq<Finding>): (r: seq<Finding>)
    ensures multiset(r) == multiset(fs)
    ensures SortedDesc(r, FindingScore)
  {
    SortPermutes(fs, FindingScore);
    SortOrders(fs, FindingScore);
    SortDesc(fs, FindingScore)
  }

  /** Findings of one severity keep the order in which the scanners produced them. */
  lemma SortFindingsStable(fs: seq<Finding>, s: Severity)
    ensures WithKey(SortFindings(fs), FindingScore, Score(s)) == WithKey(fs, FindingScore, Score(s))
  {
    SortStable(fs, FindingScore, Score(s));
  }

  /** Findings already in order are reported as they are. */
  lemma SortFindingsSorted(fs: seq<Finding>)
    requires SortedDesc(fs, FindingScore)
    ensures SortFindings(fs) == fs
  {
    SortSorted(fs, FindingScore);
  }
}
