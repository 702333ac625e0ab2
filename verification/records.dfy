/**
 * The raw documents the loader consumes, in the shape the JSON decoder hands
 * them over: entries of the case-summary file and per-case vote files. Values
 * the loader copies without inspecting (ideology scores, citation parts) are
 * kept as text.
 */
module Records {
  import opened Wrappers

  /** One `timeline` entry of a summary: an event label and its epoch timestamps. */
  datatype EventRecord = EventRecord(event: string, dates: seq<int>)

  /** One entry of the case-summary file (entries without a citation never reach the core). */
  datatype SummaryRecord = SummaryRecord(
    docketNumber: string,
    id: int,
    volume: string,
    page: string,
    name: string,
    question: string,
    description: string,
    justiaUrl: string,
    timeline: seq<EventRecord>)

  /** One element of a member's `roles` list. */
  datatype RoleEntry = RoleEntry(roleTitle: string, appointingPresident: string)

  /** The `member` block of a vote: the voting justice. */
  datatype Member = Member(identifier: string, name: string, id: int, roles: seq<RoleEntry>)

  /** One element of a decision's `votes` list. */
  datatype VoteEntry = VoteEntry(member: Member, ideology: string, seniority: int, vote: string)

  /** One element of a vote file's `decisions` list. */
  datatype DecisionEntry = DecisionEntry(
    description: string,
    majorityVote: int,
    minorityVote: int,
    winningParty: string,
    votes: seq<VoteEntry>)

  /** The `advocate` block of an advocate entry. */
  datatype AdvocateInfo = AdvocateInfo(identifier: string, name: string, id: int)

  /** One element of a vote file's `advocates` list; its `advocate` block may be `null`. */
  datatype AdvocateEntry = AdvocateEntry(advocate: Option<AdvocateInfo>, advocateDescription: string)

  /** The entry's `advocate` block is present and carries the identifier `id`. */
  predicate Names(e: AdvocateEntry, id: string)
  {
    e.advocate.Some? && e.advocate.value.identifier == id
  }

  /** A per-case vote file. */
  datatype VoteFile = VoteFile(
    id: int,
    docketNumber: string,
    name: string,
    advocates: seq<AdvocateEntry>,
    decisions: seq<DecisionEntry>)
}
