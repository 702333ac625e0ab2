/**
 * The vote/decision aggregator, `Case.load_votes`: advocates are resolved
 * through the registry, each decision's votes become a tally keyed by justice
 * identifier, and an empty advocates, decisions or votes list marks the case
 * irregular and stops loading.
 */
module Votes {
  import opened Wrappers
  import opened Records
  import opened People
  import opened Cases

  /** The index of the first decision with no votes, or the number of decisions if there is none. */
  function FirstVoteless(decs: seq<DecisionEntry>): (n: nat)
    ensures n <= |decs|
    ensures forall i :: 0 <= i < n ==> |decs[i].votes| > 0
    ensures n < |decs| ==> |decs[n].votes| == 0
  {
    if |decs| == 0 || |decs[0].votes| == 0 then 0 else 1 + FirstVoteless(decs[1..])
  }

  /** Every vote `load_votes` reaches names a member with at least one role entry. */
  predicate VotesHaveRoles(decs: seq<DecisionEntry>)
  {
    forall i, j :: 0 <= i < FirstVoteless(decs) && 0 <= j < |decs[i].votes| ==>
      |decs[i].votes[j].member.roles| > 0
  }

  // ----- Advocates -----

  /** Some entry of `entries` names the advocate `id`. */
  predicate Lists(entries: seq<AdvocateEntry>, id: string)
  {
    exists i :: 0 <= i < |entries| && Names(entries[i], id)
  }

  /** The position of the first entry naming `id`. */
  function FirstIndex(entries: seq<AdvocateEntry>, id: string): (i: nat)
    requires Lists(entries, id)
    ensures i < |entries| && Names(entries[i], id)
    ensures forall j :: 0 <= j < i ==> !Names(entries[j], id)
  {
    if Names(entries[0], id) then 0
    else
      assert Lists(entries[1..], id) by {
        var i :| 0 <= i < |entries| && Names(entries[i], id);
        assert entries[1..][i - 1] == entries[i];
      }
      1 + FirstIndex(entries[1..], id)
  }

  /** The person `_make_advocate` registers for `e`, after `add_case` has recorded `file`. */
  function RegisteredAdvocate(e: AdvocateEntry, file: VoteFile): Person
    requires e.advocate.Some?
  {
    Person(e.advocate.value.identifier, e.advocate.value.name, e.advocate.value.id,
           map[AdvocateRole := Advocate(map[file.docketNumber := Appearance(e.advocateDescription, file.name)])],
           [file.docketNumber])
  }

  datatype AdvocatesLoaded = AdvocatesLoaded(people: Registry, advocates: seq<string>)

  /** The advocates loop of `load_votes`, over the entries not yet processed. */
  function LoadAdvocates(people: Registry, file: VoteFile, entries: seq<AdvocateEntry>): (r: AdvocatesLoaded)
    ensures forall k :: k in r.people <==> k in people || Lists(entries, k)
    ensures forall k :: k in r.advocates <==> k !in people && Lists(entries, k)
    decreases |entries|
  {
    if |entries| == 0 then AdvocatesLoaded(people, [])
    else
      var e := entries[0];
      ListsTail(entries);
      match MakeAdvocate(people, e)
      case Failure(_) =>
        LoadAdvocates(people, file, entries[1..])
      case Success(reg) =>
        var id := e.advocate.value.identifier;
        var reg' := reg[id := AddCase(reg[id], file, AdvocateBlock(e), AdvocateRole)];
        var rest := LoadAdvocates(reg', file, entries[1..]);
        AdvocatesLoaded(rest.people, [id] + rest.advocates)
  }

  /** Registered people are left untouched, and each newly listed advocate holds the appearance of its first entry. */
  lemma {:induction false} LoadAdvocatesRecords(people: Registry, file: VoteFile, entries: seq<AdvocateEntry>)
    ensures var r := LoadAdvocates(people, file, entries);
      && (forall k :: k in people ==> r.people[k] == people[k])
      && (forall k :: k in r.advocates ==> r.people[k] == RegisteredAdvocate(entries[FirstIndex(entries, k)], file))
    decreases |entries|
  {
    if |entries| > 0 {
      var e := entries[0];
      ListsTail(entries);
      match MakeAdvocate(people, e)
      case Failure(_) =>
        LoadAdvocatesRecords(people, file, entries[1..]);
      case Success(reg) =>
        var id := e.advocate.value.identifier;
        var reg' := reg[id := AddCase(reg[id], file, AdvocateBlock(e), AdvocateRole)];
        NewAdvocateRecorded(e, file);
        assert reg'[id] == RegisteredAdvocate(e, file);
        LoadAdvocatesRecords(reg', file, entries[1..]);
    }
  }

  /** What `_make_advocate` followed by `add_case` leaves for a new advocate. */
  lemma NewAdvocateRecorded(e: AdvocateEntry, file: VoteFile)
    requires e.advocate.Some?
    ensures var info := e.advocate.value;
      AddCase(Person(info.identifier, info.name, info.id, map[AdvocateRole := Advocate(map[])], []),
              file, AdvocateBlock(e), AdvocateRole)
      == RegisteredAdvocate(e, file)
  {
    var info := e.advocate.value;
    var p := Person(info.identifier, info.name, info.id, map[AdvocateRole := Advocate(map[])], []);
    var q := AddCase(p, file, AdvocateBlock(e), AdvocateRole);
    assert q.roles == map[AdvocateRole := Advocate(map[file.docketNumber := Appearance(e.advocateDescription, file.name)])];
  }

  lemma ListsTail(entries: seq<AdvocateEntry>)
    requires |entries| > 0
    ensures forall k :: Lists(entries, k) <==> Names(entries[0], k) || Lists(entries[1..], k)
    ensures forall k :: Lists(entries, k) && !Names(entries[0], k) ==>
      && FirstIndex(entries, k) == 1 + FirstIndex(entries[1..], k)
      && entries[FirstIndex(entries, k)] == entries[1..][FirstIndex(entries[1..], k)]
    ensures forall k :: Names(entries[0], k) ==> Lists(entries, k) && FirstIndex(entries, k) == 0
  {
    forall k | Lists(entries, k) && !Names(entries[0], k)
      ensures Lists(entries[1..], k)
    {
      var i :| 0 <= i < |entries| && Names(entries[i], k);
      assert entries[1..][i - 1] == entries[i];
    }
    forall k | Lists(entries[1..], k)
      ensures Lists(entries, k)
    {
      var i :| 0 <= i < |entries[1..]| && Names(entries[1..][i], k);
      assert entries[i + 1] == entries[1..][i];
    }
  }

  /** Identifiers listed once each, in the order of their first entries. */
  ghost predicate FirstOrdered(entries: seq<AdvocateEntry>, ids: seq<string>)
  {
    && (forall x :: x in ids ==> Lists(entries, x))
    && (forall i, j :: 0 <= i < j < |ids| ==> ids[i] != ids[j])
    && (forall i, j :: 0 <= i < j < |ids| ==> FirstIndex(entries, ids[i]) < FirstIndex(entries, ids[j]))
  }

  lemma FirstOrderedCons(entries: seq<AdvocateEntry>, rest: seq<string>)
    requires |entries| > 0
    requires FirstOrdered(entries[1..], rest)
    requires entries[0].advocate.Some? && entries[0].advocate.value.identifier !in rest
    ensures FirstOrdered(entries, [entries[0].advocate.value.identifier] + rest)
  {
    var id := entries[0].advocate.value.identifier;
    var ids := [id] + rest;
    ListsTail(entries);
    forall i, j | 0 <= i < j < |ids|
      ensures ids[i] != ids[j]
      ensures FirstIndex(entries, ids[i]) < FirstIndex(entries, ids[j])
    {
      assert ids[j] == rest[j - 1];
      if i > 0 {
        assert ids[i] == rest[i - 1];
      }
    }
  }

  lemma FirstOrderedSkip(entries: seq<AdvocateEntry>, rest: seq<string>)
    requires |entries| > 0
    requires FirstOrdered(entries[1..], rest)
    requires forall x :: x in rest ==> !Names(entries[0], x)
    ensures FirstOrdered(entries, rest)
  {
    ListsTail(entries);
  }

  /** The advocates are listed once each, in the order of their first entries. */
  lemma {:induction false} LoadAdvocatesOrder(people: Registry, file: VoteFile, entries: seq<AdvocateEntry>)
    ensures FirstOrdered(entries, LoadAdvocates(people, file, entries).advocates)
    decreases |entries|
  {
    if |entries| > 0 {
      var e := entries[0];
      match MakeAdvocate(people, e)
      case Failure(_) =>
        LoadAdvocatesOrder(people, file, entries[1..]);
        FirstOrderedSkip(entries, LoadAdvocates(people, file, entries[1..]).advocates);
      case Success(reg) =>
        var id := e.advocate.value.identifier;
        var reg' := reg[id := AddCase(reg[id], file, AdvocateBlock(e), AdvocateRole)];
        LoadAdvocatesOrder(reg', file, entries[1..]);
        var rest := LoadAdvocates(reg', file, entries[1..]);
        assert LoadAdvocates(people, file, entries).advocates == [id] + rest.advocates;
        FirstOrderedCons(entries, rest.advocates);
    }
  }

  // ----- Votes of one decision -----

  /** The `{ideology, seniority, sided_with}` record of one vote. */
  function VoteOf(v: VoteEntry): Vote
  {
    Vote(v.ideology, v.seniority, v.vote)
  }

  /** Some vote in `votes` was cast by `id`. */
  predicate CastBy(votes: seq<VoteEntry>, id: string)
  {
    exists j :: 0 <= j < |votes| && votes[j].member.identifier == id
  }

  /** No later vote in `votes` is cast by the member who cast vote `j`. */
  predicate LastFor(votes: seq<VoteEntry>, j: nat)
    requires j < |votes|
  {
    forall j' :: j < j' < |votes| ==> votes[j'].member.identifier != votes[j].member.identifier
  }

  /**
   * `m` is `base` with one entry per voter of `votes`; a voter listed twice
   * keeps the later vote, since each vote overwrites the key.
   */
  ghost predicate TallyOver(votes: seq<VoteEntry>, base: map<string, Vote>, m: map<string, Vote>)
  {
    && (forall k :: k in m <==> k in base || CastBy(votes, k))
    && (forall k :: k in base && !CastBy(votes, k) ==> m[k] == base[k])
    && (forall j :: 0 <= j < |votes| && LastFor(votes, j) ==> m[votes[j].member.identifier] == VoteOf(votes[j]))
  }

  predicate MembersHaveRoles(votes: seq<VoteEntry>)
  {
    forall j :: 0 <= j < |votes| ==> |votes[j].member.roles| > 0
  }

  lemma CastByTail(votes: seq<VoteEntry>)
    requires |votes| > 0
    ensures forall k :: CastBy(votes, k) <==> votes[0].member.identifier == k || CastBy(votes[1..], k)
    ensures forall j :: 0 < j < |votes| ==> (LastFor(votes, j) <==> LastFor(votes[1..], j - 1))
    ensures LastFor(votes, 0) <==> !CastBy(votes[1..], votes[0].member.identifier)
  {
    forall k | CastBy(votes, k) && votes[0].member.identifier != k
      ensures CastBy(votes[1..], k)
    {
      var j :| 0 <= j < |votes| && votes[j].member.identifier == k;
      assert votes[1..][j - 1] == votes[j];
    }
    forall k | CastBy(votes[1..], k)
      ensures CastBy(votes, k)
    {
      var j :| 0 <= j < |votes[1..]| && votes[1..][j].member.identifier == k;
      assert votes[j + 1] == votes[1..][j];
    }
    forall j | 0 < j < |votes|
      ensures LastFor(votes, j) <==> LastFor(votes[1..], j - 1)
    {
      if !LastFor(votes, j) {
        var j' :| j < j' < |votes| && votes[j'].member.identifier == votes[j].member.identifier;
        assert votes[1..][j' - 1] == votes[j'];
      }
      if !LastFor(votes[1..], j - 1) {
        var j' :| j - 1 < j' < |votes[1..]| && votes[1..][j'].member.identifier == votes[1..][j - 1].member.identifier;
        assert votes[1..][j'] == votes[j' + 1];
      }
    }
    if !LastFor(votes, 0) {
      var j' :| 0 < j' < |votes| && votes[j'].member.identifier == votes[0].member.identifier;
      assert votes[1..][j' - 1] == votes[j'];
    }
    if CastBy(votes[1..], votes[0].member.identifier) {
      var j :| 0 <= j < |votes[1..]| && votes[1..][j].member.identifier == votes[0].member.identifier;
      assert votes[j + 1] == votes[1..][j];
    }
  }

  /** `add_case` keeps a person's identity and role metadata and only adds ledger entries. */
  lemma AddCaseGrows(p: Person, file: VoteFile, block: Block, role: string)
    requires role in p.roles && CanRecord(p.roles[role], block)
    ensures PersonGrows(p, AddCase(p, file, block, role))
    ensures RolesTagged(p) ==> RolesTagged(AddCase(p, file, block, role))
  {
    var q := AddCase(p, file, block, role);
    assert p.appearedIn <= q.appearedIn;
    forall n | n in p.roles
      ensures RoleGrows(p.roles[n], q.roles[n])
    {
    }
  }

  /** One step of the votes loop: resolve the voter as a justice, then add the vote to their ledger. */
  function CastVote(people: Registry, file: VoteFile, v: VoteEntry): Registry
    requires WellFormed(people) && |v.member.roles| > 0
  {
    var reg := MakeJustice(people, v.member);
    var id := v.member.identifier;
    reg[id := AddCase(reg[id], file, VoteBlock(v), JusticeRole)]
  }

  /** What resolving and recording one vote does to the registry. */
  lemma RecordVote(people: Registry, file: VoteFile, v: VoteEntry)
    requires WellFormed(people) && |v.member.roles| > 0
    ensures var reg' := CastVote(people, file, v);
      var id := v.member.identifier;
      && RegistryGrows(people, reg')
      && WellFormed(reg')
      && JusticeLinked(reg', id, file.docketNumber)
      && reg'[id].roles[JusticeRole].appearances[file.docketNumber] == Appearance(v.member.roles[0].roleTitle, file.name)
      && reg'[id].appearedIn == (if id in people then people[id].appearedIn else []) + [file.docketNumber]
      && (forall k :: k in people && k != id ==> reg'[k] == people[k])
      && reg'.Keys == people.Keys + {id}
  {
    var reg := MakeJustice(people, v.member);
    var id := v.member.identifier;
    var reg' := reg[id := AddCase(reg[id], file, VoteBlock(v), JusticeRole)];
    AddCaseGrows(reg[id], file, VoteBlock(v), JusticeRole);
    assert RegistryGrows(reg, reg');
    RegistryGrowsTransitive(people, reg, reg');
  }

  /**
   * The per-decision vote map: each vote is stored under its voter's
   * identifier, in list order. It depends only on the votes, so it is kept
   * apart from the registry updates of the same loop.
   */
  function Tally(votes: seq<VoteEntry>, base: map<string, Vote>): map<string, Vote>
    decreases |votes|
  {
    if |votes| == 0 then base
    else Tally(votes[1..], base[votes[0].member.identifier := VoteOf(votes[0])])
  }

  /** The tally of one decision: one entry per voter, the later vote winning. */
  lemma {:induction false} TallyMeaning(votes: seq<VoteEntry>, base: map<string, Vote>)
    ensures TallyOver(votes, base, Tally(votes, base))
    decreases |votes|
  {
    if |votes| > 0 {
      var id := votes[0].member.identifier;
      var base' := base[id := VoteOf(votes[0])];
      TallyMeaning(votes[1..], base');
      var m := Tally(votes[1..], base');
      CastByTail(votes);
      forall j | 0 <= j < |votes| && LastFor(votes, j)
        ensures m[votes[j].member.identifier] == VoteOf(votes[j])
      {
        if j > 0 {
          assert votes[1..][j - 1] == votes[j];
        }
      }
    }
  }

  datatype VotesLoaded = VotesLoaded(people: Registry, justices: seq<string>)

  /** The votes loop of `load_votes` for one decision: resolve and record each voter. */
  function LoadVoteEntries(people: Registry, file: VoteFile, votes: seq<VoteEntry>): (r: VotesLoaded)
    requires WellFormed(people) && MembersHaveRoles(votes)
    ensures |r.justices| == |votes|
    ensures forall j :: 0 <= j < |votes| ==> r.justices[j] == votes[j].member.identifier
    ensures WellFormed(r.people)
    decreases |votes|
  {
    if |votes| == 0 then VotesLoaded(people, [])
    else
      var v := votes[0];
      var id := v.member.identifier;
      RecordVote(people, file, v);
      var reg' := CastVote(people, file, v);
      var rest := LoadVoteEntries(reg', file, votes[1..]);
      VotesLoaded(rest.people, [id] + rest.justices)
  }

  /** The registry after one decision's votes: exactly the voters are added, nobody else changes, nobody shrinks. */
  lemma LoadVoteEntriesRegistry(people: Registry, file: VoteFile, votes: seq<VoteEntry>)
    requires WellFormed(people) && MembersHaveRoles(votes)
    ensures var r := LoadVoteEntries(people, file, votes).people;
      && (forall k :: k in r <==> k in people || CastBy(votes, k))
      && (forall k :: k in people && !CastBy(votes, k) ==> r[k] == people[k])
      && RegistryGrows(people, r)
  {
    LoadVoteEntriesKeys(people, file, votes);
    LoadVoteEntriesFrame(people, file, votes);
    LoadVoteEntriesGrows(people, file, votes);
  }

  lemma {:induction false} LoadVoteEntriesKeys(people: Registry, file: VoteFile, votes: seq<VoteEntry>)
    requires WellFormed(people) && MembersHaveRoles(votes)
    ensures var r := LoadVoteEntries(people, file, votes).people;
      forall k :: k in r <==> k in people || CastBy(votes, k)
    decreases |votes|
  {
    if |votes| > 0 {
      RecordVote(people, file, votes[0]);
      var reg' := CastVote(people, file, votes[0]);
      LoadVoteEntriesKeys(reg', file, votes[1..]);
      CastByTail(votes);
    }
  }

  lemma {:induction false} LoadVoteEntriesFrame(people: Registry, file: VoteFile, votes: seq<VoteEntry>)
    requires WellFormed(people) && MembersHaveRoles(votes)
    ensures var r := LoadVoteEntries(people, file, votes).people;
      forall k :: k in people && !CastBy(votes, k) ==> k in r && r[k] == people[k]
    decreases |votes|
  {
    if |votes| > 0 {
      RecordVote(people, file, votes[0]);
      var reg' := CastVote(people, file, votes[0]);
      LoadVoteEntriesFrame(reg', file, votes[1..]);
      CastByTail(votes);
    }
  }

  lemma {:induction false} LoadVoteEntriesGrows(people: Registry, file: VoteFile, votes: seq<VoteEntry>)
    requires WellFormed(people) && MembersHaveRoles(votes)
    ensures RegistryGrows(people, LoadVoteEntries(people, file, votes).people)
    decreases |votes|
  {
    if |votes| > 0 {
      RecordVote(people, file, votes[0]);
      var reg' := CastVote(people, file, votes[0]);
      LoadVoteEntriesGrows(reg', file, votes[1..]);
      RegistryGrowsTransitive(people, reg', LoadVoteEntries(reg', file, votes[1..]).people);
    }
  }

  /** Every voter of a decision ends up a justice with an appearance for the vote file's docket. */
  lemma {:induction false} LoadVoteEntriesLinked(people: Registry, file: VoteFile, votes: seq<VoteEntry>)
    requires WellFormed(people) && MembersHaveRoles(votes)
    ensures forall k :: CastBy(votes, k) ==>
      JusticeLinked(LoadVoteEntries(people, file, votes).people, k, file.docketNumber)
    decreases |votes|
  {
    if |votes| > 0 {
      var id := votes[0].member.identifier;
      RecordVote(people, file, votes[0]);
      var reg' := CastVote(people, file, votes[0]);
      LoadVoteEntriesLinked(reg', file, votes[1..]);
      LoadVoteEntriesGrows(reg', file, votes[1..]);
      var final := LoadVoteEntries(reg', file, votes[1..]).people;
      CastByTail(votes);
      LinksSurviveGrowth(reg', final, id, file.docketNumber);
    }
  }

  /** The registry after the advocates loop is well formed, grown, and links every listed advocate. */
  lemma LoadAdvocatesSound(people: Registry, file: VoteFile, entries: seq<AdvocateEntry>)
    requires WellFormed(people)
    ensures var r := LoadAdvocates(people, file, entries);
      && WellFormed(r.people)
      && RegistryGrows(people, r.people)
      && forall k :: k in r.advocates ==> AdvocateLinked(r.people, k, file.docketNumber)
  {
    var r := LoadAdvocates(people, file, entries);
    LoadAdvocatesRecords(people, file, entries);
    forall k | k in r.people
      ensures r.people[k].identifier == k && RolesTagged(r.people[k])
    {
      if k !in people {
        assert k in r.advocates;
      }
    }
  }

  // ----- A voter's record -----

  /** The number of votes in `votes` cast by `id`. */
  function VotesBy(votes: seq<VoteEntry>, id: string): nat
    decreases |votes|
  {
    if |votes| == 0 then 0
    else (if votes[0].member.identifier == id then 1 else 0) + VotesBy(votes[1..], id)
  }

  /** The position of `id`'s first vote. */
  function FirstVote(votes: seq<VoteEntry>, id: string): (j: nat)
    requires CastBy(votes, id)
    ensures j < |votes| && votes[j].member.identifier == id
    ensures forall i :: 0 <= i < j ==> votes[i].member.identifier != id
    decreases |votes|
  {
    CastByTail(votes);
    if votes[0].member.identifier == id then 0 else 1 + FirstVote(votes[1..], id)
  }

  /** The position of `id`'s last vote. */
  function LastVote(votes: seq<VoteEntry>, id: string): (j: nat)
    requires CastBy(votes, id)
    ensures j < |votes| && votes[j].member.identifier == id && LastFor(votes, j)
    decreases |votes|
  {
    CastByTail(votes);
    if CastBy(votes[1..], id) then 1 + LastVote(votes[1..], id) else 0
  }

  /** `n` copies of `x`. */
  function Repeat(x: string, n: nat): (r: seq<string>)
    ensures |r| == n && forall i :: 0 <= i < n ==> r[i] == x
  {
    seq(n, _ => x)
  }

  /**
   * A person after the votes loop has recorded `count` votes by `id`: the
   * person registered before, or a new one with the name and Oyez ID of
   * `first`; a justice role that, if it is new, takes the appointing president
   * of `first`'s first role; a ledger entry for the file's docket described by
   * `title`; and the docket appended to `appeared_in` once per vote.
   */
  function Enrolled(people: Registry, file: VoteFile, id: string, first: Member, title: string, count: nat): Person
    requires |first.roles| > 0
  {
    var base := if id in people then people[id] else Person(id, first.name, first.id, map[], []);
    var justice := if JusticeRole in base.roles then base.roles[JusticeRole]
                   else Justice(first.roles[0].appointingPresident, map[]);
    base.(roles := base.roles[JusticeRole := justice.AddAppearance(file.docketNumber, Appearance(title, file.name))],
          appearedIn := base.appearedIn + Repeat(file.docketNumber, count))
  }

  /**
   * What the votes loop leaves for voter `id`: the record enrolled with their
   * first vote's member, their last vote's role title and their number of votes.
   */
  function VoterRecord(people: Registry, file: VoteFile, votes: seq<VoteEntry>, id: string): (p: Person)
    requires MembersHaveRoles(votes) && CastBy(votes, id)
    ensures id !in people ==>
      && p.identifier == id
      && p.name == votes[FirstVote(votes, id)].member.name
      && p.oyezId == votes[FirstVote(votes, id)].member.id
    ensures id in people ==> p.(roles := people[id].roles, appearedIn := people[id].appearedIn) == people[id]
    ensures JusticeRole in p.roles && file.docketNumber in p.roles[JusticeRole].appearances
    ensures id !in people || JusticeRole !in people[id].roles ==>
      && p.roles[JusticeRole].Justice?
      && p.roles[JusticeRole].appointedBy == votes[FirstVote(votes, id)].member.roles[0].appointingPresident
    ensures p.roles[JusticeRole].appearances[file.docketNumber]
      == Appearance(votes[LastVote(votes, id)].member.roles[0].roleTitle, file.name)
    ensures p.appearedIn == (if id in people then people[id].appearedIn else []) + Repeat(file.docketNumber, VotesBy(votes, id))
  {
    Enrolled(people, file, id, votes[FirstVote(votes, id)].member,
             votes[LastVote(votes, id)].member.roles[0].roleTitle, VotesBy(votes, id))
  }

  /** One vote leaves its voter enrolled once, described by that vote. */
  lemma CastVoteRecord(people: Registry, file: VoteFile, v: VoteEntry)
    requires WellFormed(people) && |v.member.roles| > 0
    ensures var r := CastVote(people, file, v);
      && v.member.identifier in r
      && r[v.member.identifier] == Enrolled(people, file, v.member.identifier, v.member, v.member.roles[0].roleTitle, 1)
  {
    var id := v.member.identifier;
    assert Repeat(file.docketNumber, 1) == [file.docketNumber];
    var reg := MakeJustice(people, v.member);
    var q := AddCase(reg[id], file, VoteBlock(v), JusticeRole);
    var p := Enrolled(people, file, id, v.member, v.member.roles[0].roleTitle, 1);
    assert q.roles == p.roles;
  }

  /** Enrolling a person again adds the votes up and keeps only the later description. */
  lemma EnrolledAgain(reg: Registry, people: Registry, file: VoteFile, id: string,
                      first: Member, again: Member, t1: string, t2: string, m: nat, n: nat)
    requires |first.roles| > 0 && |again.roles| > 0
    requires id in reg && reg[id] == Enrolled(people, file, id, first, t1, m)
    ensures Enrolled(reg, file, id, again, t2, n) == Enrolled(people, file, id, first, t2, m + n)
  {
    var d := file.docketNumber;
    var base := if id in people then people[id] else Person(id, first.name, first.id, map[], []);
    var justice := if JusticeRole in base.roles then base.roles[JusticeRole]
                   else Justice(first.roles[0].appointingPresident, map[]);
    var q := reg[id];
    assert q.roles[JusticeRole] == justice.AddAppearance(d, Appearance(t1, file.name));
    assert q.roles[JusticeRole].AddAppearance(d, Appearance(t2, file.name)) == justice.AddAppearance(d, Appearance(t2, file.name));
    assert q.roles[JusticeRole := justice.AddAppearance(d, Appearance(t2, file.name))]
        == base.roles[JusticeRole := justice.AddAppearance(d, Appearance(t2, file.name))];
    assert Repeat(d, m) + Repeat(d, n) == Repeat(d, m + n);
    assert q.appearedIn + Repeat(d, n) == base.appearedIn + Repeat(d, m + n);
  }

  lemma {:induction false} VotesByAbsent(votes: seq<VoteEntry>, id: string)
    requires !CastBy(votes, id)
    ensures VotesBy(votes, id) == 0
    decreases |votes|
  {
    if |votes| > 0 {
      CastByTail(votes);
      VotesByAbsent(votes[1..], id);
    }
  }

  /** A voter whose only vote comes first holds the record that one vote leaves. */
  lemma VoterRecordOnce(people: Registry, file: VoteFile, votes: seq<VoteEntry>, id: string)
    requires MembersHaveRoles(votes) && |votes| > 0
    requires votes[0].member.identifier == id && !CastBy(votes[1..], id)
    ensures CastBy(votes, id)
    ensures VoterRecord(people, file, votes, id)
         == Enrolled(people, file, id, votes[0].member, votes[0].member.roles[0].roleTitle, 1)
  {
    CastByTail(votes);
    VotesByAbsent(votes[1..], id);
    assert FirstVote(votes, id) == 0 && LastVote(votes, id) == 0 && VotesBy(votes, id) == 1;
  }

  /** Someone else's vote first leaves a later voter's record as the rest of the list describes it. */
  lemma VoterRecordOther(people: Registry, file: VoteFile, votes: seq<VoteEntry>, id: string)
    requires WellFormed(people) && MembersHaveRoles(votes) && |votes| > 0
    requires votes[0].member.identifier != id && CastBy(votes[1..], id)
    ensures MembersHaveRoles(votes[1..]) && CastBy(votes, id)
    ensures VoterRecord(CastVote(people, file, votes[0]), file, votes[1..], id) == VoterRecord(people, file, votes, id)
  {
    var rest := votes[1..];
    CastByTail(votes);
    CastVoteOthers(people, file, votes[0], id);
    assert votes[FirstVote(votes, id)] == rest[FirstVote(rest, id)];
    assert votes[LastVote(votes, id)] == rest[LastVote(rest, id)];
    assert VotesBy(votes, id) == VotesBy(rest, id);
    EnrolledFrame(CastVote(people, file, votes[0]), people, file, id, rest[FirstVote(rest, id)].member,
                  rest[LastVote(rest, id)].member.roles[0].roleTitle, VotesBy(rest, id));
  }

  /** One vote leaves everyone but its voter as they were, registered or not. */
  lemma CastVoteOthers(people: Registry, file: VoteFile, v: VoteEntry, id: string)
    requires WellFormed(people) && |v.member.roles| > 0 && id != v.member.identifier
    ensures id in CastVote(people, file, v) <==> id in people
    ensures id in people ==> CastVote(people, file, v)[id] == people[id]
  {
    RecordVote(people, file, v);
  }

  /** Enrolling depends on the registry only through the enrolled person's entry. */
  lemma EnrolledFrame(reg: Registry, people: Registry, file: VoteFile, id: string, first: Member, title: string, count: nat)
    requires |first.roles| > 0
    requires id in reg <==> id in people
    requires id in people ==> reg[id] == people[id]
    ensures Enrolled(reg, file, id, first, title, count) == Enrolled(people, file, id, first, title, count)
  {
  }

  /** A repeated vote first: recording it and then the rest leaves the record of the whole list. */
  lemma VoterRecordRepeat(people: Registry, file: VoteFile, votes: seq<VoteEntry>, id: string)
    requires WellFormed(people) && MembersHaveRoles(votes) && |votes| > 0
    requires votes[0].member.identifier == id && CastBy(votes[1..], id)
    ensures MembersHaveRoles(votes[1..]) && CastBy(votes, id)
    ensures VoterRecord(CastVote(people, file, votes[0]), file, votes[1..], id) == VoterRecord(people, file, votes, id)
  {
    var v := votes[0];
    var rest := votes[1..];
    CastByTail(votes);
    CastVoteRecord(people, file, v);
    assert FirstVote(votes, id) == 0;
    assert votes[LastVote(votes, id)] == rest[LastVote(rest, id)];
    assert VotesBy(votes, id) == 1 + VotesBy(rest, id);
    EnrolledAgain(CastVote(people, file, v), people, file, id, v.member, rest[FirstVote(rest, id)].member,
                  v.member.roles[0].roleTitle, rest[LastVote(rest, id)].member.roles[0].roleTitle, 1, VotesBy(rest, id));
  }

  /** After the votes loop, every voter holds exactly the record `VoterRecord` describes. */
  lemma {:induction false} LoadVoteEntriesVoters(people: Registry, file: VoteFile, votes: seq<VoteEntry>)
    requires WellFormed(people) && MembersHaveRoles(votes)
    ensures var r := LoadVoteEntries(people, file, votes).people;
      forall k :: CastBy(votes, k) ==> k in r && r[k] == VoterRecord(people, file, votes, k)
    decreases |votes|
  {
    if |votes| > 0 {
      var v := votes[0];
      RecordVote(people, file, v);
      var reg' := CastVote(people, file, v);
      var rest := votes[1..];
      LoadVoteEntriesVoters(reg', file, rest);
      LoadVoteEntriesFrame(reg', file, rest);
      CastByTail(votes);
      var r := LoadVoteEntries(people, file, votes).people;
      assert r == LoadVoteEntries(reg', file, rest).people;
      forall k | CastBy(votes, k)
        ensures k in r && r[k] == VoterRecord(people, file, votes, k)
      {
        if CastBy(rest, k) {
          if k == v.member.identifier {
            VoterRecordRepeat(people, file, votes, k);
          } else {
            VoterRecordOther(people, file, votes, k);
          }
        } else {
          VoterRecordOnce(people, file, votes, k);
          CastVoteRecord(people, file, v);
        }
      }
    }
  }

  // ----- Decisions -----

  /** The decision record built from one entry, its vote map being the entry's tally. */
  function DecisionOf(d: DecisionEntry): Decision
  {
    Decision(d.description, d.majorityVote, d.minorityVote, d.winningParty, Tally(d.votes, map[]))
  }

  /** `id` voted in one of the decisions `load_votes` reaches. */
  predicate Voted(decs: seq<DecisionEntry>, id: string)
  {
    exists i :: 0 <= i < FirstVoteless(decs) && CastBy(decs[i].votes, id)
  }

  /** The voters of `votes`, in list order. */
  function Voters(votes: seq<VoteEntry>): (ids: seq<string>)
    ensures |ids| == |votes|
    ensures forall j :: 0 <= j < |votes| ==> ids[j] == votes[j].member.identifier
  {
    seq(|votes|, j requires 0 <= j < |votes| => votes[j].member.identifier)
  }

  /** The voters of every decision in `decs`, decision after decision, repeats kept. */
  function VotersOf(decs: seq<DecisionEntry>): seq<string>
  {
    if |decs| == 0 then [] else Voters(decs[0].votes) + VotersOf(decs[1..])
  }

  lemma DecisionsTail(decs: seq<DecisionEntry>)
    requires |decs| > 0 && |decs[0].votes| > 0
    ensures FirstVoteless(decs) == 1 + FirstVoteless(decs[1..])
    ensures VotesHaveRoles(decs) ==> MembersHaveRoles(decs[0].votes) && VotesHaveRoles(decs[1..])
    ensures var n := FirstVoteless(decs); decs[..n] == [decs[0]] + decs[1..][..n - 1]
  {
    var n := FirstVoteless(decs);
    assert decs[..n] == [decs[0]] + decs[1..][..n - 1];
    if VotesHaveRoles(decs) {
      forall i, j | 0 <= i < FirstVoteless(decs[1..]) && 0 <= j < |decs[1..][i].votes|
        ensures |decs[1..][i].votes[j].member.roles| > 0
      {
        assert decs[1..][i] == decs[i + 1];
      }
    }
  }

  lemma VotedTail(decs: seq<DecisionEntry>)
    requires |decs| > 0 && |decs[0].votes| > 0
    ensures forall k :: Voted(decs, k) <==> CastBy(decs[0].votes, k) || Voted(decs[1..], k)
  {
    var n := FirstVoteless(decs);
    assert n == 1 + FirstVoteless(decs[1..]);
    forall k | Voted(decs, k) && !CastBy(decs[0].votes, k)
      ensures Voted(decs[1..], k)
    {
      var i :| 0 <= i < n && CastBy(decs[i].votes, k);
      assert decs[1..][i - 1] == decs[i];
    }
    forall k | Voted(decs[1..], k)
      ensures Voted(decs, k)
    {
      var i :| 0 <= i < FirstVoteless(decs[1..]) && CastBy(decs[1..][i].votes, k);
      assert decs[i + 1] == decs[1..][i];
    }
  }

  datatype DecisionsLoaded = DecisionsLoaded(
    people: Registry,
    decisions: seq<Decision>,
    justices: seq<string>,
    aborted: bool)

  /**
   * The decisions loop of `load_votes`. A decision without votes aborts the
   * loop; the decisions appended before it stay.
   */
  function LoadDecisions(people: Registry, file: VoteFile, decs: seq<DecisionEntry>): (r: DecisionsLoaded)
    requires WellFormed(people) && VotesHaveRoles(decs)
    ensures r.aborted <==> FirstVoteless(decs) < |decs|
    ensures |r.decisions| == FirstVoteless(decs)
    ensures WellFormed(r.people)
    decreases |decs|
  {
    if |decs| == 0 then DecisionsLoaded(people, [], [], false)
    else if |decs[0].votes| == 0 then DecisionsLoaded(people, [], [], true)
    else
      DecisionsTail(decs);
      var v := LoadVoteEntries(people, file, decs[0].votes);
      var rest := LoadDecisions(v.people, file, decs[1..]);
      DecisionsLoaded(rest.people, [DecisionOf(decs[0])] + rest.decisions, v.justices + rest.justices, rest.aborted)
  }

  /** The decisions loop records, in order, the decision of every entry before the first voteless one. */
  lemma {:induction false} LoadDecisionsRead(people: Registry, file: VoteFile, decs: seq<DecisionEntry>)
    requires WellFormed(people) && VotesHaveRoles(decs)
    ensures var r := LoadDecisions(people, file, decs);
      forall i :: 0 <= i < |r.decisions| ==> r.decisions[i] == DecisionOf(decs[i])
    decreases |decs|
  {
    if |decs| > 0 && |decs[0].votes| > 0 {
      DecisionsTail(decs);
      var v := LoadVoteEntries(people, file, decs[0].votes);
      LoadDecisionsRead(v.people, file, decs[1..]);
      var rest := LoadDecisions(v.people, file, decs[1..]);
      ReadStep(LoadDecisions(people, file, decs).decisions, rest.decisions, decs);
    }
  }

  lemma ReadStep(ds: seq<Decision>, rest: seq<Decision>, decs: seq<DecisionEntry>)
    requires |decs| > 0 && ds == [DecisionOf(decs[0])] + rest && |rest| < |decs|
    requires forall i :: 0 <= i < |rest| ==> rest[i] == DecisionOf(decs[1..][i])
    ensures forall i :: 0 <= i < |ds| ==> ds[i] == DecisionOf(decs[i])
  {
    forall i | 1 <= i < |ds|
      ensures ds[i] == DecisionOf(decs[i])
    {
      assert ds[i] == rest[i - 1];
      assert decs[1..][i - 1] == decs[i];
    }
  }

  /** The votes of the decisions `decs`, decision after decision. */
  function VotesOf(decs: seq<DecisionEntry>): seq<VoteEntry>
  {
    if |decs| == 0 then [] else decs[0].votes + VotesOf(decs[1..])
  }

  /** The votes `load_votes` reaches: those of the decisions before the first voteless one, in order. */
  function ReachedVotes(decs: seq<DecisionEntry>): seq<VoteEntry>
  {
    VotesOf(decs[..FirstVoteless(decs)])
  }

  lemma ReachedVotesTail(decs: seq<DecisionEntry>)
    requires |decs| > 0 && |decs[0].votes| > 0
    ensures ReachedVotes(decs) == decs[0].votes + ReachedVotes(decs[1..])
  {
    DecisionsTail(decs);
    var n := FirstVoteless(decs);
    assert ([decs[0]] + decs[1..][..n - 1])[1..] == decs[1..][..n - 1];
  }

  lemma CastByAppend(a: seq<VoteEntry>, b: seq<VoteEntry>)
    ensures forall k :: CastBy(a + b, k) <==> CastBy(a, k) || CastBy(b, k)
  {
    forall k | CastBy(a + b, k)
      ensures CastBy(a, k) || CastBy(b, k)
    {
      var j :| 0 <= j < |a + b| && (a + b)[j].member.identifier == k;
      if j >= |a| {
        assert b[j - |a|] == (a + b)[j];
      }
    }
    forall k | CastBy(a, k) || CastBy(b, k)
      ensures CastBy(a + b, k)
    {
      if CastBy(a, k) {
        var j :| 0 <= j < |a| && a[j].member.identifier == k;
        assert (a + b)[j] == a[j];
      } else {
        var j :| 0 <= j < |b| && b[j].member.identifier == k;
        assert (a + b)[|a| + j] == b[j];
      }
    }
  }

  /** A voter of the reached votes is exactly someone who voted in a reached decision. */
  lemma {:induction false} ReachedCastBy(decs: seq<DecisionEntry>)
    ensures forall k :: CastBy(ReachedVotes(decs), k) <==> Voted(decs, k)
    decreases |decs|
  {
    if |decs| == 0 || |decs[0].votes| == 0 {
      assert decs[..FirstVoteless(decs)] == [];
    } else {
      ReachedVotesTail(decs);
      VotedTail(decs);
      CastByAppend(decs[0].votes, ReachedVotes(decs[1..]));
      ReachedCastBy(decs[1..]);
    }
  }

  lemma MembersHaveRolesAppend(a: seq<VoteEntry>, b: seq<VoteEntry>)
    requires MembersHaveRoles(a) && MembersHaveRoles(b)
    ensures MembersHaveRoles(a + b)
  {
    forall j | 0 <= j < |a + b|
      ensures |(a + b)[j].member.roles| > 0
    {
      if j >= |a| {
        assert (a + b)[j] == b[j - |a|];
      }
    }
  }

  /** The votes loop over two lists in a row is the loop over their concatenation. */
  lemma {:induction false} LoadVoteEntriesAppend(people: Registry, file: VoteFile, a: seq<VoteEntry>, b: seq<VoteEntry>)
    requires WellFormed(people) && MembersHaveRoles(a) && MembersHaveRoles(b)
    ensures MembersHaveRoles(a + b)
    ensures LoadVoteEntries(people, file, a + b).people
         == LoadVoteEntries(LoadVoteEntries(people, file, a).people, file, b).people
    decreases |a|
  {
    MembersHaveRolesAppend(a, b);
    if |a| == 0 {
      assert a + b == b;
    } else {
      assert (a + b)[0] == a[0];
      assert (a + b)[1..] == a[1..] + b;
      RecordVote(people, file, a[0]);
      LoadVoteEntriesAppend(CastVote(people, file, a[0]), file, a[1..], b);
    }
  }

  /** The decisions loop leaves the registry the votes loop leaves over all reached votes in order. */
  lemma {:induction false} LoadDecisionsAsVotes(people: Registry, file: VoteFile, decs: seq<DecisionEntry>)
    requires WellFormed(people) && VotesHaveRoles(decs)
    ensures MembersHaveRoles(ReachedVotes(decs))
    ensures LoadDecisions(people, file, decs).people == LoadVoteEntries(people, file, ReachedVotes(decs)).people
    decreases |decs|
  {
    if |decs| == 0 || |decs[0].votes| == 0 {
      assert decs[..FirstVoteless(decs)] == [];
    } else {
      DecisionsTail(decs);
      ReachedVotesTail(decs);
      var v := LoadVoteEntries(people, file, decs[0].votes);
      LoadDecisionsAsVotes(v.people, file, decs[1..]);
      LoadVoteEntriesAppend(people, file, decs[0].votes, ReachedVotes(decs[1..]));
    }
  }

  /** After the decisions loop, every voter of a reached decision holds exactly their `VoterRecord` over all reached votes. */
  lemma LoadDecisionsVoterRecords(people: Registry, file: VoteFile, decs: seq<DecisionEntry>)
    requires WellFormed(people) && VotesHaveRoles(decs)
    ensures MembersHaveRoles(ReachedVotes(decs))
    ensures forall k :: CastBy(ReachedVotes(decs), k) <==> Voted(decs, k)
    ensures var r := LoadDecisions(people, file, decs).people;
      forall k :: CastBy(ReachedVotes(decs), k) ==> k in r && r[k] == VoterRecord(people, file, ReachedVotes(decs), k)
  {
    LoadDecisionsAsVotes(people, file, decs);
    ReachedCastBy(decs);
    LoadVoteEntriesVoters(people, file, ReachedVotes(decs));
  }

  /** The justices list and the registry after the decisions loop: exactly the voters of the reached decisions are added. */
  lemma LoadDecisionsVoters(people: Registry, file: VoteFile, decs: seq<DecisionEntry>)
    requires WellFormed(people) && VotesHaveRoles(decs)
    ensures var r := LoadDecisions(people, file, decs);
      && (forall k :: k in r.justices <==> Voted(decs, k))
      && r.justices == VotersOf(decs[..FirstVoteless(decs)])
      && (forall k :: k in r.people <==> k in people || Voted(decs, k))
      && (forall k :: k in people && !Voted(decs, k) ==> r.people[k] == people[k])
      && RegistryGrows(people, r.people)
    ensures MembersHaveRoles(ReachedVotes(decs))
    ensures forall k :: CastBy(ReachedVotes(decs), k) <==> Voted(decs, k)
    ensures var r := LoadDecisions(people, file, decs).people;
      forall k :: CastBy(ReachedVotes(decs), k) ==> k in r && r[k] == VoterRecord(people, file, ReachedVotes(decs), k)
  {
    LoadDecisionsVoterRecords(people, file, decs);
    LoadDecisionsJustices(people, file, decs);
    LoadDecisionsJusticeOrder(people, file, decs);
    LoadDecisionsKeys(people, file, decs);
    LoadDecisionsFrame(people, file, decs);
    LoadDecisionsGrows(people, file, decs);
  }

  lemma {:induction false} LoadDecisionsJustices(people: Registry, file: VoteFile, decs: seq<DecisionEntry>)
    requires WellFormed(people) && VotesHaveRoles(decs)
    ensures forall k :: k in LoadDecisions(people, file, decs).justices <==> Voted(decs, k)
    decreases |decs|
  {
    if |decs| > 0 && |decs[0].votes| > 0 {
      DecisionsTail(decs);
      VotedTail(decs);
      var v := LoadVoteEntries(people, file, decs[0].votes);
      LoadDecisionsJustices(v.people, file, decs[1..]);
      forall k | CastBy(decs[0].votes, k)
        ensures k in v.justices
      {
        var j :| 0 <= j < |decs[0].votes| && decs[0].votes[j].member.identifier == k;
        assert v.justices[j] == k;
      }
    }
  }

  lemma {:induction false} LoadDecisionsJusticeOrder(people: Registry, file: VoteFile, decs: seq<DecisionEntry>)
    requires WellFormed(people) && VotesHaveRoles(decs)
    ensures LoadDecisions(people, file, decs).justices == VotersOf(decs[..FirstVoteless(decs)])
    decreases |decs|
  {
    if |decs| == 0 || |decs[0].votes| == 0 {
      assert decs[..FirstVoteless(decs)] == [];
    } else {
      DecisionsTail(decs);
      var v := LoadVoteEntries(people, file, decs[0].votes);
      LoadDecisionsJusticeOrder(v.people, file, decs[1..]);
      assert v.justices == Voters(decs[0].votes);
      var n := FirstVoteless(decs);
      assert ([decs[0]] + decs[1..][..n - 1])[1..] == decs[1..][..n - 1];
    }
  }

  lemma {:induction false} LoadDecisionsKeys(people: Registry, file: VoteFile, decs: seq<DecisionEntry>)
    requires WellFormed(people) && VotesHaveRoles(decs)
    ensures forall k :: k in LoadDecisions(people, file, decs).people <==> k in people || Voted(decs, k)
    decreases |decs|
  {
    if |decs| > 0 && |decs[0].votes| > 0 {
      DecisionsTail(decs);
      VotedTail(decs);
      var v := LoadVoteEntries(people, file, decs[0].votes);
      LoadVoteEntriesKeys(people, file, decs[0].votes);
      LoadDecisionsKeys(v.people, file, decs[1..]);
    }
  }

  lemma {:induction false} LoadDecisionsFrame(people: Registry, file: VoteFile, decs: seq<DecisionEntry>)
    requires WellFormed(people) && VotesHaveRoles(decs)
    ensures var r := LoadDecisions(people, file, decs).people;
      forall k :: k in people && !Voted(decs, k) ==> k in r && r[k] == people[k]
    decreases |decs|
  {
    if |decs| > 0 && |decs[0].votes| > 0 {
      DecisionsTail(decs);
      VotedTail(decs);
      var v := LoadVoteEntries(people, file, decs[0].votes);
      LoadVoteEntriesFrame(people, file, decs[0].votes);
      LoadDecisionsFrame(v.people, file, decs[1..]);
    }
  }

  lemma {:induction false} LoadDecisionsGrows(people: Registry, file: VoteFile, decs: seq<DecisionEntry>)
    requires WellFormed(people) && VotesHaveRoles(decs)
    ensures RegistryGrows(people, LoadDecisions(people, file, decs).people)
    decreases |decs|
  {
    if |decs| > 0 && |decs[0].votes| > 0 {
      DecisionsTail(decs);
      var v := LoadVoteEntries(people, file, decs[0].votes);
      LoadVoteEntriesGrows(people, file, decs[0].votes);
      LoadDecisionsGrows(v.people, file, decs[1..]);
      RegistryGrowsTransitive(people, v.people, LoadDecisions(v.people, file, decs[1..]).people);
    }
  }

  /** Everyone who voted in a reached decision is a justice with an appearance for the file's docket. */
  lemma {:induction false} LoadDecisionsLinked(people: Registry, file: VoteFile, decs: seq<DecisionEntry>)
    requires WellFormed(people) && VotesHaveRoles(decs)
    ensures forall k :: Voted(decs, k) ==>
      JusticeLinked(LoadDecisions(people, file, decs).people, k, file.docketNumber)
    decreases |decs|
  {
    if |decs| > 0 && |decs[0].votes| > 0 {
      DecisionsTail(decs);
      VotedTail(decs);
      var v := LoadVoteEntries(people, file, decs[0].votes);
      LoadVoteEntriesLinked(people, file, decs[0].votes);
      LoadDecisionsLinked(v.people, file, decs[1..]);
      LoadDecisionsGrows(v.people, file, decs[1..]);
      var final := LoadDecisions(v.people, file, decs[1..]).people;
      forall k | CastBy(decs[0].votes, k)
        ensures JusticeLinked(final, k, file.docketNumber)
      {
        LinksSurviveGrowth(v.people, final, k, file.docketNumber);
      }
    }
  }

  // ----- load_votes -----

  /** The case and the registry after `load_votes`. */
  datatype VotesApplied = VotesApplied(c: Case, people: Registry)

  /** The vote file's ID matches the case summary's ID. */
  predicate Matches(c: Case, file: VoteFile)
    requires c.summary.Some?
  {
    file.id == c.summary.value.oyezId
  }

  /**
   * `Case.load_votes`. An ID mismatch marks the case irregular and changes
   * nothing else; an empty advocates list leaves `advocates` empty and marks it
   * irregular; an empty decisions list leaves `decisions` and `justices` empty
   * and marks it irregular; a decision without votes marks it irregular and
   * keeps the decisions read before it.
   */
  function LoadVotes(c: Case, people: Registry, file: VoteFile): (r: VotesApplied)
    requires c.summary.Some? && WellFormed(people)
    requires Matches(c, file) && |file.advocates| > 0 ==> VotesHaveRoles(file.decisions)
    ensures WellFormed(r.people)
    ensures r.c.(irregular := c.irregular, advocates := c.advocates, decisions := c.decisions, justices := c.justices) == c
  {
    if !Matches(c, file) then VotesApplied(c.(irregular := true), people)
    else if |file.advocates| == 0 then VotesApplied(c.(irregular := true, advocates := Some([])), people)
    else
      LoadAdvocatesSound(people, file, file.advocates);
      var a := LoadAdvocates(people, file, file.advocates);
      var c' := c.(advocates := Some(a.advocates), decisions := Some([]), justices := Some([]));
      if |file.decisions| == 0 then VotesApplied(c'.(irregular := true), a.people)
      else
        var d := LoadDecisions(a.people, file, file.decisions);
        VotesApplied(c'.(decisions := Some(d.decisions), justices := Some(d.justices), irregular := c.irregular || d.aborted), d.people)
  }

  /** When `load_votes` marks the case irregular, and that a mismatched file leaves everything else alone. */
  lemma LoadVotesIrregular(c: Case, people: Registry, file: VoteFile)
    requires c.summary.Some? && WellFormed(people)
    requires Matches(c, file) && |file.advocates| > 0 ==> VotesHaveRoles(file.decisions)
    ensures var r := LoadVotes(c, people, file);
      r.c.irregular <==>
        || c.irregular
        || !Matches(c, file)
        || |file.advocates| == 0
        || |file.decisions| == 0
        || FirstVoteless(file.decisions) < |file.decisions|
    ensures !Matches(c, file) ==> LoadVotes(c, people, file) == VotesApplied(c.(irregular := true), people)
  {
  }

  /** The advocates, decisions and justices a matching file leaves on the case. */
  lemma LoadVotesContents(c: Case, people: Registry, file: VoteFile)
    requires c.summary.Some? && WellFormed(people)
    requires Matches(c, file) && |file.advocates| > 0 ==> VotesHaveRoles(file.decisions)
    requires Matches(c, file)
    ensures var r := LoadVotes(c, people, file);
      && r.c.advocates.Some?
      && (forall k :: k in r.c.advocates.value <==> k !in people && Lists(file.advocates, k))
      && FirstOrdered(file.advocates, r.c.advocates.value)
    ensures var r := LoadVotes(c, people, file);
      |file.advocates| > 0 ==>
        && r.c.decisions.Some? && r.c.justices.Some?
        && |r.c.decisions.value| == FirstVoteless(file.decisions)
        && (forall i :: 0 <= i < |r.c.decisions.value| ==> r.c.decisions.value[i] == DecisionOf(file.decisions[i]))
        && (forall k :: k in r.c.justices.value <==> Voted(file.decisions, k))
        && r.c.justices.value == VotersOf(file.decisions[..FirstVoteless(file.decisions)])
    ensures |file.advocates| == 0 ==>
      && LoadVotes(c, people, file).c.decisions == c.decisions
      && LoadVotes(c, people, file).c.justices == c.justices
      && LoadVotes(c, people, file).people == people
  {
    if |file.advocates| > 0 {
      LoadAdvocatesOrder(people, file, file.advocates);
      if |file.decisions| > 0 {
        LoadAdvocatesSound(people, file, file.advocates);
        var a := LoadAdvocates(people, file, file.advocates);
        LoadDecisionsVoters(a.people, file, file.decisions);
        LoadDecisionsRead(a.people, file, file.decisions);
      }
    }
  }

  /**
   * What `load_votes` does to the registry: it gains the new advocates and
   * the voters of the reached decisions, and nobody else changes. A new
   * advocate who does not also vote is exactly what `_make_advocate` and
   * `add_case` register.
   */
  lemma LoadVotesRegistry(c: Case, people: Registry, file: VoteFile)
    requires c.summary.Some? && WellFormed(people)
    requires Matches(c, file) && |file.advocates| > 0 ==> VotesHaveRoles(file.decisions)
    ensures var r := LoadVotes(c, people, file).people;
      var voters := if Matches(c, file) && |file.advocates| > 0
                    then VotersOf(file.decisions[..FirstVoteless(file.decisions)]) else [];
      && (forall k :: k in r <==> k in people || (Matches(c, file) && Lists(file.advocates, k)) || k in voters)
      && (forall k :: k in people && k !in voters ==> r[k] == people[k])
      && (forall k :: Matches(c, file) && k !in people && Lists(file.advocates, k) && k !in voters ==>
            r[k] == RegisteredAdvocate(file.advocates[FirstIndex(file.advocates, k)], file))
    ensures Matches(c, file) && |file.advocates| > 0 ==>
      && MembersHaveRoles(ReachedVotes(file.decisions))
      && forall k :: CastBy(ReachedVotes(file.decisions), k) <==> k in VotersOf(file.decisions[..FirstVoteless(file.decisions)])
    ensures var r := LoadVotes(c, people, file).people;
      Matches(c, file) && |file.advocates| > 0 && MembersHaveRoles(ReachedVotes(file.decisions)) ==>
        forall k :: CastBy(ReachedVotes(file.decisions), k) ==>
          k in r && r[k] == VoterRecord(LoadAdvocates(people, file, file.advocates).people, file, ReachedVotes(file.decisions), k)
  {
    if Matches(c, file) && |file.advocates| > 0 {
      LoadAdvocatesSound(people, file, file.advocates);
      LoadAdvocatesRecords(people, file, file.advocates);
      var a := LoadAdvocates(people, file, file.advocates);
      if |file.decisions| == 0 {
        assert file.decisions[..FirstVoteless(file.decisions)] == [];
      } else {
        LoadDecisionsVoters(a.people, file, file.decisions);
      }
    }
  }

  /**
   * After `load_votes` nobody has left the registry or lost a ledger entry,
   * every listed advocate has an advocate appearance for the file's docket and
   * every listed justice a justice appearance.
   */
  lemma {:induction false} LoadVotesLinked(c: Case, people: Registry, file: VoteFile)
    requires c.summary.Some? && WellFormed(people)
    requires Matches(c, file) && |file.advocates| > 0 ==> VotesHaveRoles(file.decisions)
    ensures var r := LoadVotes(c, people, file);
      && RegistryGrows(people, r.people)
      && (Matches(c, file) ==>
            && r.c.advocates.Some?
            && forall k :: k in r.c.advocates.value ==> AdvocateLinked(r.people, k, file.docketNumber))
      && (Matches(c, file) && |file.advocates| > 0 ==>
            && r.c.justices.Some?
            && forall k :: k in r.c.justices.value ==> JusticeLinked(r.people, k, file.docketNumber))
  {
    var r := LoadVotes(c, people, file);
    if Matches(c, file) && |file.advocates| > 0 {
      LoadAdvocatesSound(people, file, file.advocates);
      var a := LoadAdvocates(people, file, file.advocates);
      if |file.decisions| > 0 {
        LoadDecisionsVoters(a.people, file, file.decisions);
        LoadDecisionsLinked(a.people, file, file.decisions);
        var d := LoadDecisions(a.people, file, file.decisions);
        assert r.people == d.people;
        RegistryGrowsTransitive(people, a.people, d.people);
        forall k | k in a.advocates
          ensures AdvocateLinked(d.people, k, file.docketNumber)
        {
          LinksSurviveGrowth(a.people, d.people, k, file.docketNumber);
        }
      }
    } else {
      assert r.people == people;
    }
  }
}
