/**
 * The case collection, `CaseCorpus`: a dictionary of cases keyed by
 * identifier, a secondary index from docket to the keys stored under it,
 * the summary list cases are matched against, and the shared people registry.
 * `build` admits cases from a list of identifiers; `build_votes` dispatches
 * vote files to the case their docket names.
 */
module Corpus {
  import opened Wrappers
  import opened Strings
  import opened Records
  import opened People
  import opened Cases
  import opened Votes

  datatype Corpus = Corpus(
    cases: map<string, Case>,
    index: map<string, seq<string>>,
    summaries: seq<SummaryRecord>,
    people: Registry)

  /** A new corpus over a summary list: no cases, no index entries, nobody registered. */
  function Empty(summaries: seq<SummaryRecord>): (c: Corpus)
    ensures c.summaries == summaries && |c.cases| == 0
    ensures forall d :: KeysFor(c, d) == []
    ensures Consistent(c) && c.people == map[] && WellFormed(c.people)
  {
    Corpus(map[], map[], summaries, map[])
  }

  // ----- The docket index -----

  /** The keys listed for `docket`, or none. */
  function KeysFor(c: Corpus, docket: string): seq<string>
  {
    if docket in c.index then c.index[docket] else []
  }

  /**
   * The index agrees with the cases: every listed key holds a case with that
   * docket, and every stored case is listed under its docket.
   */
  ghost predicate Consistent(c: Corpus)
  {
    && (forall d, i :: d in c.index && 0 <= i < |c.index[d]| ==>
          c.index[d][i] in c.cases && c.cases[c.index[d][i]].docket == d)
    && (forall k :: k in c.cases ==> k in KeysFor(c, c.cases[k].docket))
  }

  /** `CaseCorpus.__setitem__`: store the case and append its key to its docket's list, duplicates kept. */
  function SetItem(c: Corpus, key: string, value: Case): (r: Corpus)
    ensures r.cases == c.cases[key := value]
    ensures r.summaries == c.summaries && r.people == c.people
  {
    var keys := KeysFor(c, value.docket);
    c.(cases := c.cases[key := value], index := c.index[value.docket := keys + [key]])
  }

  /** What storing a case does to the index: its key is appended under its docket and no other list changes. */
  lemma SetItemIndex(c: Corpus, key: string, value: Case)
    ensures KeysFor(SetItem(c, key, value), value.docket) == KeysFor(c, value.docket) + [key]
    ensures forall d :: d != value.docket ==> KeysFor(SetItem(c, key, value), d) == KeysFor(c, d)
  {
  }

  /** Storing a case keeps the index consistent unless it replaces a case of another docket under the same key. */
  lemma SetItemConsistent(c: Corpus, key: string, value: Case)
    requires Consistent(c)
    requires key in c.cases ==> c.cases[key].docket == value.docket
    ensures Consistent(SetItem(c, key, value))
  {
    var r := SetItem(c, key, value);
    forall d, i | d in r.index && 0 <= i < |r.index[d]|
      ensures r.index[d][i] in r.cases && r.cases[r.index[d][i]].docket == d
    {
      if d == value.docket && i == |r.index[d]| - 1 {
        assert r.index[d][i] == key;
      } else if d == value.docket {
        assert r.index[d][i] == KeysFor(c, d)[i];
      }
    }
    forall k | k in r.cases
      ensures k in KeysFor(r, r.cases[k].docket)
    {
      if k != key {
        var d := c.cases[k].docket;
        assert k in KeysFor(c, d);
        if d == value.docket {
          assert KeysFor(r, d) == KeysFor(c, d) + [key];
        }
      } else {
        assert KeysFor(r, value.docket) == KeysFor(c, value.docket) + [key];
      }
    }
  }

  /** Storing the same key twice lists it twice: a later docket search sees two matches. */
  lemma SetItemTwice(c: Corpus, key: string, value: Case)
    requires value.docket !in c.index
    ensures KeysFor(SetItem(SetItem(c, key, value), key, value), value.docket) == [key, key]
  {
  }

  // ----- Searching by docket -----

  /** What `search_by_docket` returns: the case for a unique match, otherwise the (possibly empty) list of matches. */
  datatype Found = One(found: Case) | Many(matches: seq<Case>)

  /** Every key listed for `docket` is stored. */
  predicate Resolvable(c: Corpus, docket: string)
  {
    forall i :: 0 <= i < |KeysFor(c, docket)| ==> KeysFor(c, docket)[i] in c.cases
  }

  /** `CaseCorpus.search_by_docket`. */
  function SearchByDocket(c: Corpus, docket: string): (r: Found)
    requires Resolvable(c, docket)
    ensures r.One? <==> |KeysFor(c, docket)| == 1
    ensures r.One? ==> r.found == c.cases[KeysFor(c, docket)[0]]
    ensures r.Many? ==> |r.matches| == |KeysFor(c, docket)|
    ensures r.Many? ==> forall i :: 0 <= i < |r.matches| ==> r.matches[i] == c.cases[KeysFor(c, docket)[i]]
  {
    var keys := KeysFor(c, docket);
    if |keys| == 1 then One(c.cases[keys[0]])
    else Many(seq(|keys|, i requires 0 <= i < |keys| => c.cases[keys[i]]))
  }

  /** In a consistent corpus every result of a search has the searched docket, and is a stored case. */
  lemma SearchSound(c: Corpus, docket: string)
    requires Consistent(c)
    ensures Resolvable(c, docket)
    ensures SearchByDocket(c, docket).One? ==>
      var x := SearchByDocket(c, docket).found;
      x.docket == docket && exists k :: k in c.cases && c.cases[k] == x
    ensures SearchByDocket(c, docket).Many? ==>
      forall x :: x in SearchByDocket(c, docket).matches ==> x.docket == docket
  {
    var r := SearchByDocket(c, docket);
    if r.One? {
      var k := c.index[docket][0];
      assert c.cases[k] == r.found;
    }
    if r.Many? {
      forall x | x in r.matches
        ensures x.docket == docket
      {
        var i :| 0 <= i < |r.matches| && r.matches[i] == x;
      }
    }
  }

  /** In a consistent corpus a search finds every stored case with that docket: as the unique match, or among the matches. */
  lemma SearchComplete(c: Corpus, docket: string, k: string)
    requires Consistent(c)
    requires k in c.cases && c.cases[k].docket == docket
    ensures Resolvable(c, docket)
    ensures SearchByDocket(c, docket).One? ==> SearchByDocket(c, docket).found == c.cases[k]
    ensures SearchByDocket(c, docket).Many? ==> c.cases[k] in SearchByDocket(c, docket).matches
  {
    SearchSound(c, docket);
    var keys := KeysFor(c, docket);
    assert k in keys;
    var i :| 0 <= i < |keys| && keys[i] == k;
    if SearchByDocket(c, docket).Many? {
      assert SearchByDocket(c, docket).matches[i] == c.cases[k];
    }
  }

  /** A case stored under a docket nobody else uses is what a search for that docket returns. */
  lemma SearchAfterSet(c: Corpus, key: string, value: Case)
    requires value.docket !in c.index
    ensures Resolvable(SetItem(c, key, value), value.docket)
    ensures SearchByDocket(SetItem(c, key, value), value.docket) == One(value)
  {
  }

  // ----- build -----

  /** Why `build` passed over an identifier. */
  datatype Skip =
    | Unparsable(error: ParseError)
    | IrregularYear
    | OriginalJurisdiction
    | OutOfWindow(year: int)
    | NoSummary

  /** `int()` succeeds on the year of every identifier whose year `build` reads. */
  predicate YearReadable(name: string)
  {
    NewCase(name).Success? && NewCase(name).value.kind.Appellate? ==> IsIntLiteral(NewCase(name).value.year)
  }

  /** The position of the first summary at or after `from` whose docket number is `docket`. */
  function FirstSummary(summaries: seq<SummaryRecord>, docket: string, from: nat): (r: Option<nat>)
    requires from <= |summaries|
    ensures r.Some? ==> from <= r.value < |summaries| && summaries[r.value].docketNumber == docket
    ensures r.Some? ==> forall j :: from <= j < r.value ==> summaries[j].docketNumber != docket
    ensures r.None? ==> forall j :: from <= j < |summaries| ==> summaries[j].docketNumber != docket
    decreases |summaries| - from
  {
    if from == |summaries| then None
    else if summaries[from].docketNumber == docket then Some(from)
    else FirstSummary(summaries, docket, from + 1)
  }

  /** One iteration of `build`: the case admitted under `name`, or why it was passed over. */
  function Admit(summaries: seq<SummaryRecord>, name: string, start: int, end: int): (r: Result<Case, Skip>)
    requires YearReadable(name)
  {
    match NewCase(name)
    case Failure(e) => Failure(Unparsable(e))
    case Success(c) =>
      if c.irregular then Failure(IrregularYear)
      else if c.kind.Original? then Failure(OriginalJurisdiction)
      else if Year(c) < start || Year(c) > end then Failure(OutOfWindow(Year(c)))
      else
        match FirstSummary(summaries, c.docket, 0)
        case None => Failure(NoSummary)
        case Some(i) => Success(LoadSummary(c, summaries[i]))
  }

  /** A case `build` stores: appellate, regular, inside the year window and summarized. */
  ghost predicate Admitted(x: Case, start: int, end: int)
  {
    && x.kind.Appellate? && !x.irregular
    && IsIntLiteral(x.year) && start <= Year(x) <= end
    && x.summary.Some?
  }

  /** Some summary entry carries `docket`. */
  predicate Summarized(summaries: seq<SummaryRecord>, docket: string)
  {
    exists i :: 0 <= i < |summaries| && summaries[i].docketNumber == docket
  }

  /**
   * An identifier is admitted exactly when it parses as an appellate case with
   * a year in the window and a summary for its docket; the case is then the
   * parsed case with the first such summary loaded.
   */
  lemma AdmitMeaning(summaries: seq<SummaryRecord>, name: string, start: int, end: int)
    requires YearReadable(name)
    ensures var r := Admit(summaries, name, start, end);
      r.Success? <==>
        && NewCase(name).Success?
        && NewCase(name).value.kind.Appellate?
        && start <= Year(NewCase(name).value) <= end
        && Summarized(summaries, NewCase(name).value.docket)
    ensures var r := Admit(summaries, name, start, end);
      r.Success? ==>
        && Admitted(r.value, start, end)
        && r.value.fnameRoot == name
        && r.value.docket == NewCase(name).value.docket
        && exists i ::
             && 0 <= i < |summaries| && summaries[i].docketNumber == r.value.docket
             && (forall j :: 0 <= j < i ==> summaries[j].docketNumber != r.value.docket)
             && r.value == LoadSummary(NewCase(name).value, summaries[i])
  {
    if NewCase(name).Success? {
      ParseShape(name);
      ParseKinds(name);
    }
  }

  /** The identifiers of the cases a corpus stores parse, and each case keeps the docket its key parses to. */
  ghost predicate Keyed(c: Corpus)
  {
    forall k :: k in c.cases ==> NewCase(k).Success? && c.cases[k].docket == NewCase(k).value.docket
  }

  /** `CaseCorpus.build`: admit each identifier in turn and store the admitted cases. */
  function Build(c: Corpus, names: seq<string>, start: int, end: int): (r: Corpus)
    requires forall i :: 0 <= i < |names| ==> YearReadable(names[i])
    ensures r.summaries == c.summaries && r.people == c.people
    decreases |names|
  {
    if |names| == 0 then c
    else
      match Admit(c.summaries, names[0], start, end)
      case Failure(_) => Build(c, names[1..], start, end)
      case Success(x) => Build(SetItem(c, names[0], x), names[1..], start, end)
  }

  /** An identifier of the list that `build` admits. */
  predicate AdmittedName(summaries: seq<SummaryRecord>, names: seq<string>, k: string, start: int, end: int)
    requires forall i :: 0 <= i < |names| ==> YearReadable(names[i])
  {
    exists i :: 0 <= i < |names| && names[i] == k && Admit(summaries, k, start, end).Success?
  }

  /**
   * After `build` the corpus stores the cases it had plus exactly the admitted
   * identifiers, each as admitted; the cases it had and no identifier replaced
   * are untouched.
   */
  lemma {:induction false} BuildContents(c: Corpus, names: seq<string>, start: int, end: int)
    requires forall i :: 0 <= i < |names| ==> YearReadable(names[i])
    ensures var r := Build(c, names, start, end);
      && (forall k :: k in r.cases <==> k in c.cases || AdmittedName(c.summaries, names, k, start, end))
      && (forall k :: AdmittedName(c.summaries, names, k, start, end) ==>
            r.cases[k] == Admit(c.summaries, k, start, end).value)
      && (forall k :: k in c.cases && !AdmittedName(c.summaries, names, k, start, end) ==>
            r.cases[k] == c.cases[k])
    decreases |names|
  {
    if |names| > 0 {
      var n := names[0];
      var tail := names[1..];
      assert forall k :: AdmittedName(c.summaries, names, k, start, end) <==>
        (k == n && Admit(c.summaries, n, start, end).Success?) || AdmittedName(c.summaries, tail, k, start, end) by {
        forall k | AdmittedName(c.summaries, names, k, start, end) && k != n
          ensures AdmittedName(c.summaries, tail, k, start, end)
        {
          var i :| 0 <= i < |names| && names[i] == k && Admit(c.summaries, k, start, end).Success?;
          assert tail[i - 1] == names[i];
        }
        forall k | AdmittedName(c.summaries, tail, k, start, end)
          ensures AdmittedName(c.summaries, names, k, start, end)
        {
          var i :| 0 <= i < |tail| && tail[i] == k && Admit(c.summaries, k, start, end).Success?;
          assert names[i + 1] == tail[i];
        }
      }
      match Admit(c.summaries, n, start, end)
      case Failure(_) =>
        BuildContents(c, tail, start, end);
      case Success(x) =>
        BuildContents(SetItem(c, n, x), tail, start, end);
    }
  }

  /** The identifiers of `names` that `build` admits with docket `d`, in list order, repeats kept. */
  function AdmittedFor(summaries: seq<SummaryRecord>, names: seq<string>, d: string, start: int, end: int): seq<string>
    requires forall i :: 0 <= i < |names| ==> YearReadable(names[i])
    decreases |names|
  {
    if |names| == 0 then []
    else
      var rest := AdmittedFor(summaries, names[1..], d, start, end);
      match Admit(summaries, names[0], start, end)
      case Success(x) => if x.docket == d then [names[0]] + rest else rest
      case Failure(_) => rest
  }

  /**
   * After `build` each docket lists the keys it listed before, followed by
   * the admitted identifiers of that docket in list order; an identifier
   * listed twice is indexed twice, since `__setitem__` appends.
   */
  lemma {:induction false} BuildIndex(c: Corpus, names: seq<string>, start: int, end: int)
    requires forall i :: 0 <= i < |names| ==> YearReadable(names[i])
    ensures forall d :: KeysFor(Build(c, names, start, end), d) == KeysFor(c, d) + AdmittedFor(c.summaries, names, d, start, end)
    decreases |names|
  {
    if |names| > 0 {
      var n := names[0];
      var tail := names[1..];
      match Admit(c.summaries, n, start, end)
      case Failure(_) =>
        BuildIndex(c, tail, start, end);
      case Success(x) =>
        var c' := SetItem(c, n, x);
        BuildIndex(c', tail, start, end);
        SetItemIndex(c, n, x);
        forall d
          ensures KeysFor(Build(c, names, start, end), d) == KeysFor(c, d) + AdmittedFor(c.summaries, names, d, start, end)
        {
          var rest := AdmittedFor(c.summaries, tail, d, start, end);
          if d == x.docket {
            ConcatAssoc(KeysFor(c, d), [n], rest);
          }
        }
    }
  }

  lemma ConcatAssoc(a: seq<string>, b: seq<string>, c: seq<string>)
    ensures (a + b) + c == a + (b + c)
  {
  }

  /** `build` keeps the index consistent, and every stored identifier keeps the docket it parses to. */
  lemma {:induction false} BuildConsistent(c: Corpus, names: seq<string>, start: int, end: int)
    requires forall i :: 0 <= i < |names| ==> YearReadable(names[i])
    requires Consistent(c) && Keyed(c)
    ensures Consistent(Build(c, names, start, end)) && Keyed(Build(c, names, start, end))
    decreases |names|
  {
    if |names| > 0 {
      var n := names[0];
      match Admit(c.summaries, n, start, end)
      case Failure(_) =>
        BuildConsistent(c, names[1..], start, end);
      case Success(x) =>
        AdmitMeaning(c.summaries, n, start, end);
        SetItemConsistent(c, n, x);
        SetItemKeyed(c, n, x);
        BuildConsistent(SetItem(c, n, x), names[1..], start, end);
    }
  }

  lemma SetItemKeyed(c: Corpus, key: string, value: Case)
    requires Keyed(c) && NewCase(key).Success? && value.docket == NewCase(key).value.docket
    ensures Keyed(SetItem(c, key, value))
  {
  }

  /** Every case `build` stores is admitted; cases already stored stay as they were. */
  lemma BuildAdmitted(c: Corpus, names: seq<string>, start: int, end: int)
    requires forall i :: 0 <= i < |names| ==> YearReadable(names[i])
    requires forall k :: k in c.cases ==> Admitted(c.cases[k], start, end)
    ensures var r := Build(c, names, start, end);
      forall k :: k in r.cases ==> Admitted(r.cases[k], start, end)
  {
    BuildContents(c, names, start, end);
    var r := Build(c, names, start, end);
    forall k | k in r.cases
      ensures Admitted(r.cases[k], start, end)
    {
      if AdmittedName(c.summaries, names, k, start, end) {
        AdmitMeaning(c.summaries, k, start, end);
      }
    }
  }

  // ----- build_votes -----

  /** `build_votes` passes over transcript files (`-t`) and names with an underscore before splitting. */
  predicate Unfiltered(fname: string)
  {
    !Contains(fname, "-t") && '_' !in fname
  }

  /**
   * The docket a vote file is dispatched to, if any. The split into year,
   * docket and extension must give three pieces; an extension other than
   * `json` only draws a warning, and a docket without a dash is passed over.
   */
  function VoteFileDocket(fname: string): (r: Option<string>)
    requires Unfiltered(fname) ==> |Split(fname, ".")| == 3
    ensures r.Some? ==> Unfiltered(fname) && r.value == Split(fname, ".")[1] && '-' in r.value
  {
    if Contains(fname, "-t") then None
    else if '_' in fname then None
    else
      var docket := Split(fname, ".")[1];
      if '-' !in docket then None else Some(docket)
  }

  /** A vote file named `<year>.<docket>.<ext>` is dispatched to its docket, whatever the extension. */
  lemma VoteFileRoundTrip(year: string, docket: string, ext: string)
    requires '.' !in year && '.' !in docket && '.' !in ext
    requires Unfiltered(year + "." + docket + "." + ext)
    ensures |Split(year + "." + docket + "." + ext, ".")| == 3
    ensures VoteFileDocket(year + "." + docket + "." + ext) == if '-' in docket then Some(docket) else None
  {
    var parts := [year, docket, ext];
    assert Join(parts, ".") == year + "." + docket + "." + ext by {
      assert parts[1..][1..] == [ext];
      assert Join(parts[1..], ".") == docket + "." + ext;
    }
    JoinSplit(parts, '.');
  }

  /** The case a vote file reaches `load_votes` with: the unique match for its docket. */
  // A listed key missing from `cases`, where `search_by_docket` would raise KeyError, is treated as no match; a consistent corpus never has one (see BuildConsistent and VotesOnlyConsistent).
  predicate Dispatched(c: Corpus, fname: string)
    requires Unfiltered(fname) ==> |Split(fname, ".")| == 3
  {
    var d := VoteFileDocket(fname);
    d.Some? && |KeysFor(c, d.value)| == 1 && KeysFor(c, d.value)[0] in c.cases
  }

  /** The key a dispatched vote file's case is stored under. */
  function TargetKey(c: Corpus, fname: string): string
    requires Unfiltered(fname) ==> |Split(fname, ".")| == 3
    requires Dispatched(c, fname)
  {
    KeysFor(c, VoteFileDocket(fname).value)[0]
  }

  /**
   * What the loader demands of one vote file: a name it splits into three
   * pieces, and, if the file reaches the decisions loop of a summarized case,
   * a role entry for every member who votes there.
   */
  ghost predicate VoteFileReady(c: Corpus, fname: string, file: VoteFile)
  {
    && (Unfiltered(fname) ==> |Split(fname, ".")| == 3)
    && (Dispatched(c, fname) ==>
          var x := c.cases[TargetKey(c, fname)];
          && x.summary.Some?
          && (Matches(x, file) && |file.advocates| > 0 ==> VotesHaveRoles(file.decisions)))
  }

  /** One iteration of `build_votes`: load the file into the unique case for its docket, if there is one. */
  function DispatchVotes(c: Corpus, fname: string, file: VoteFile): (r: Corpus)
    requires WellFormed(c.people) && VoteFileReady(c, fname, file)
    ensures WellFormed(r.people)
  {
    if !Dispatched(c, fname) then c
    else
      var key := TargetKey(c, fname);
      var a := LoadVotes(c.cases[key], c.people, file);
      c.(cases := c.cases[key := a.c], people := a.people)
  }

  /** `c'` is `c` with only vote data loaded: same index, same keys, same parsed and summary fields, a grown registry. */
  ghost predicate VotesOnly(c: Corpus, c': Corpus)
  {
    && c'.index == c.index && c'.summaries == c.summaries
    && c'.cases.Keys == c.cases.Keys
    && (forall k :: k in c.cases ==>
          c'.cases[k].(irregular := c.cases[k].irregular, advocates := c.cases[k].advocates,
                       decisions := c.cases[k].decisions, justices := c.cases[k].justices) == c.cases[k])
    && RegistryGrows(c.people, c'.people)
  }

  lemma VotesOnlyTransitive(a: Corpus, b: Corpus, c: Corpus)
    requires VotesOnly(a, b) && VotesOnly(b, c)
    ensures VotesOnly(a, c)
  {
    RegistryGrowsTransitive(a.people, b.people, c.people);
    forall k | k in a.cases
      ensures c.cases[k].(irregular := a.cases[k].irregular, advocates := a.cases[k].advocates,
                          decisions := a.cases[k].decisions, justices := a.cases[k].justices) == a.cases[k]
    {
    }
  }

  /** Loading vote data keeps the index consistent. */
  lemma VotesOnlyConsistent(c: Corpus, c': Corpus)
    requires VotesOnly(c, c')
    ensures Consistent(c) ==> Consistent(c')
  {
    if Consistent(c) {
      forall k | k in c'.cases
        ensures k in KeysFor(c', c'.cases[k].docket)
      {
        assert c'.cases[k].docket == c.cases[k].docket;
      }
    }
  }

  /** Loading vote data changes nothing `VoteFileReady` depends on. */
  lemma VotesOnlyKeeps(c: Corpus, c': Corpus, fname: string, file: VoteFile)
    requires VotesOnly(c, c')
    ensures VoteFileReady(c, fname, file) ==> VoteFileReady(c', fname, file)
  {
    if VoteFileReady(c, fname, file) && Dispatched(c, fname) {
      assert KeysFor(c', VoteFileDocket(fname).value) == KeysFor(c, VoteFileDocket(fname).value);
      var k := TargetKey(c, fname);
      assert c'.cases[k].summary == c.cases[k].summary;
    }
  }

  /**
   * One dispatch: a file whose docket has a unique case replaces that case by
   * the result of `load_votes` on it and takes its registry; any other file
   * leaves the corpus unchanged.
   */
  lemma DispatchVotesMeaning(c: Corpus, fname: string, file: VoteFile)
    requires WellFormed(c.people) && VoteFileReady(c, fname, file)
    ensures !Dispatched(c, fname) ==> DispatchVotes(c, fname, file) == c
    ensures Dispatched(c, fname) ==>
      var key := TargetKey(c, fname);
      var a := LoadVotes(c.cases[key], c.people, file);
      var r := DispatchVotes(c, fname, file);
      && r.cases[key] == a.c && r.people == a.people
      && forall k :: k in c.cases && k != key ==> r.cases[k] == c.cases[k]
    ensures VotesOnly(c, DispatchVotes(c, fname, file))
  {
    if Dispatched(c, fname) {
      var key := TargetKey(c, fname);
      LoadVotesLinked(c.cases[key], c.people, file);
    }
  }

  /** `CaseCorpus.build_votes`: dispatch each vote file in turn. */
  function BuildVotes(c: Corpus, files: seq<(string, VoteFile)>): (r: Corpus)
    requires WellFormed(c.people)
    requires forall i :: 0 <= i < |files| ==> VoteFileReady(c, files[i].0, files[i].1)
    ensures WellFormed(r.people)
    decreases |files|
  {
    if |files| == 0 then c
    else
      var c' := DispatchVotes(c, files[0].0, files[0].1);
      DispatchVotesMeaning(c, files[0].0, files[0].1);
      ReadyAfter(c, c', files);
      BuildVotes(c', files[1..])
  }

  /** Files ready for `c` stay ready once only vote data has been loaded. */
  lemma ReadyAfter(c: Corpus, c': Corpus, files: seq<(string, VoteFile)>)
    requires VotesOnly(c, c') && |files| > 0
    requires forall i :: 0 <= i < |files| ==> VoteFileReady(c, files[i].0, files[i].1)
    ensures forall i :: 0 <= i < |files[1..]| ==> VoteFileReady(c', files[1..][i].0, files[1..][i].1)
  {
    forall i | 0 <= i < |files[1..]|
      ensures VoteFileReady(c', files[1..][i].0, files[1..][i].1)
    {
      assert files[1..][i] == files[i + 1];
      VotesOnlyKeeps(c, c', files[i + 1].0, files[i + 1].1);
    }
  }

  /** A file is dispatched to the case stored under `key`. */
  predicate Targets(c: Corpus, files: seq<(string, VoteFile)>, key: string)
    requires forall i :: 0 <= i < |files| ==> Unfiltered(files[i].0) ==> |Split(files[i].0, ".")| == 3
  {
    exists i :: 0 <= i < |files| && Dispatched(c, files[i].0) && TargetKey(c, files[i].0) == key
  }

  /**
   * `build_votes` only loads vote data: the index, the keys and every parsed
   * or summary field stay, the registry only grows, the index stays
   * consistent, and a case no file is dispatched to is untouched.
   */
  lemma BuildVotesFrame(c: Corpus, files: seq<(string, VoteFile)>)
    requires WellFormed(c.people)
    requires forall i :: 0 <= i < |files| ==> VoteFileReady(c, files[i].0, files[i].1)
    ensures VotesOnly(c, BuildVotes(c, files))
    ensures Consistent(c) ==> Consistent(BuildVotes(c, files))
    ensures forall k :: k in c.cases && !Targets(c, files, k) ==> BuildVotes(c, files).cases[k] == c.cases[k]
  {
    BuildVotesOnly(c, files);
    if Consistent(c) {
      BuildVotesConsistent(c, files);
    }
    BuildVotesUntargeted(c, files);
  }

  lemma {:induction false} BuildVotesOnly(c: Corpus, files: seq<(string, VoteFile)>)
    requires WellFormed(c.people)
    requires forall i :: 0 <= i < |files| ==> VoteFileReady(c, files[i].0, files[i].1)
    ensures VotesOnly(c, BuildVotes(c, files))
    decreases |files|
  {
    if |files| > 0 {
      var c' := DispatchVotes(c, files[0].0, files[0].1);
      DispatchVotesMeaning(c, files[0].0, files[0].1);
      ReadyAfter(c, c', files);
      BuildVotesOnly(c', files[1..]);
      VotesOnlyTransitive(c, c', BuildVotes(c', files[1..]));
    }
  }

  lemma {:induction false} BuildVotesConsistent(c: Corpus, files: seq<(string, VoteFile)>)
    requires WellFormed(c.people) && Consistent(c)
    requires forall i :: 0 <= i < |files| ==> VoteFileReady(c, files[i].0, files[i].1)
    ensures Consistent(BuildVotes(c, files))
    decreases |files|
  {
    if |files| > 0 {
      var c' := DispatchVotes(c, files[0].0, files[0].1);
      DispatchVotesMeaning(c, files[0].0, files[0].1);
      ReadyAfter(c, c', files);
      VotesOnlyConsistent(c, c');
      BuildVotesConsistent(c', files[1..]);
    }
  }

  lemma {:induction false} BuildVotesUntargeted(c: Corpus, files: seq<(string, VoteFile)>)
    requires WellFormed(c.people)
    requires forall i :: 0 <= i < |files| ==> VoteFileReady(c, files[i].0, files[i].1)
    ensures var r := BuildVotes(c, files);
      forall k :: k in c.cases && !Targets(c, files, k) ==> k in r.cases && r.cases[k] == c.cases[k]
    decreases |files|
  {
    if |files| > 0 {
      var c' := DispatchVotes(c, files[0].0, files[0].1);
      DispatchVotesMeaning(c, files[0].0, files[0].1);
      ReadyAfter(c, c', files);
      BuildVotesUntargeted(c', files[1..]);
      var tail := files[1..];
      forall k, i | k in c.cases && !Targets(c, files, k) && 0 <= i < |tail| && Dispatched(c', tail[i].0)
        ensures TargetKey(c', tail[i].0) != k
      {
        assert files[i + 1] == tail[i];
        DispatchedAfter(c, c', tail[i].0);
      }
    }
  }

  /** Dispatch depends only on the index, which loading vote data leaves alone. */
  lemma DispatchedAfter(c: Corpus, c': Corpus, fname: string)
    requires VotesOnly(c, c') && (Unfiltered(fname) ==> |Split(fname, ".")| == 3)
    ensures Dispatched(c', fname) <==> Dispatched(c, fname)
    ensures Dispatched(c, fname) ==> TargetKey(c', fname) == TargetKey(c, fname)
  {
    var d := VoteFileDocket(fname);
    if d.Some? {
      assert KeysFor(c', d.value) == KeysFor(c, d.value);
    }
  }

  // ----- The identifiers build() starts from -----

  /** The transcript-file marker: oral-argument transcripts are named `<identifier>-t<NN>.json`. */
  const TranscriptMarker: string := "-t"

  /** The identifiers of the cases that have a transcript among `fnames`: each transcript name up to its marker. */
  function TranscribedNames(fnames: seq<string>): (names: set<string>)
    ensures forall x :: x in fnames && Contains(x, TranscriptMarker) ==> Split(x, TranscriptMarker)[0] in names
  {
    set x | x in fnames && Contains(x, TranscriptMarker) :: Split(x, TranscriptMarker)[0]
  }

  /** The identifier of a transcript file is the part before its marker. */
  lemma TranscriptNameRoundTrip(name: string, suffix: string)
    requires !Contains(name, TranscriptMarker)
    ensures Contains(name + TranscriptMarker + suffix, TranscriptMarker)
    ensures Split(name + TranscriptMarker + suffix, TranscriptMarker)[0] == name
  {
    var s := name + TranscriptMarker + suffix;
    assert s[|name|..|name| + 2] == TranscriptMarker;
    assert OccursAt(s, TranscriptMarker, |name|);
    forall j: nat | j < |name|
      ensures !OccursAt(s, TranscriptMarker, j)
    {
      if OccursAt(s, TranscriptMarker, j) {
        assert s[j..j + 2][0] == '-' && s[j..j + 2][1] == 't';
        if j + 1 < |name| {
          assert name[j..j + 2] == TranscriptMarker;
          assert OccursAt(name, TranscriptMarker, j);
        }
      }
    }
    SplitHead(name, TranscriptMarker, suffix);
  }

  /** Transcript files named after identifiers without the marker yield exactly those identifiers. */
  lemma TranscribedNamesOf(fnames: seq<string>, ids: seq<string>, suffixes: seq<string>)
    requires |fnames| == |ids| == |suffixes|
    requires forall i :: 0 <= i < |ids| ==> !Contains(ids[i], TranscriptMarker)
    requires forall i :: 0 <= i < |fnames| ==> fnames[i] == ids[i] + TranscriptMarker + suffixes[i]
    ensures forall i :: 0 <= i < |ids| ==> ids[i] in TranscribedNames(fnames)
    ensures forall n :: n in TranscribedNames(fnames) ==> n in ids
  {
    forall i | 0 <= i < |ids|
      ensures Split(fnames[i], TranscriptMarker)[0] == ids[i]
      ensures Contains(fnames[i], TranscriptMarker)
    {
      TranscriptNameRoundTrip(ids[i], suffixes[i]);
    }
    forall n | n in TranscribedNames(fnames)
      ensures n in ids
    {
      var x :| x in fnames && Contains(x, TranscriptMarker) && Split(x, TranscriptMarker)[0] == n;
      var i :| 0 <= i < |fnames| && fnames[i] == x;
      assert ids[i] == n;
    }
  }
}
