/**
 * One case of the corpus: parsing a `<year>.<docket>` identifier
 * (`Case.__init__`), reading the year (`Case.year`) and copying the matched
 * summary (`Case.load_summary`).
 */
module Cases {
  import opened Wrappers
  import opened Strings
  import opened Records

  /** What the identifier parse derived: nothing, or a term and a docket number. */
  datatype Kind =
    | IrregularTerm
    | Original(term: string, docketNumber: string)
    | Appellate(term: string, docketNumber: string)

  /** A timeline event; the timestamps stay as epoch seconds. */
  datatype Event = Event(kind: string, dates: seq<int>)

  /** The fields `load_summary` copies from the matched summary entry. */
  datatype Summary = Summary(
    volume: string,
    page: string,
    oyezId: int,
    name: string,
    questions: string,
    description: string,
    justiaUrl: string,
    timeline: seq<Event>)

  /** One justice's vote within a decision. */
  datatype Vote = Vote(ideology: string, seniority: int, sidedWith: string)

  /** One decision of a case, with its votes keyed by justice identifier. */
  datatype Decision = Decision(
    held: string,
    majorityTally: int,
    minorityTally: int,
    winningParty: string,
    votes: map<string, Vote>)

  /**
   * A case. `year` and `docket` are the two halves of the identifier; the
   * attributes `load_summary` and `load_votes` assign are `None` until assigned.
   * People are referred to by their registry identifier.
   */
  datatype Case = Case(
    fnameRoot: string,
    year: string,
    docket: string,
    kind: Kind,
    irregular: bool,
    summary: Option<Summary>,
    advocates: Option<seq<string>>,
    decisions: Option<seq<Decision>>,
    justices: Option<seq<string>>)

  /** The `ValueError` of a tuple unpacking that did not find exactly two pieces. */
  datatype ParseError = DotCount(pieces: nat) | DashCount(pieces: nat)

  /** The substring that marks an original-jurisdiction docket (matched case-sensitively). */
  const OrigMarker: string := "orig"

  /** The docket number of an original-jurisdiction case: upper-cased, `_` turned into a space. */
  function OriginalDocketNumber(docket: string): (n: string)
    ensures |n| == |docket|
    ensures '_' !in n
    ensures forall i :: 0 <= i < |n| ==> !('a' <= n[i] <= 'z')
    ensures forall i :: 0 <= i < |n| && docket[i] != '_' && !('a' <= docket[i] <= 'z') ==> n[i] == docket[i]
    ensures forall i :: 0 <= i < |n| && docket[i] == '_' ==> n[i] == ' '
    ensures forall i :: 0 <= i < |n| && 'a' <= docket[i] <= 'z' ==> n[i] as int == docket[i] as int - 32
  {
    ReplaceChar(Upper(docket), '_', ' ')
  }

  function Fresh(name: string, year: string, docket: string, kind: Kind): Case
  {
    Case(name, year, docket, kind, kind.IrregularTerm?, None, None, None, None)
  }

  /** `Case(docket_info, corpus)`: a fresh case, or the error the constructor raises. */
  function NewCase(name: string): Result<Case, ParseError>
  {
    var pieces := Split(name, ".");
    if |pieces| != 2 then Failure(DotCount(|pieces|))
    else
      var year := pieces[0];
      var docket := pieces[1];
      if '_' in year then Success(Fresh(name, year, docket, IrregularTerm))
      else if Contains(docket, OrigMarker) then
        Success(Fresh(name, year, docket, Original(year, OriginalDocketNumber(docket))))
      else
        var halves := Split(docket, "-");
        if |halves| != 2 then Failure(DashCount(|halves|))
        else Success(Fresh(name, year, docket, Appellate(halves[0], halves[1])))
  }

  /** The year half of an identifier with exactly one dot. */
  function YearPart(name: string): string
  {
    Split(name, ".")[0]
  }

  /** The docket half of an identifier with exactly one dot. */
  function DocketPart(name: string): string
    requires |Split(name, ".")| > 1
  {
    Split(name, ".")[1]
  }

  /** An identifier with one dot, a regular year and no original marker must be split on a dash. */
  predicate AppellateShaped(name: string)
  {
    |Split(name, ".")| == 2 && '_' !in YearPart(name) && !Contains(DocketPart(name), OrigMarker)
  }

  /** The constructor fails exactly on a dot count other than one, or a dash count other than one in an appellate docket. */
  lemma ParseFailure(name: string)
    ensures NewCase(name).Failure? <==>
      multiset(name)['.'] != 1 || (AppellateShaped(name) && multiset(DocketPart(name))['-'] != 1)
    ensures NewCase(name).Failure? && NewCase(name).error.DotCount? <==> multiset(name)['.'] != 1
  {
    SplitCount(name, '.');
    if |Split(name, ".")| == 2 {
      SplitCount(DocketPart(name), '-');
    }
  }

  /** A parsed case is the identifier's year and docket around its one dot, with nothing loaded yet. */
  lemma ParseShape(name: string)
    requires NewCase(name).Success?
    ensures var c := NewCase(name).value;
      && c.fnameRoot == name
      && name == c.year + "." + c.docket
      && '.' !in c.year && '.' !in c.docket
      && c.summary.None? && c.advocates.None? && c.decisions.None? && c.justices.None?
  {
    var pieces := Split(name, ".");
    SplitJoin(name, ".");
    SplitPartsFree(name, ".");
    ContainsChar(pieces[0], '.');
    ContainsChar(pieces[1], '.');
    assert pieces[1..] == [pieces[1]];
  }

  /** Which of the three outcomes a parsed identifier has, and what each derives. */
  lemma ParseKinds(name: string)
    requires NewCase(name).Success?
    ensures var c := NewCase(name).value;
      && (c.irregular <==> '_' in c.year)
      && (c.kind.IrregularTerm? <==> '_' in c.year)
      && (c.kind.Original? <==> '_' !in c.year && Contains(c.docket, OrigMarker))
      && (c.kind.Original? ==> c.kind.term == c.year && c.kind.docketNumber == OriginalDocketNumber(c.docket))
      && (c.kind.Appellate? ==>
            && c.docket == c.kind.term + "-" + c.kind.docketNumber
            && '-' !in c.kind.term && '-' !in c.kind.docketNumber)
  {
    var c := NewCase(name).value;
    if c.kind.Appellate? {
      var halves := Split(c.docket, "-");
      SplitJoin(c.docket, "-");
      SplitPartsFree(c.docket, "-");
      ContainsChar(halves[0], '-');
      ContainsChar(halves[1], '-');
      assert halves[1..] == [halves[1]];
    }
  }

  /** Formatting an appellate identifier and parsing it gives its parts back. */
  lemma ParseAppellateIdentifier(year: string, term: string, number: string)
    requires '.' !in year && '_' !in year
    requires '.' !in term && '-' !in term && '.' !in number && '-' !in number
    requires !Contains(term + "-" + number, OrigMarker)
    ensures var name := year + "." + term + "-" + number;
      NewCase(name) == Success(Case(name, year, term + "-" + number, Appellate(term, number),
                                    false, None, None, None, None))
  {
    var docket := term + "-" + number;
    assert '.' !in docket by {
      assert docket == term + ['-'] + number;
    }
    SplitPair(year, '.', docket);
    SplitPair(term, '-', number);
    assert year + "." + docket == year + ['.'] + docket;
    assert year + "." + term + "-" + number == year + "." + docket;
    assert docket == term + ['-'] + number;
  }

  /** Formatting an original-jurisdiction identifier and parsing it gives the year and normalised docket number. */
  lemma ParseOriginalIdentifier(year: string, docket: string)
    requires '.' !in year && '_' !in year && '.' !in docket
    requires Contains(docket, OrigMarker)
    ensures var name := year + "." + docket;
      NewCase(name) == Success(Case(name, year, docket, Original(year, OriginalDocketNumber(docket)),
                                    false, None, None, None, None))
  {
    SplitPair(year, '.', docket);
    assert year + "." + docket == year + ['.'] + docket;
  }

  /** A year with an underscore parses as irregular, deriving nothing from the docket. */
  lemma ParseIrregularIdentifier(year: string, docket: string)
    requires '.' !in year && '.' !in docket && '_' in year
    ensures var name := year + "." + docket;
      NewCase(name) == Success(Case(name, year, docket, IrregularTerm, true, None, None, None, None))
  {
    SplitPair(year, '.', docket);
    assert year + "." + docket == year + ['.'] + docket;
  }

  /** `Case.year`: `int()` of the year half. */
  function Year(c: Case): int
    requires IsIntLiteral(c.year)
  {
    ParseInt(c.year)
  }

  lemma DigitsHaveNoMarks(s: string)
    requires IsDigits(s)
    ensures '.' !in s && '_' !in s
  {
  }

  /** The year of an appellate case named with a rendered year is that year. */
  lemma YearRoundTrip(y: nat, term: string, number: string)
    requires '.' !in term && '-' !in term && '.' !in number && '-' !in number
    requires !Contains(term + "-" + number, OrigMarker)
    ensures var r := NewCase(ShowNat(y) + "." + term + "-" + number);
      r.Success? && r.value.kind.Appellate? && IsIntLiteral(r.value.year) && Year(r.value) == y
  {
    DigitsHaveNoMarks(ShowNat(y));
    ParseAppellateIdentifier(ShowNat(y), term, number);
    ParseShowInt(y);
  }

  /** `Case.load_summary`: copies the summary fields; event dates stay as given. */
  function LoadSummary(c: Case, s: SummaryRecord): (r: Case)
    ensures r.(summary := c.summary) == c
    ensures r.summary.Some?
    ensures var m := r.summary.value;
      && m.volume == s.volume && m.page == s.page && m.oyezId == s.id && m.name == s.name
      && m.questions == s.question && m.description == s.description && m.justiaUrl == s.justiaUrl
      && |m.timeline| == |s.timeline|
      && forall i :: 0 <= i < |s.timeline| ==>
           m.timeline[i].kind == s.timeline[i].event && m.timeline[i].dates == s.timeline[i].dates
  {
    var events := seq(|s.timeline|, i requires 0 <= i < |s.timeline| => Event(s.timeline[i].event, s.timeline[i].dates));
    c.(summary := Some(Summary(s.volume, s.page, s.id, s.name, s.question, s.description, s.justiaUrl, events)))
  }
}
