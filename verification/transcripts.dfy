/**
 * The transcript segmenter, `OyezTranscript`: a transcript file's guard and
 * flags, the flattening of sections, turns and text blocks into one list of
 * Turns (`_parse_transcript`, `Turn.add`), and the grouping of those Turns
 * into one tier per speaker (`make_textgrid`, without the file write).
 */
module Transcripts {
  import opened Wrappers
  import opened Strings

  /** One text block of a turn: its time span and words. */
  datatype Phrase = Phrase(start: real, stop: real, text: string)

  /** The speaker mapping of a turn. */
  datatype Speaker = Speaker(identifier: string, lastName: string)

  /** A turn of the file; `None` stands for a speaker value that is not a mapping (JSON `null`). */
  datatype RawTurn = RawTurn(speaker: Option<Speaker>, textBlocks: seq<Phrase>)

  datatype Section = Section(turns: seq<RawTurn>)

  /** The `transcript` payload of a file. */
  datatype Payload = Payload(title: string, sections: seq<Section>)

  /** The fields of a transcript file the constructor reads; a missing or empty payload is `None`. */
  datatype TranscriptFile = TranscriptFile(
    transcript: Option<Payload>,
    damaged: bool,
    unavailable: bool,
    title: string,
    mediaFile: seq<string>)

  /** One flattened Turn: a text block with its turn's speaker. */
  datatype Turn = Turn(speaker: string, lastName: string, start: real, stop: real, text: string)

  /** The identifier and last name used for a turn without a speaker mapping. */
  const Unknown: string := "Unknown"

  // ----- Flattening -----

  /** The speaker identifier and last name of a turn, `Unknown` for both when there is no speaker mapping. */
  function SpeakerOf(t: RawTurn): (s: (string, string))
    ensures t.speaker.None? ==> s == (Unknown, Unknown)
    ensures t.speaker.Some? ==> s == (t.speaker.value.identifier, t.speaker.value.lastName)
  {
    match t.speaker
    case None => (Unknown, Unknown)
    case Some(sp) => (sp.identifier, sp.lastName)
  }

  /** `Turn.add`: a Turn from one text block and its turn's speaker. */
  function TurnOf(p: Phrase, speaker: string, lastName: string): Turn
  {
    Turn(speaker, lastName, p.start, p.stop, p.text)
  }

  /** The Turns of one raw turn, one per text block, in order. */
  function BlockTurns(t: RawTurn): seq<Turn>
  {
    seq(|t.textBlocks|, i requires 0 <= i < |t.textBlocks| => TurnOf(t.textBlocks[i], SpeakerOf(t).0, SpeakerOf(t).1))
  }

  /** The Turns of a list of raw turns, in order. */
  function TurnsFlat(ts: seq<RawTurn>): seq<Turn>
  {
    if |ts| == 0 then [] else TurnsFlat(ts[..|ts| - 1]) + BlockTurns(ts[|ts| - 1])
  }

  /** The Turns of a list of sections, in section, turn, block order. */
  function Flatten(ss: seq<Section>): seq<Turn>
  {
    if |ss| == 0 then [] else Flatten(ss[..|ss| - 1]) + TurnsFlat(ss[|ss| - 1].turns)
  }

  /** The number of text blocks in a list of raw turns. */
  function TurnBlocks(ts: seq<RawTurn>): nat
  {
    if |ts| == 0 then 0 else TurnBlocks(ts[..|ts| - 1]) + |ts[|ts| - 1].textBlocks|
  }

  /** The number of text blocks in a list of sections. */
  function TotalBlocks(ss: seq<Section>): nat
  {
    if |ss| == 0 then 0 else TotalBlocks(ss[..|ss| - 1]) + TurnBlocks(ss[|ss| - 1].turns)
  }

  /** `_parse_transcript`: walk the sections, their turns and their text blocks, appending one Turn per block. */
  method ParseTranscript(sections: seq<Section>) returns (turns: seq<Turn>)
    ensures turns == Flatten(sections)
  {
    turns := [];
    var i := 0;
    while i < |sections|
      invariant 0 <= i <= |sections|
      invariant turns == Flatten(sections[..i])
    {
      var section := sections[i];
      var j := 0;
      while j < |section.turns|
        invariant 0 <= j <= |section.turns|
        invariant turns == Flatten(sections[..i]) + TurnsFlat(section.turns[..j])
      {
        var t := section.turns[j];
        var speaker := SpeakerOf(t);
        var k := 0;
        while k < |t.textBlocks|
          invariant 0 <= k <= |t.textBlocks|
          invariant turns == Flatten(sections[..i]) + TurnsFlat(section.turns[..j]) + BlockTurns(t)[..k]
        {
          assert BlockTurns(t)[..k + 1] == BlockTurns(t)[..k] + [TurnOf(t.textBlocks[k], speaker.0, speaker.1)];
          turns := turns + [TurnOf(t.textBlocks[k], speaker.0, speaker.1)];
          k := k + 1;
        }
        assert BlockTurns(t)[..k] == BlockTurns(t);
        TurnsFlatSnoc(section.turns, j);
        j := j + 1;
      }
      assert section.turns[..j] == section.turns;
      FlattenSnoc(sections, i);
      i := i + 1;
    }
    assert sections[..i] == sections;
  }

  lemma TurnsFlatSnoc(ts: seq<RawTurn>, j: nat)
    requires j < |ts|
    ensures TurnsFlat(ts[..j + 1]) == TurnsFlat(ts[..j]) + BlockTurns(ts[j])
  {
    assert ts[..j + 1][..j] == ts[..j];
  }

  lemma FlattenSnoc(ss: seq<Section>, i: nat)
    requires i < |ss|
    ensures Flatten(ss[..i + 1]) == Flatten(ss[..i]) + TurnsFlat(ss[i].turns)
  {
    assert ss[..i + 1][..i] == ss[..i];
  }

  /** Flattening yields exactly one Turn per text block of the raw turns. */
  lemma {:induction false} TurnsFlatCount(ts: seq<RawTurn>)
    ensures |TurnsFlat(ts)| == TurnBlocks(ts)
    decreases |ts|
  {
    if |ts| > 0 {
      TurnsFlatCount(ts[..|ts| - 1]);
    }
  }

  /** Flattening yields exactly one Turn per text block of the sections. */
  lemma {:induction false} FlattenCount(ss: seq<Section>)
    ensures |Flatten(ss)| == TotalBlocks(ss)
    decreases |ss|
  {
    if |ss| > 0 {
      FlattenCount(ss[..|ss| - 1]);
      TurnsFlatCount(ss[|ss| - 1].turns);
    }
  }

  lemma {:induction false} TurnsFlatAppend(a: seq<RawTurn>, b: seq<RawTurn>)
    ensures TurnsFlat(a + b) == TurnsFlat(a) + TurnsFlat(b)
    decreases |b|
  {
    if |b| == 0 {
      assert a + b == a;
    } else {
      var b' := b[..|b| - 1];
      var last := b[|b| - 1];
      TurnsFlatAppend(a, b');
      var ab := a + b;
      assert ab[..|ab| - 1] == a + b' && ab[|ab| - 1] == last;
      assert TurnsFlat(ab) == TurnsFlat(a + b') + BlockTurns(last);
    }
  }

  lemma {:induction false} FlattenAppend(a: seq<Section>, b: seq<Section>)
    ensures Flatten(a + b) == Flatten(a) + Flatten(b)
    decreases |b|
  {
    if |b| == 0 {
      assert a + b == a;
    } else {
      var b' := b[..|b| - 1];
      var last := b[|b| - 1];
      FlattenAppend(a, b');
      var ab := a + b;
      assert ab[..|ab| - 1] == a + b' && ab[|ab| - 1] == last;
      assert Flatten(ab) == Flatten(a + b') + TurnsFlat(last.turns);
    }
  }

  /** The Turn of block `bi` of turn `ti` sits after the blocks of the turns before it. */
  lemma TurnsFlatAt(ts: seq<RawTurn>, ti: nat, bi: nat)
    requires ti < |ts| && bi < |ts[ti].textBlocks|
    ensures TurnBlocks(ts[..ti]) + bi < |TurnsFlat(ts)|
    ensures TurnsFlat(ts)[TurnBlocks(ts[..ti]) + bi]
         == TurnOf(ts[ti].textBlocks[bi], SpeakerOf(ts[ti]).0, SpeakerOf(ts[ti]).1)
  {
    assert ts == ts[..ti] + [ts[ti]] + ts[ti + 1..];
    TurnsFlatAppend(ts[..ti] + [ts[ti]], ts[ti + 1..]);
    TurnsFlatAppend(ts[..ti], [ts[ti]]);
    assert [ts[ti]][..0] == [];
    TurnsFlatCount(ts[..ti]);
  }

  /**
   * Flattening keeps section, turn, block order: block `bi` of turn `ti` of
   * section `si` is the Turn after all blocks of the earlier sections and
   * turns, carrying its turn's speaker identifier and last name.
   */
  lemma FlattenAt(ss: seq<Section>, si: nat, ti: nat, bi: nat)
    requires si < |ss| && ti < |ss[si].turns| && bi < |ss[si].turns[ti].textBlocks|
    ensures var n := TotalBlocks(ss[..si]) + TurnBlocks(ss[si].turns[..ti]) + bi;
      var t := ss[si].turns[ti];
      n < |Flatten(ss)| && Flatten(ss)[n] == TurnOf(t.textBlocks[bi], SpeakerOf(t).0, SpeakerOf(t).1)
  {
    assert ss == ss[..si] + [ss[si]] + ss[si + 1..];
    FlattenAppend(ss[..si] + [ss[si]], ss[si + 1..]);
    FlattenAppend(ss[..si], [ss[si]]);
    assert [ss[si]][..0] == [];
    FlattenCount(ss[..si]);
    TurnsFlatAt(ss[si].turns, ti, bi);
  }

  // ----- Tiers -----

  /** One (start, stop, text) interval of a tier. */
  datatype Interval = Interval(start: real, stop: real, text: string)

  /** A tier: named by a last name, bounded, holding its speaker's intervals. */
  datatype Tier = Tier(name: string, minTime: real, maxTime: real, intervals: seq<Interval>)

  /** The grid of tiers. */
  datatype Grid = Grid(minTime: real, maxTime: real, tiers: seq<Tier>)

  /** Some Turn has speaker identifier `id`. */
  predicate Appears(ts: seq<Turn>, id: string)
  {
    exists j :: 0 <= j < |ts| && ts[j].speaker == id
  }

  /** The distinct speaker identifiers, in order of first appearance. */
  function Speakers(ts: seq<Turn>): (ids: seq<string>)
    ensures forall x :: x in ids <==> Appears(ts, x)
    ensures forall i, j :: 0 <= i < j < |ids| ==> ids[i] != ids[j]
  {
    if |ts| == 0 then []
    else
      var prefix := ts[..|ts| - 1];
      var s := Speakers(prefix);
      assert forall x :: Appears(ts, x) <==> Appears(prefix, x) || ts[|ts| - 1].speaker == x by {
        forall x | Appears(prefix, x)
          ensures Appears(ts, x)
        {
          var j :| 0 <= j < |prefix| && prefix[j].speaker == x;
          assert ts[j] == prefix[j];
        }
        forall x | Appears(ts, x) && ts[|ts| - 1].speaker != x
          ensures Appears(prefix, x)
        {
          var j :| 0 <= j < |ts| && ts[j].speaker == x;
          assert prefix[j] == ts[j];
        }
      }
      if ts[|ts| - 1].speaker in s then s else s + [ts[|ts| - 1].speaker]
  }

  /** The position of the first Turn of speaker `id`. */
  function FirstOf(ts: seq<Turn>, id: string): (j: nat)
    requires Appears(ts, id)
    ensures j < |ts| && ts[j].speaker == id
    ensures forall j' :: 0 <= j' < j ==> ts[j'].speaker != id
  {
    var prefix := ts[..|ts| - 1];
    if id in Speakers(prefix) then
      var j := FirstOf(prefix, id);
      assert ts[j] == prefix[j];
      j
    else
      assert forall j' :: 0 <= j' < |ts| - 1 ==> ts[j'] == prefix[j'];
      |ts| - 1
  }

  /** The intervals of speaker `id`'s Turns, in order. */
  function IntervalsOf(ts: seq<Turn>, id: string): seq<Interval>
  {
    if |ts| == 0 then []
    else
      var t := ts[|ts| - 1];
      IntervalsOf(ts[..|ts| - 1], id) + (if t.speaker == id then [Interval(t.start, t.stop, t.text)] else [])
  }

  /** The tier of speaker `id`: named by the last name on its first Turn, bounded by `lo` and `hi`. */
  function TierFor(ts: seq<Turn>, id: string, lo: real, hi: real): Tier
    requires Appears(ts, id)
  {
    Tier(ts[FirstOf(ts, id)].lastName, lo, hi, IntervalsOf(ts, id))
  }

  /** The grid `make_textgrid` builds: one tier per speaker, in first-appearance order, all bounded by the first start and last stop. */
  function TextGridOf(ts: seq<Turn>): Grid
    requires |ts| > 0
  {
    var lo := ts[0].start;
    var hi := ts[|ts| - 1].stop;
    var ids := Speakers(ts);
    Grid(lo, hi, seq(|ids|, k requires 0 <= k < |ids| => TierFor(ts, ids[k], lo, hi)))
  }

  /** The tier of `x` after Turn `i`: created at its first Turn, then one interval longer per Turn of `x`. */
  lemma TierStep(ts: seq<Turn>, i: nat, x: string, lo: real, hi: real)
    requires i < |ts| && Appears(ts[..i + 1], x)
    ensures Speakers(ts[..i + 1]) == if ts[i].speaker in Speakers(ts[..i]) then Speakers(ts[..i]) else Speakers(ts[..i]) + [ts[i].speaker]
    ensures var t := ts[i];
      var iv := if t.speaker == x then [Interval(t.start, t.stop, t.text)] else [];
      TierFor(ts[..i + 1], x, lo, hi) ==
        if Appears(ts[..i], x) then TierFor(ts[..i], x, lo, hi).(intervals := TierFor(ts[..i], x, lo, hi).intervals + iv)
        else Tier(t.lastName, lo, hi, iv)
  {
    var ts' := ts[..i + 1];
    assert ts'[..|ts'| - 1] == ts[..i] && ts'[|ts'| - 1] == ts[i];
    if !Appears(ts[..i], x) {
      IntervalsOfAbsent(ts[..i], x);
    }
  }

  /** After `i` Turns: `order` lists the speakers seen, and `tiers` holds each one's tier over those Turns. */
  ghost predicate GridState(ts: seq<Turn>, i: nat, order: seq<string>, tiers: map<string, Tier>, lo: real, hi: real)
  {
    && i <= |ts|
    && order == Speakers(ts[..i])
    && (forall x :: x in tiers <==> x in order)
    && (forall x :: x in tiers ==> tiers[x] == TierFor(ts[..i], x, lo, hi))
  }

  /** The speakers seen after Turn `t`: its speaker is added when it has no tier yet. */
  function AddSpeaker(order: seq<string>, tiers: map<string, Tier>, t: Turn): seq<string>
  {
    if t.speaker in tiers then order else order + [t.speaker]
  }

  /** The tiers after Turn `t`: a new speaker gets a tier named by this Turn's last name, then the Turn's interval is appended to its speaker's tier. */
  function AddTurn(tiers: map<string, Tier>, t: Turn, lo: real, hi: real): map<string, Tier>
  {
    var base := if t.speaker in tiers then tiers[t.speaker] else Tier(t.lastName, lo, hi, []);
    tiers[t.speaker := base.(intervals := base.intervals + [Interval(t.start, t.stop, t.text)])]
  }

  lemma GridStepOrder(ts: seq<Turn>, i: nat, order: seq<string>, tiers: map<string, Tier>, lo: real, hi: real)
    requires GridState(ts, i, order, tiers, lo, hi) && i < |ts|
    ensures AddSpeaker(order, tiers, ts[i]) == Speakers(ts[..i + 1])
    ensures forall x :: x in AddTurn(tiers, ts[i], lo, hi) <==> x in AddSpeaker(order, tiers, ts[i])
  {
    TierStep(ts, i, ts[i].speaker, lo, hi);
  }

  lemma GridStepTiers(ts: seq<Turn>, i: nat, order: seq<string>, tiers: map<string, Tier>, lo: real, hi: real)
    requires GridState(ts, i, order, tiers, lo, hi) && i < |ts|
    requires AddSpeaker(order, tiers, ts[i]) == Speakers(ts[..i + 1])
    requires forall x :: x in AddTurn(tiers, ts[i], lo, hi) <==> x in AddSpeaker(order, tiers, ts[i])
    ensures forall x :: x in AddTurn(tiers, ts[i], lo, hi) ==>
      Appears(ts[..i + 1], x) && AddTurn(tiers, ts[i], lo, hi)[x] == TierFor(ts[..i + 1], x, lo, hi)
  {
    var tiers' := AddTurn(tiers, ts[i], lo, hi);
    forall x | x in tiers'
      ensures Appears(ts[..i + 1], x) && tiers'[x] == TierFor(ts[..i + 1], x, lo, hi)
    {
      TierStep(ts, i, x, lo, hi);
    }
  }

  /** One Turn keeps the loop state: the speakers seen so far and each one's tier over the Turns read. */
  lemma GridStep(ts: seq<Turn>, i: nat, order: seq<string>, tiers: map<string, Tier>, lo: real, hi: real)
    requires GridState(ts, i, order, tiers, lo, hi) && i < |ts|
    ensures GridState(ts, i + 1, AddSpeaker(order, tiers, ts[i]), AddTurn(tiers, ts[i], lo, hi), lo, hi)
  {
    GridStepOrder(ts, i, order, tiers, lo, hi);
    GridStepTiers(ts, i, order, tiers, lo, hi);
  }

  /** After the last Turn, emitting the tiers in key order gives the grid of the Turns. */
  lemma GridDone(ts: seq<Turn>, order: seq<string>, tiers: map<string, Tier>)
    requires |ts| > 0 && GridState(ts, |ts|, order, tiers, ts[0].start, ts[|ts| - 1].stop)
    ensures Grid(ts[0].start, ts[|ts| - 1].stop, seq(|order|, k requires 0 <= k < |order| => tiers[order[k]]))
         == TextGridOf(ts)
  {
    assert ts[..|ts|] == ts;
  }

  /** `make_textgrid` without the file write: a map from speaker to tier, filled in one pass over the Turns. */
  method MakeTextGrid(turns: seq<Turn>) returns (g: Grid)
    requires |turns| > 0
    ensures g == TextGridOf(turns)
  {
    var lo := turns[0].start;
    var hi := turns[|turns| - 1].stop;
    var order: seq<string> := [];
    var tiers: map<string, Tier> := map[];
    var i := 0;
    while i < |turns|
      invariant GridState(turns, i, order, tiers, lo, hi)
    {
      var t := turns[i];
      GridStep(turns, i, order, tiers, lo, hi);
      var tier := if t.speaker in tiers then tiers[t.speaker] else Tier(t.lastName, lo, hi, []);
      if t.speaker !in tiers {
        order := order + [t.speaker];
      }
      tiers := tiers[t.speaker := tier.(intervals := tier.intervals + [Interval(t.start, t.stop, t.text)])];
      i := i + 1;
    }
    GridDone(turns, order, tiers);
    g := Grid(lo, hi, seq(|order|, k requires 0 <= k < |order| => tiers[order[k]]));
  }

  /** A speaker already present before the last Turn keeps its first Turn. */
  lemma FirstOfPrefix(ts: seq<Turn>, x: string)
    requires |ts| > 0 && x in Speakers(ts[..|ts| - 1])
    ensures Appears(ts, x) && FirstOf(ts, x) == FirstOf(ts[..|ts| - 1], x)
  {
  }

  /** A speaker new at the last Turn has it as first Turn. */
  lemma FirstOfLast(ts: seq<Turn>)
    requires |ts| > 0 && ts[|ts| - 1].speaker !in Speakers(ts[..|ts| - 1])
    ensures Appears(ts, ts[|ts| - 1].speaker) && FirstOf(ts, ts[|ts| - 1].speaker) == |ts| - 1
  {
  }

  /** Speakers are listed in order of their first Turn. */
  lemma {:induction false} SpeakersOrdered(ts: seq<Turn>)
    ensures var ids := Speakers(ts);
      forall i, j :: 0 <= i < j < |ids| ==> FirstOf(ts, ids[i]) < FirstOf(ts, ids[j])
    decreases |ts|
  {
    if |ts| > 0 {
      var prefix := ts[..|ts| - 1];
      SpeakersOrdered(prefix);
      var ids := Speakers(ts);
      var s := Speakers(prefix);
      forall i, j | 0 <= i < j < |ids|
        ensures FirstOf(ts, ids[i]) < FirstOf(ts, ids[j])
      {
        assert ids[i] == s[i];
        FirstOfPrefix(ts, s[i]);
        if j == |s| {
          FirstOfLast(ts);
        } else {
          assert ids[j] == s[j];
          FirstOfPrefix(ts, s[j]);
        }
      }
    }
  }

  /**
   * The grid has one tier per distinct speaker, in first-appearance order;
   * each tier is named by the last name on its speaker's first Turn, holds
   * that speaker's intervals in order, and every tier shares the grid's bounds,
   * the first Turn's start and the last Turn's stop.
   */
  lemma TextGridMeaning(ts: seq<Turn>)
    requires |ts| > 0
    ensures var g := TextGridOf(ts);
      var ids := Speakers(ts);
      && g.minTime == ts[0].start && g.maxTime == ts[|ts| - 1].stop
      && |g.tiers| == |ids|
      && (forall x :: x in ids <==> Appears(ts, x))
      && (forall i, j :: 0 <= i < j < |ids| ==> ids[i] != ids[j] && FirstOf(ts, ids[i]) < FirstOf(ts, ids[j]))
      && (forall k :: 0 <= k < |ids| ==>
            && g.tiers[k].minTime == g.minTime && g.tiers[k].maxTime == g.maxTime
            && g.tiers[k].name == ts[FirstOf(ts, ids[k])].lastName
            && g.tiers[k].intervals == IntervalsOf(ts, ids[k]))
  {
    SpeakersOrdered(ts);
  }

  /** The number of intervals the speakers `ids` hold. */
  function IntervalCount(ts: seq<Turn>, ids: seq<string>): nat
  {
    if |ids| == 0 then 0 else IntervalCount(ts, ids[..|ids| - 1]) + |IntervalsOf(ts, ids[|ids| - 1])|
  }

  /** A speaker who never speaks holds no intervals. */
  lemma {:induction false} IntervalsOfAbsent(ts: seq<Turn>, id: string)
    requires !Appears(ts, id)
    ensures IntervalsOf(ts, id) == []
    decreases |ts|
  {
    if |ts| > 0 {
      var prefix := ts[..|ts| - 1];
      assert forall j :: 0 <= j < |prefix| ==> prefix[j] == ts[j];
      IntervalsOfAbsent(prefix, id);
    }
  }

  /** One more Turn adds one interval to the distinct speakers `ids` if its speaker is among them, none otherwise. */
  lemma {:induction false} IntervalCountStep(ts: seq<Turn>, t: Turn, ids: seq<string>)
    requires forall i, j :: 0 <= i < j < |ids| ==> ids[i] != ids[j]
    ensures IntervalCount(ts + [t], ids) == IntervalCount(ts, ids) + (if t.speaker in ids then 1 else 0)
    decreases |ids|
  {
    if |ids| > 0 {
      var ids' := ids[..|ids| - 1];
      IntervalCountStep(ts, t, ids');
      assert (ts + [t])[..|ts|] == ts;
      assert t.speaker in ids <==> t.speaker in ids' || t.speaker == ids[|ids| - 1];
      if t.speaker == ids[|ids| - 1] {
        assert t.speaker !in ids';
      }
    }
  }

  /** Every Turn contributes exactly one interval to exactly one tier. */
  lemma {:induction false} TextGridCoversTurns(ts: seq<Turn>)
    ensures IntervalCount(ts, Speakers(ts)) == |ts|
    decreases |ts|
  {
    if |ts| > 0 {
      var prefix := ts[..|ts| - 1];
      var t := ts[|ts| - 1];
      TextGridCoversTurns(prefix);
      assert ts == prefix + [t];
      var s := Speakers(prefix);
      IntervalCountStep(prefix, t, s);
      if t.speaker !in s {
        IntervalsOfAbsent(prefix, t.speaker);
        assert IntervalsOf(ts, t.speaker) == [Interval(t.start, t.stop, t.text)];
        var ids := s + [t.speaker];
        assert ids[..|ids| - 1] == s;
      }
    }
  }

  // ----- The constructor -----

  /** Why the constructor raised `ValueError`. */
  datatype TranscriptError = NoTranscript | BadTitle(pieces: nat)

  /** The separator between the recording type and its date in a title. */
  const TitleSeparator: string := " - "

  /** The suffix cut off a file name. */
  const JsonSuffix: string := ".json"

  /** A transcript: the negated flags, the file stem, the recording's name, type and date, and its Turns and grid. */
  datatype Transcript = Transcript(
    damaged: bool,
    unavailable: bool,
    fname: string,
    name: string,
    kind: string,
    date: string,
    mediaLinks: seq<string>,
    turns: seq<Turn>,
    grid: Grid)

  /**
   * `OyezTranscript(json_obj, fname)`. The date stays as the title's text. A
   * missing payload fails before anything else is looked at; a title that
   * does not split into a type and a date fails next.
   */
  method NewTranscript(file: TranscriptFile, fname: string) returns (r: Result<Transcript, TranscriptError>)
    requires file.transcript.Some? && |Split(file.title, TitleSeparator)| == 2 ==>
      TotalBlocks(file.transcript.value.sections) > 0
    ensures file.transcript.None? ==> r == Failure(NoTranscript)
    ensures file.transcript.Some? ==>
      (r.Failure? <==> |Split(file.title, TitleSeparator)| != 2)
    ensures r.Failure? && file.transcript.Some? ==> r.error == BadTitle(|Split(file.title, TitleSeparator)|)
    ensures r.Success? ==>
      var t := r.value;
      var payload := file.transcript.value;
      && t.damaged == !file.damaged && t.unavailable == !file.unavailable
      && t.fname == Split(fname, JsonSuffix)[0]
      && t.name == payload.title
      && [t.kind, t.date] == Split(file.title, TitleSeparator)
      && t.mediaLinks == file.mediaFile
      && t.turns == Flatten(payload.sections) && |t.turns| > 0
      && t.grid == TextGridOf(t.turns)
  {
    if file.transcript.None? {
      return Failure(NoTranscript);
    }
    var payload := file.transcript.value;
    var pieces := Split(file.title, TitleSeparator);
    if |pieces| != 2 {
      return Failure(BadTitle(|pieces|));
    }
    var turns := ParseTranscript(payload.sections);
    FlattenCount(payload.sections);
    var grid := MakeTextGrid(turns);
    r := Success(Transcript(!file.damaged, !file.unavailable, Split(fname, JsonSuffix)[0], payload.title,
                            pieces[0], pieces[1], file.mediaFile, turns, grid));
  }

  /** A title written as `<type> - <date>` gives its type and date back, when the type has no dash and the date no separator. */
  lemma TitleRoundTrip(kind: string, date: string)
    requires '-' !in kind && !Contains(date, TitleSeparator)
    ensures Split(kind + TitleSeparator + date, TitleSeparator) == [kind, date]
  {
    var s := kind + TitleSeparator + date;
    forall j: nat | j < |kind|
      ensures !OccursAt(s, TitleSeparator, j)
    {
      if j + 1 < |kind| {
        assert s[j + 1] == kind[j + 1];
      }
      assert s[j + 1] != '-';
      if j + 3 <= |s| {
        assert s[j..j + 3][1] == s[j + 1];
      }
    }
    SplitHead(kind, TitleSeparator, date);
    SplitSingle(date, TitleSeparator);
  }

  /** The stem of a file named `<stem>.json` is the stem, when the stem has no `.json` of its own. */
  lemma FnameRoundTrip(stem: string)
    requires !Contains(stem, JsonSuffix)
    ensures Split(stem + JsonSuffix, JsonSuffix)[0] == stem
  {
    var s := stem + JsonSuffix;
    assert s == stem + JsonSuffix + [];
    forall j: nat | j < |stem|
      ensures !OccursAt(s, JsonSuffix, j)
    {
      if j + 5 <= |stem| {
        assert !OccursAt(stem, JsonSuffix, j);
        assert stem[j..j + 5] == s[j..j + 5];
      } else {
        assert s[|stem|] == '.';
        assert JsonSuffix[|stem| - j] != '.';
        assert s[j..j + 5][|stem| - j] == s[|stem|];
      }
    }
    SplitHead(stem, JsonSuffix, []);
  }
}
