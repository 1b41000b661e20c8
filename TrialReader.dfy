/**
 * The line serialisers of TrialReader: the graph-corpus lines of one trial
 * (`intervention~effect!tag!phase`), the frequent-pattern row of one trial
 * (`name!name!...!`) and the reduction of the phase text to one character.
 * The lists read from the trial's XML document are parameters.
 */
module TrialReader {
  import opened JavaStrings
  import opened GraphModel
  import FPMiner

  /**
   * getPhase on the text of the `phase` element: the seventh character of a
   * seven-character text such as "Phase 3", otherwise "0".
   */
  function GetPhase(phaseString: string): (r: string)
    ensures |r| == 1
    ensures |phaseString| == 7 ==> r[0] == phaseString[|phaseString| - 1]
    ensures |phaseString| != 7 ==> r == "0"
  {
    if |phaseString| != 7 then "0" else phaseString[6..]
  }

  /** One line of the graph corpus, built as the StringBuilder of generateDatabaseStrings builds it. */
  function GraphLine(intervention: string, effect: string, tag: string, phase: string): string
  {
    intervention + "~" + effect + "!" + tag + "!" + phase
  }

  /** The lines of one intervention for one list of effect names, in list order. */
  function TaggedLines(intervention: string, names: seq<string>, tag: string, phase: string): (r: seq<string>)
    ensures |r| == |names|
  {
    if names == [] then []
    else TaggedLines(intervention, names[..|names| - 1], tag, phase) + [GraphLine(intervention, names[|names| - 1], tag, phase)]
  }

  /** The lines of one intervention: its event lines, then its condition lines. */
  function InterventionLines(intervention: string, events: seq<string>, conditions: seq<string>, phase: string): (r: seq<string>)
    ensures |r| == |events| + |conditions|
  {
    TaggedLines(intervention, events, EventIdentifier, phase) + TaggedLines(intervention, conditions, ConditionIdentifier, phase)
  }

  /** The lines of a trial, intervention by intervention. */
  function DatabaseStrings(interventions: seq<string>, events: seq<string>, conditions: seq<string>, phase: string): seq<string>
  {
    if interventions == [] then []
    else
      DatabaseStrings(interventions[..|interventions| - 1], events, conditions, phase)
      + InterventionLines(interventions[|interventions| - 1], events, conditions, phase)
  }

  lemma {:induction false} TaggedLinesShape(intervention: string, names: seq<string>, tag: string, phase: string)
    ensures forall k | 0 <= k < |names| :: TaggedLines(intervention, names, tag, phase)[k] == GraphLine(intervention, names[k], tag, phase)
  {
    if names != [] {
      TaggedLinesShape(intervention, names[..|names| - 1], tag, phase);
    }
  }

  lemma InterventionLinesShape(intervention: string, events: seq<string>, conditions: seq<string>, phase: string)
    ensures var r := InterventionLines(intervention, events, conditions, phase);
            && (forall b | 0 <= b < |events| :: r[b] == GraphLine(intervention, events[b], EventIdentifier, phase))
            && (forall c | 0 <= c < |conditions| :: r[|events| + c] == GraphLine(intervention, conditions[c], ConditionIdentifier, phase))
  {
    TaggedLinesShape(intervention, events, EventIdentifier, phase);
    TaggedLinesShape(intervention, conditions, ConditionIdentifier, phase);
  }

  /** A trial gives |interventions| * (|events| + |conditions|) lines. */
  lemma {:induction false} DatabaseStringsLength(interventions: seq<string>, events: seq<string>, conditions: seq<string>, phase: string)
    ensures |DatabaseStrings(interventions, events, conditions, phase)| == |interventions| * (|events| + |conditions|)
  {
    if interventions != [] {
      var n := |interventions|;
      DatabaseStringsLength(interventions[..n - 1], events, conditions, phase);
      InterventionLinesShape(interventions[n - 1], events, conditions, phase);
      MulStep(n - 1, |events| + |conditions|);
    }
  }

  /**
   * The lines are in intervention-major order: line a * w + k, for
   * w = |events| + |conditions| and k < w, is line k of the block of
   * intervention a.
   */
  lemma {:induction false} DatabaseStringsAt(interventions: seq<string>, events: seq<string>, conditions: seq<string>, phase: string,
                                             a: nat, k: nat)
    requires a < |interventions| && k < |events| + |conditions|
    ensures a * (|events| + |conditions|) + k < |DatabaseStrings(interventions, events, conditions, phase)|
    ensures DatabaseStrings(interventions, events, conditions, phase)[a * (|events| + |conditions|) + k]
            == InterventionLines(interventions[a], events, conditions, phase)[k]
  {
    var n, w := |interventions|, |events| + |conditions|;
    var init := interventions[..n - 1];
    DatabaseStringsLength(init, events, conditions, phase);
    InterventionLinesShape(interventions[n - 1], events, conditions, phase);
    MulStep(n - 1, w);
    if a < n - 1 {
      DatabaseStringsAt(init, events, conditions, phase, a, k);
      MulBelow(a, n - 1, k, w);
    }
  }

  lemma MulStep(a: nat, w: nat)
    ensures (a + 1) * w == a * w + w
  {
  }

  lemma {:induction false} MulBelow(a: nat, b: nat, k: nat, w: nat)
    requires a < b && k < w
    ensures a * w + k < b * w
    decreases b
  {
    MulStep(b - 1, w);
    if a + 1 < b {
      MulBelow(a, b - 1, k, w);
    } else {
      assert a == b - 1;
    }
  }

  /** The split on '~' of a line with one '~' and a non-empty remainder. */
  lemma TildeSplit(intervention: string, rest: string)
    requires '~' !in intervention && '~' !in rest && rest != ""
    ensures Split(intervention + "~" + rest, '~') == [intervention, rest]
  {
    var line := intervention + "~" + rest;
    assert line == intervention + ['~'] + rest;
    assert line[|intervention|] == '~';
    PiecesOfJoin(intervention, '~', rest);
    PiecesWithoutSeparator(rest, '~');
  }

  /** The split on '!' of three '!'-free fields the last of which is non-empty. */
  lemma FieldSplit(effect: string, tag: string, phase: string)
    requires '!' !in effect && '!' !in tag && '!' !in phase && phase != ""
    ensures Split(effect + "!" + tag + "!" + phase, '!') == [effect, tag, phase]
  {
    var rest := effect + "!" + tag + "!" + phase;
    assert rest == effect + ['!'] + (tag + ['!'] + phase);
    assert rest[|effect|] == '!';
    PiecesOfJoin(effect, '!', tag + ['!'] + phase);
    PiecesOfJoin(tag, '!', phase);
    PiecesWithoutSeparator(phase, '!');
  }

  /**
   * A generated line splits back, as stringToNodes splits it, into its
   * intervention, effect, tag and phase text, provided no name holds a
   * separator it is split on and the phase text is non-empty; it then
   * parses exactly when the phase text is an int.
   */
  lemma GraphLineRoundTrip(intervention: string, effect: string, tag: string, phase: string)
    requires '~' !in intervention && '~' !in effect && '!' !in effect
    requires '~' !in tag && '!' !in tag && '~' !in phase && '!' !in phase && phase != ""
    ensures var line, rest := GraphLine(intervention, effect, tag, phase), effect + "!" + tag + "!" + phase;
            && Split(line, '~') == [intervention, rest]
            && Split(rest, '!') == [effect, tag, phase]
            && ParseLine(line) == match ParseInt(phase)
                                  case None => None
                                  case Some(n) => Some(Parsed(intervention, effect, tag, n))
  {
    var rest := effect + "!" + tag + "!" + phase;
    assert GraphLine(intervention, effect, tag, phase) == intervention + "~" + rest;
    assert '~' !in rest;
    TildeSplit(intervention, rest);
    FieldSplit(effect, tag, phase);
  }

  /**
   * Line a * w + b of a trial, for w = |events| + |conditions|, is the
   * event line of intervention a and event b when b < |events|, and
   * otherwise its condition line for condition b - |events|.
   */
  lemma DatabaseLineAt(interventions: seq<string>, events: seq<string>, conditions: seq<string>, phase: string, a: nat, b: nat)
    requires a < |interventions| && b < |events| + |conditions|
    ensures a * (|events| + |conditions|) + b < |DatabaseStrings(interventions, events, conditions, phase)|
    ensures DatabaseStrings(interventions, events, conditions, phase)[a * (|events| + |conditions|) + b]
            == if b < |events| then GraphLine(interventions[a], events[b], EventIdentifier, phase)
               else GraphLine(interventions[a], conditions[b - |events|], ConditionIdentifier, phase)
  {
    DatabaseStringsAt(interventions, events, conditions, phase, a, b);
    InterventionLinesShape(interventions[a], events, conditions, phase);
    if |events| <= b {
      assert b == |events| + (b - |events|);
    }
  }

  /**
   * Every line of a trial parses back to its intervention and effect name,
   * with tag "e" for an event and "c" for a condition, so that
   * stringToNodes subtracts the phase for an event and adds it for a
   * condition; the phase is the digit getPhase kept, and a line whose phase
   * character is not a digit is dropped.
   */
  lemma DatabaseLinesParse(interventions: seq<string>, events: seq<string>, conditions: seq<string>, phaseString: string,
                           a: nat, b: nat)
    requires forall k | 0 <= k < |interventions| :: '~' !in interventions[k]
    requires forall k | 0 <= k < |events| :: '~' !in events[k] && '!' !in events[k]
    requires forall k | 0 <= k < |conditions| :: '~' !in conditions[k] && '!' !in conditions[k]
    requires GetPhase(phaseString)[0] != '~' && GetPhase(phaseString)[0] != '!'
    requires a < |interventions| && b < |events| + |conditions|
    ensures a * (|events| + |conditions|) + b < |DatabaseStrings(interventions, events, conditions, GetPhase(phaseString))|
    ensures var line := DatabaseStrings(interventions, events, conditions, GetPhase(phaseString))[a * (|events| + |conditions|) + b];
            var c := GetPhase(phaseString)[0];
            && (!IsDigit(c) ==> ParseLine(line) == None)
            && (IsDigit(c) && b < |events| ==>
                  ParseLine(line) == Some(Parsed(interventions[a], events[b], EventIdentifier, c as int - '0' as int))
                  && Delta(ParseLine(line).value) == -((c as int - '0' as int) as real))
            && (IsDigit(c) && |events| <= b ==>
                  ParseLine(line) == Some(Parsed(interventions[a], conditions[b - |events|], ConditionIdentifier, c as int - '0' as int))
                  && Delta(ParseLine(line).value) == (c as int - '0' as int) as real)
  {
    var phase := GetPhase(phaseString);
    DatabaseLineAt(interventions, events, conditions, phase, a, b);
    if b < |events| {
      PhaseLineParse(interventions[a], events[b], EventIdentifier, phaseString);
    } else {
      PhaseLineParse(interventions[a], conditions[b - |events|], ConditionIdentifier, phaseString);
    }
  }

  /** A line with the phase getPhase kept parses exactly when that character is a digit. */
  lemma PhaseLineParse(intervention: string, effect: string, tag: string, phaseString: string)
    requires '~' !in intervention && '~' !in effect && '!' !in effect && '~' !in tag && '!' !in tag
    requires GetPhase(phaseString)[0] != '~' && GetPhase(phaseString)[0] != '!'
    ensures var c := GetPhase(phaseString)[0];
            ParseLine(GraphLine(intervention, effect, tag, GetPhase(phaseString)))
            == if IsDigit(c) then Some(Parsed(intervention, effect, tag, c as int - '0' as int)) else None
  {
    var phase := GetPhase(phaseString);
    assert phase == [phase[0]];
    ParseOneChar(phase[0]);
    GraphLineRoundTrip(intervention, effect, tag, phase);
  }

  /** generateDatabaseStrings over the extracted lists and the text of the phase element. */
  method GenerateDatabaseStrings(interventions: seq<string>, events: seq<string>, conditions: seq<string>, phaseString: string)
    returns (returnList: seq<string>)
    ensures returnList == DatabaseStrings(interventions, events, conditions, GetPhase(phaseString))
  {
    returnList := [];
    var phase := GetPhase(phaseString);
    var x := 0;
    while x < |interventions|
      invariant 0 <= x <= |interventions|
      invariant returnList == DatabaseStrings(interventions[..x], events, conditions, phase)
    {
      var i := interventions[x];
      ghost var front := returnList;
      var y := 0;
      while y < |events|
        invariant 0 <= y <= |events|
        invariant returnList == front + TaggedLines(i, events[..y], EventIdentifier, phase)
      {
        var e := events[y];
        var builder := "";
        builder := builder + i;
        builder := builder + "~";
        builder := builder + e;
        builder := builder + "!";
        builder := builder + EventIdentifier;
        builder := builder + "!";
        builder := builder + phase;
        assert builder == GraphLine(i, e, EventIdentifier, phase);
        assert events[..y + 1][..y] == events[..y];
        returnList := returnList + [builder];
        y := y + 1;
      }
      assert events[..y] == events;
      ghost var middle := returnList;
      var z := 0;
      while z < |conditions|
        invariant 0 <= z <= |conditions|
        invariant returnList == middle + TaggedLines(i, conditions[..z], ConditionIdentifier, phase)
      {
        var c := conditions[z];
        var builder := "";
        builder := builder + i;
        builder := builder + "~";
        builder := builder + c;
        builder := builder + "!";
        builder := builder + ConditionIdentifier;
        builder := builder + "!";
        builder := builder + phase;
        assert builder == GraphLine(i, c, ConditionIdentifier, phase);
        assert conditions[..z + 1][..z] == conditions[..z];
        returnList := returnList + [builder];
        z := z + 1;
      }
      assert conditions[..z] == conditions;
      assert interventions[..x + 1][..x] == interventions[..x];
      x := x + 1;
    }
    assert interventions[..x] == interventions;
  }

  /** The frequent-pattern row of a trial: every intervention name followed by '!'. */
  function FPString(interventions: seq<string>): string
  {
    if interventions == [] then "" else interventions[0] + "!" + FPString(interventions[1..])
  }

  /** Appending a name to the list appends it and a '!' to the row. */
  lemma {:induction false} FPStringAppend(interventions: seq<string>, name: string)
    ensures FPString(interventions + [name]) == FPString(interventions) + name + "!"
  {
    if interventions != [] {
      assert (interventions + [name])[1..] == interventions[1..] + [name];
      FPStringAppend(interventions[1..], name);
    }
  }

  function TotalLength(names: seq<string>): nat
  {
    if names == [] then 0 else |names[0]| + TotalLength(names[1..])
  }

  /** The row holds every name and one '!' per name, so it is empty exactly when there is no intervention. */
  lemma {:induction false} FPStringLength(interventions: seq<string>)
    ensures |FPString(interventions)| == TotalLength(interventions) + |interventions|
    ensures FPString(interventions) == "" <==> interventions == []
  {
    if interventions != [] {
      FPStringLength(interventions[1..]);
    }
  }

  lemma {:induction false} FPStringPieces(interventions: seq<string>)
    requires forall k | 0 <= k < |interventions| :: '!' !in interventions[k]
    ensures Pieces(FPString(interventions), '!') == interventions + [""]
  {
    if interventions != [] {
      var rest := interventions[1..];
      FPStringPieces(rest);
      assert FPString(interventions) == interventions[0] + ['!'] + FPString(rest);
      PiecesOfJoin(interventions[0], '!', FPString(rest));
      assert interventions == [interventions[0]] + rest;
    }
  }

  /**
   * A written row (one with at least one intervention) splits back, as
   * the pattern miner splits its rows, into the intervention names,
   * provided every name is non-empty and holds no '!'.
   */
  lemma FPRowRoundTrip(interventions: seq<string>)
    requires interventions != []
    requires forall k | 0 <= k < |interventions| :: interventions[k] != "" && '!' !in interventions[k]
    ensures FPMiner.Tokens(FPString(interventions)) == interventions
  {
    FPStringPieces(interventions);
    var n := |interventions|;
    assert FPString(interventions) == interventions[0] + ['!'] + FPString(interventions[1..]);
    assert '!' in FPString(interventions);
    var ps := interventions + [""];
    assert ps[..|ps| - 1] == interventions;
    assert StripTrailingEmpty(ps) == StripTrailingEmpty(interventions);
    assert interventions[n - 1] != "";
  }

  /** generateFPString over the extracted intervention names. */
  method GenerateFPString(interventions: seq<string>) returns (s: string)
    ensures s == FPString(interventions)
  {
    var builder := "";
    var k := 0;
    while k < |interventions|
      invariant 0 <= k <= |interventions|
      invariant builder == FPString(interventions[..k])
    {
      var i := interventions[k];
      FPStringAppend(interventions[..k], i);
      assert interventions[..k + 1] == interventions[..k] + [i];
      builder := builder + (i + "!");
      k := k + 1;
    }
    assert interventions[..k] == interventions;
    s := builder;
  }
}
