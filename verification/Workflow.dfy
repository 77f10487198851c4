/**
 The workflow reader's parser: two mutually recursive loops over indented tokens.

 `FlattenEntries` writes a tree back as tokens. Parsing and flattening are proved inverse to each
 other, so the parser accepts exactly the token lists of supported trees.
 */
module Workflow {
  import opened Wrappers

  /** A scalar is a text, or the one supported flow value, a list of a single tag pattern. */
  datatype Scalar = Text(text: string) | TagList

  /** One mapping line: its indentation, whether it starts a step, its key and its scalar if any. */
  datatype Token = Token(indent: nat, item: bool, key: string, value: Option<Scalar>)

  /** A mapping keeps its entries in insertion order, as the source's dictionaries do. */
  datatype Value = Leaf(scalar: Scalar) | Mapping(entries: seq<Entry>) | Steps(steps: seq<Step>)

  datatype Entry = Entry(key: string, value: Value)

  /** A step is a mapping whose first field, a scalar, follows the dash. */
  datatype Step = Step(fields: seq<Entry>)

  datatype Unavailable = DuplicateKey(key: string) | BadNesting | StepWithoutScalar | EmptyWorkflow | BadStructure

  const MAX_LEVEL: nat := 32

  // ----- Writing a tree as tokens

  function FlattenEntries(entries: seq<Entry>, level: nat): seq<Token>
    decreases entries
  {
    if entries == [] then []
    else FlattenEntry(entries[0], level) + FlattenEntries(entries[1..], level)
  }

  function FlattenEntry(e: Entry, level: nat): (ts: seq<Token>)
    ensures ts != [] && ts[0].indent == level && !ts[0].item
    decreases e
  {
    if e.value.Leaf? then [Token(level, false, e.key, Some(e.value.scalar))]
    else [Token(level, false, e.key, None)] + FlattenNode(e.value, level + 2)
  }

  function FlattenNode(v: Value, level: nat): seq<Token>
    decreases v
  {
    match v
    case Leaf(_) => []
    case Mapping(entries) => FlattenEntries(entries, level)
    case Steps(steps) => FlattenSteps(steps, level)
  }

  function FlattenSteps(steps: seq<Step>, level: nat): seq<Token>
    decreases steps
  {
    if steps == [] then [] else FlattenStep(steps[0], level) + FlattenSteps(steps[1..], level)
  }

  /** The first field of a step shares the line of its dash. */
  function FlattenStep(step: Step, level: nat): seq<Token>
    decreases step
  {
    if step.fields == [] || !step.fields[0].value.Leaf? then []
    else
      var first := step.fields[0];
      [Token(level, true, first.key, Some(first.value.scalar))] + FlattenEntries(step.fields[1..], level + 2)
  }

  // ----- Supported trees

  predicate HasKey(entries: seq<Entry>, key: string) {
    exists i | 0 <= i < |entries| :: entries[i].key == key
  }

  ghost predicate DistinctKeys(entries: seq<Entry>) {
    forall i, j | 0 <= i < j < |entries| :: entries[i].key != entries[j].key
  }

  /** A mapping at this level with distinct keys whose nested nodes respect the level cap. */
  ghost predicate Supported(entries: seq<Entry>, level: nat)
    decreases entries, 1
  {
    DistinctKeys(entries) && forall i | 0 <= i < |entries| :: SupportedValue(entries[i].value, level)
  }

  ghost predicate SupportedValue(v: Value, level: nat)
    decreases v, 0
  {
    match v
    case Leaf(_) => true
    case Mapping(entries) => entries != [] ==> level + 2 <= 32 && Supported(entries, level + 2)
    case Steps(steps) =>
      steps != [] && level + 2 <= 32 && forall i | 0 <= i < |steps| :: SupportedStep(steps[i], level + 2)
  }

  ghost predicate SupportedStep(step: Step, level: nat)
    decreases step, 0
  {
    step.fields != [] && step.fields[0].value.Leaf? && Supported(step.fields, level + 2)
  }

  // ----- The parser as functions

  predicate InMapping(ts: seq<Token>, pos: nat, level: nat) {
    pos < |ts| && ts[pos].indent == level && !ts[pos].item
  }

  predicate AtStep(ts: seq<Token>, pos: nat, level: nat) {
    pos < |ts| && ts[pos].indent == level && ts[pos].item
  }

  function ParseEntries(ts: seq<Token>, pos: nat, level: nat, acc: seq<Entry>)
    : (r: Result<(seq<Entry>, nat), Unavailable>)
    requires pos <= |ts|
    ensures r.Ok? ==> pos <= r.value.1 <= |ts|
    ensures r.Ok? && InMapping(ts, pos, level) ==> pos < r.value.1
    decreases |ts| - pos, 2
  {
    if !InMapping(ts, pos, level) then Ok((acc, pos))
    else if HasKey(acc, ts[pos].key) then Err(DuplicateKey(ts[pos].key))
    else
      match ParseValue(ts, pos, level)
      case Err(e) => Err(e)
      case Ok((v, next)) => ParseEntries(ts, next, level, acc + [Entry(ts[pos].key, v)])
  }

  /** The value of the entry whose key stands at `pos`. */
  function ParseValue(ts: seq<Token>, pos: nat, level: nat): (r: Result<(Value, nat), Unavailable>)
    requires pos < |ts|
    ensures r.Ok? ==> pos < r.value.1 <= |ts|
    decreases |ts| - pos, 0
  {
    if ts[pos].value.Some? then Ok((Leaf(ts[pos].value.value), pos + 1))
    else if pos + 1 < |ts| && ts[pos + 1].indent > level then ParseNode(ts, pos + 1, level + 2)
    else Ok((Mapping([]), pos + 1))
  }

  function ParseNode(ts: seq<Token>, pos: nat, level: nat): (r: Result<(Value, nat), Unavailable>)
    requires pos < |ts|
    ensures r.Ok? ==> pos < r.value.1 <= |ts|
    decreases |ts| - pos, 3
  {
    if level > MAX_LEVEL || ts[pos].indent != level then Err(BadNesting)
    else if !ts[pos].item then
      match ParseEntries(ts, pos, level, [])
      case Err(e) => Err(e)
      case Ok((entries, end)) => Ok((Mapping(entries), end))
    else
      match ParseSteps(ts, pos, level, [])
      case Err(e) => Err(e)
      case Ok((steps, end)) => Ok((Steps(steps), end))
  }

  function ParseSteps(ts: seq<Token>, pos: nat, level: nat, acc: seq<Step>): (r: Result<(seq<Step>, nat), Unavailable>)
    requires pos <= |ts|
    ensures r.Ok? ==> pos <= r.value.1 <= |ts|
    ensures r.Ok? && AtStep(ts, pos, level) ==> pos < r.value.1
    decreases |ts| - pos, 2
  {
    if !AtStep(ts, pos, level) then Ok((acc, pos))
    else
      match ParseStep(ts, pos, level)
      case Err(e) => Err(e)
      case Ok((fields, next)) => ParseSteps(ts, next, level, acc + [Step(fields)])
  }

  function ParseStep(ts: seq<Token>, pos: nat, level: nat): (r: Result<(seq<Entry>, nat), Unavailable>)
    requires pos < |ts|
    ensures r.Ok? ==> pos < r.value.1 <= |ts|
    decreases |ts| - pos, 1
  {
    if ts[pos].value.None? then Err(StepWithoutScalar)
    else ParseEntries(ts, pos + 1, level + 2, [Entry(ts[pos].key, Leaf(ts[pos].value.value))])
  }

  function Parse(ts: seq<Token>): Result<seq<Entry>, Unavailable> {
    if ts == [] then Err(EmptyWorkflow)
    else
      match ParseNode(ts, 0, 0)
      case Err(e) => Err(e)
      case Ok((v, end)) => if end != |ts| || !v.Mapping? then Err(BadStructure) else Ok(v.entries)
  }

  // ----- The loops of the source

  method ReadMapping(ts: seq<Token>, start: nat, level: nat, initial: seq<Entry>)
    returns (r: Result<(seq<Entry>, nat), Unavailable>)
    requires start <= |ts|
    ensures r == ParseEntries(ts, start, level, initial)
    decreases |ts| - start, 0
  {
    var pos, result := start, initial;
    while InMapping(ts, pos, level)
      invariant start <= pos <= |ts|
      invariant ParseEntries(ts, start, level, initial) == ParseEntries(ts, pos, level, result)
      decreases |ts| - pos
    {
      var key, scalar := ts[pos].key, ts[pos].value;
      if HasKey(result, key) {
        return Err(DuplicateKey(key));
      }
      pos := pos + 1;
      var value := Mapping([]);
      if scalar.Some? {
        value := Leaf(scalar.value);
      } else if pos < |ts| && ts[pos].indent > level {
        var nested := ReadNode(ts, pos, level + 2);
        if nested.Err? {
          return Err(nested.error);
        }
        value, pos := nested.value.0, nested.value.1;
      }
      result := result + [Entry(key, value)];
    }
    return Ok((result, pos));
  }

  method ReadNode(ts: seq<Token>, start: nat, level: nat) returns (r: Result<(Value, nat), Unavailable>)
    requires start < |ts|
    ensures r == ParseNode(ts, start, level)
    decreases |ts| - start, 1
  {
    if level > MAX_LEVEL || ts[start].indent != level {
      return Err(BadNesting);
    }
    if !ts[start].item {
      var m := ReadMapping(ts, start, level, []);
      return if m.Err? then Err(m.error) else Ok((Mapping(m.value.0), m.value.1));
    }
    var pos, result := start, [];
    while AtStep(ts, pos, level)
      invariant start <= pos <= |ts|
      invariant ParseSteps(ts, start, level, []) == ParseSteps(ts, pos, level, result)
      decreases |ts| - pos
    {
      if ts[pos].value.None? {
        return Err(StepWithoutScalar);
      }
      var step := ReadMapping(ts, pos + 1, level + 2, [Entry(ts[pos].key, Leaf(ts[pos].value.value))]);
      if step.Err? {
        return Err(step.error);
      }
      result, pos := result + [Step(step.value.0)], step.value.1;
    }
    return Ok((Steps(result), pos));
  }

  method Load(ts: seq<Token>) returns (r: Result<seq<Entry>, Unavailable>)
    ensures r == Parse(ts)
    ensures r.Ok? ==> r.value != [] && Supported(r.value, 0) && FlattenEntries(r.value, 0) == ts
    ensures r.Err? ==>
              Truthful(ts, r.error) && forall es | es != [] && Supported(es, 0) :: FlattenEntries(es, 0) != ts
  {
    AcceptsIffFlattened(ts);
    if Parse(ts).Ok? { FlattenOfParse(ts); } else { ErrorsAreTruthful(ts); }
    if ts == [] {
      return Err(EmptyWorkflow);
    }
    var root := ReadNode(ts, 0, 0);
    if root.Err? {
      return Err(root.error);
    }
    if root.value.1 != |ts| || !root.value.0.Mapping? {
      return Err(BadStructure);
    }
    return Ok(root.value.0.entries);
  }

  // ----- Parsing what was flattened

  /** Nothing at `pos` continues a mapping, or a nested node, of this level. */
  ghost predicate MappingEnds(ts: seq<Token>, pos: nat, level: nat) {
    pos >= |ts| || ts[pos].indent < level || (ts[pos].indent == level && ts[pos].item)
  }

  ghost predicate StepsEnd(ts: seq<Token>, pos: nat, level: nat) {
    pos >= |ts| || ts[pos].indent < level || (ts[pos].indent == level && !ts[pos].item)
  }

  /** `part` stands in `ts` at `pos`. */
  ghost predicate StandsAt(ts: seq<Token>, pos: nat, part: seq<Token>) {
    pos + |part| <= |ts| && ts[pos..pos + |part|] == part
  }

  lemma StandsInTurn(ts: seq<Token>, pos: nat, a: seq<Token>, b: seq<Token>)
    requires StandsAt(ts, pos, a + b)
    ensures StandsAt(ts, pos, a) && StandsAt(ts, pos + |a|, b)
    ensures a != [] ==> ts[pos] == a[0]
    ensures b != [] ==> ts[pos + |a|] == b[0]
  {
    assert ts[pos..pos + |a|] == (a + b)[..|a|];
    assert ts[pos + |a|..pos + |a| + |b|] == (a + b)[|a|..];
    if a != [] { assert ts[pos..pos + |a|][0] == ts[pos]; }
    if b != [] { assert ts[pos + |a|..pos + |a| + |b|][0] == ts[pos + |a|]; }
  }

  lemma {:induction false} ParseFlattened(ts: seq<Token>, pos: nat, level: nat, acc: seq<Entry>, entries: seq<Entry>)
    requires DistinctKeys(acc + entries)
    requires forall i | 0 <= i < |entries| :: SupportedValue(entries[i].value, level)
    requires StandsAt(ts, pos, FlattenEntries(entries, level))
    requires MappingEnds(ts, pos + |FlattenEntries(entries, level)|, level)
    ensures ParseEntries(ts, pos, level, acc) == Ok((acc + entries, pos + |FlattenEntries(entries, level)|))
    decreases entries, 1
  {
    hide ParseEntries, ParseValue, FlattenEntries, FlattenEntry, SupportedValue;
    if entries == [] {
      NoMoreEntries(ts, pos, level, acc);
    } else {
      var e, rest := entries[0], entries[1..];
      var next := FirstEntryStands(ts, pos, level, entries);
      ParseFlattenedEntry(ts, pos, level, e);
      NewKey(acc, entries);
      OneMoreEntry(ts, pos, level, acc, e, next);
      ParseFlattened(ts, next, level, acc + [e], rest);
    }
  }

  lemma OneMoreEntry(ts: seq<Token>, pos: nat, level: nat, acc: seq<Entry>, e: Entry, next: nat)
    requires InMapping(ts, pos, level) && ts[pos].key == e.key && !HasKey(acc, e.key)
    requires ParseValue(ts, pos, level) == Ok((e.value, next))
    ensures ParseEntries(ts, pos, level, acc) == ParseEntries(ts, next, level, acc + [e])
  {
    assert e == Entry(ts[pos].key, e.value);
  }

  lemma OneMoreStep(ts: seq<Token>, pos: nat, level: nat, acc: seq<Step>, step: Step, next: nat)
    requires AtStep(ts, pos, level) && ParseStep(ts, pos, level) == Ok((step.fields, next))
    ensures ParseSteps(ts, pos, level, acc) == ParseSteps(ts, next, level, acc + [step])
  {
    assert step == Step(step.fields);
  }

  lemma NoMoreEntries(ts: seq<Token>, pos: nat, level: nat, acc: seq<Entry>)
    requires StandsAt(ts, pos, FlattenEntries([], level)) && MappingEnds(ts, pos + |FlattenEntries([], level)|, level)
    ensures ParseEntries(ts, pos, level, acc) == Ok((acc + [], pos + |FlattenEntries([], level)|))
  {
    assert acc + [] == acc;
  }

  lemma NoMoreSteps(ts: seq<Token>, pos: nat, level: nat, acc: seq<Step>)
    requires StandsAt(ts, pos, FlattenSteps([], level)) && StepsEnd(ts, pos + |FlattenSteps([], level)|, level)
    ensures ParseSteps(ts, pos, level, acc) == Ok((acc + [], pos + |FlattenSteps([], level)|))
  {
    assert acc + [] == acc;
  }

  lemma NewKey(acc: seq<Entry>, entries: seq<Entry>)
    requires entries != [] && DistinctKeys(acc + entries)
    ensures !HasKey(acc, entries[0].key) && acc + entries == acc + [entries[0]] + entries[1..]
  {
    forall i | 0 <= i < |acc| ensures acc[i].key != entries[0].key {
      assert (acc + entries)[i] == acc[i] && (acc + entries)[|acc|] == entries[0];
    }
  }

  lemma FirstEntryStands(ts: seq<Token>, pos: nat, level: nat, entries: seq<Entry>) returns (next: nat)
    requires entries != [] && StandsAt(ts, pos, FlattenEntries(entries, level))
    requires MappingEnds(ts, pos + |FlattenEntries(entries, level)|, level)
    ensures next == pos + |FlattenEntry(entries[0], level)|
    ensures StandsAt(ts, pos, FlattenEntry(entries[0], level))
    ensures StandsAt(ts, next, FlattenEntries(entries[1..], level))
    ensures next + |FlattenEntries(entries[1..], level)| == pos + |FlattenEntries(entries, level)|
    ensures next == |ts| || ts[next].indent <= level
  {
    var head, tail := FlattenEntry(entries[0], level), FlattenEntries(entries[1..], level);
    StandsInTurn(ts, pos, head, tail);
    next := pos + |head|;
    if entries[1..] != [] { EntriesHead(entries[1..], level); }
  }

  /** From the line of an entry's key the parser finds the entry's value and stops behind it. */
  lemma {:induction false} ParseFlattenedEntry(ts: seq<Token>, pos: nat, level: nat, e: Entry)
    requires SupportedValue(e.value, level)
    requires StandsAt(ts, pos, FlattenEntry(e, level))
    requires var next := pos + |FlattenEntry(e, level)|; next == |ts| || ts[next].indent <= level
    ensures InMapping(ts, pos, level) && ts[pos].key == e.key
    ensures ParseValue(ts, pos, level) == Ok((e.value, pos + |FlattenEntry(e, level)|))
    decreases e, 0
  {
    if e.value.Leaf? {
      StandsInTurn(ts, pos, FlattenEntry(e, level), []);
    } else {
      StandsInTurn(ts, pos, [Token(level, false, e.key, None)], FlattenNode(e.value, level + 2));
      if e.value == Mapping([]) {
        assert FlattenNode(e.value, level + 2) == [];
      } else {
        ParseFlattenedNode(ts, pos + 1, level, e.value);
      }
    }
  }

  lemma {:induction false} ParseFlattenedNode(ts: seq<Token>, pos: nat, level: nat, v: Value)
    requires SupportedValue(v, level) && !v.Leaf? && v != Mapping([])
    requires StandsAt(ts, pos, FlattenNode(v, level + 2))
    requires var next := pos + |FlattenNode(v, level + 2)|; next == |ts| || ts[next].indent <= level
    ensures pos < |ts| && ts[pos].indent == level + 2
    ensures ParseNode(ts, pos, level + 2) == Ok((v, pos + |FlattenNode(v, level + 2)|))
    decreases v, 0
  {
    var flat := FlattenNode(v, level + 2);
    assert flat + [] == flat;
    StandsInTurn(ts, pos, flat, []);
    if v.Mapping? {
      EntriesHead(v.entries, level + 2);
      assert [] + v.entries == v.entries;
      ParseFlattened(ts, pos, level + 2, [], v.entries);
    } else {
      assert SupportedStep(v.steps[0], level + 2);
      StepsHead(v.steps, level + 2);
      assert [] + v.steps == v.steps;
      ParseFlattenedSteps(ts, pos, level + 2, [], v.steps);
    }
  }

  lemma EntriesHead(entries: seq<Entry>, level: nat)
    requires entries != []
    ensures var flat := FlattenEntries(entries, level); flat != [] && flat[0].indent == level && !flat[0].item
  {}

  lemma StepsHead(steps: seq<Step>, level: nat)
    requires steps != [] && SupportedStep(steps[0], level)
    ensures var flat := FlattenSteps(steps, level); flat != [] && flat[0].indent == level && flat[0].item
  {
    assert FlattenStep(steps[0], level) != [];
  }

  lemma {:induction false} ParseFlattenedSteps(ts: seq<Token>, pos: nat, level: nat, acc: seq<Step>, steps: seq<Step>)
    requires forall i | 0 <= i < |steps| :: SupportedStep(steps[i], level)
    requires StandsAt(ts, pos, FlattenSteps(steps, level))
    requires StepsEnd(ts, pos + |FlattenSteps(steps, level)|, level)
    ensures ParseSteps(ts, pos, level, acc) == Ok((acc + steps, pos + |FlattenSteps(steps, level)|))
    decreases steps, 1
  {
    hide ParseSteps, ParseStep, FlattenSteps, FlattenStep, SupportedStep;
    if steps == [] {
      NoMoreSteps(ts, pos, level, acc);
    } else {
      var step, rest := steps[0], steps[1..];
      var next := FirstStepStands(ts, pos, level, steps);
      ParseFlattenedStep(ts, pos, level, step);
      OneMoreStep(ts, pos, level, acc, step, next);
      assert acc + steps == acc + [step] + rest;
      forall i | 0 <= i < |rest| ensures SupportedStep(rest[i], level) { assert rest[i] == steps[i + 1]; }
      ParseFlattenedSteps(ts, next, level, acc + [step], rest);
    }
  }

  lemma FirstStepStands(ts: seq<Token>, pos: nat, level: nat, steps: seq<Step>) returns (next: nat)
    requires steps != [] && forall i | 0 <= i < |steps| :: SupportedStep(steps[i], level)
    requires StandsAt(ts, pos, FlattenSteps(steps, level))
    requires StepsEnd(ts, pos + |FlattenSteps(steps, level)|, level)
    ensures next == pos + |FlattenStep(steps[0], level)|
    ensures StandsAt(ts, pos, FlattenStep(steps[0], level)) && StandsAt(ts, next, FlattenSteps(steps[1..], level))
    ensures next + |FlattenSteps(steps[1..], level)| == pos + |FlattenSteps(steps, level)|
    ensures next == |ts| || ts[next].indent <= level
  {
    var head, tail := FlattenStep(steps[0], level), FlattenSteps(steps[1..], level);
    StandsInTurn(ts, pos, head, tail);
    next := pos + |head|;
    if steps[1..] != [] {
      assert steps[1..][0] == steps[1] && SupportedStep(steps[1], level);
      StepsHead(steps[1..], level);
    }
  }

  lemma {:induction false} ParseFlattenedStep(ts: seq<Token>, pos: nat, level: nat, step: Step)
    requires SupportedStep(step, level) && StandsAt(ts, pos, FlattenStep(step, level))
    requires var next := pos + |FlattenStep(step, level)|; next == |ts| || ts[next].indent <= level
    ensures AtStep(ts, pos, level) && step == Step(step.fields)
    ensures ParseStep(ts, pos, level) == Ok((step.fields, pos + |FlattenStep(step, level)|))
    decreases step, 0
  {
    var first, fields := step.fields[0], step.fields[1..];
    StandsInTurn(ts, pos, [Token(level, true, first.key, Some(first.value.scalar))], FlattenEntries(fields, level + 2));
    assert [first] + fields == step.fields;
    assert first == Entry(first.key, Leaf(first.value.scalar));
    ParseFlattened(ts, pos + 1, level + 2, [first], fields);
  }

  // ----- Flattening what was parsed

  /** `part` is the stretch of `ts` between the two positions. */
  ghost predicate Covers(ts: seq<Token>, pos: nat, end: nat, part: seq<Token>) {
    pos <= end <= |ts| && ts[pos..end] == part
  }

  lemma CoversBoth(ts: seq<Token>, pos: nat, mid: nat, end: nat, a: seq<Token>, b: seq<Token>)
    requires Covers(ts, pos, mid, a) && Covers(ts, mid, end, b)
    ensures Covers(ts, pos, end, a + b)
  {}

  lemma CoversOne(ts: seq<Token>, pos: nat)
    requires pos < |ts|
    ensures Covers(ts, pos, pos + 1, [ts[pos]]) && Covers(ts, pos, pos, [])
  {}

  lemma {:induction false} FlattenParsed(ts: seq<Token>, pos: nat, level: nat, acc: seq<Entry>)
    requires pos <= |ts| && ParseEntries(ts, pos, level, acc).Ok? && DistinctKeys(acc)
    ensures var (entries, end) := ParseEntries(ts, pos, level, acc).value;
            && acc <= entries && DistinctKeys(entries)
            && Covers(ts, pos, end, FlattenEntries(entries[|acc|..], level))
            && forall i | |acc| <= i < |entries| :: SupportedValue(entries[i].value, level)
    decreases |ts| - pos, 2
  {
    if InMapping(ts, pos, level) {
      var (entries, end) := ParseEntries(ts, pos, level, acc).value;
      var (v, next) := ParseValue(ts, pos, level).value;
      var e := Entry(ts[pos].key, v);
      FlattenParsedEntry(ts, pos, level);
      FlattenParsed(ts, next, level, acc + [e]);
      var added := entries[|acc| + 1..];
      assert entries[|acc|] == e && entries[|acc|..][1..] == added;
      CoversBoth(ts, pos, next, end, FlattenEntry(e, level), FlattenEntries(added, level));
    }
  }

  lemma {:induction false} FlattenParsedEntry(ts: seq<Token>, pos: nat, level: nat)
    requires InMapping(ts, pos, level) && ParseValue(ts, pos, level).Ok?
    ensures var (v, next) := ParseValue(ts, pos, level).value;
            SupportedValue(v, level) && Covers(ts, pos, next, FlattenEntry(Entry(ts[pos].key, v), level))
    decreases |ts| - pos, 0
  {
    CoversOne(ts, pos);
    var (v, next) := ParseValue(ts, pos, level).value;
    if ts[pos].value.None? && pos + 1 < |ts| && ts[pos + 1].indent > level {
      FlattenParsedNode(ts, pos + 1, level);
      CoversBoth(ts, pos, pos + 1, next, [ts[pos]], FlattenNode(v, level + 2));
    }
  }

  lemma {:induction false} FlattenParsedNode(ts: seq<Token>, pos: nat, level: nat)
    requires pos < |ts| && ParseNode(ts, pos, level + 2).Ok?
    ensures var (v, end) := ParseNode(ts, pos, level + 2).value;
            !v.Leaf? && SupportedValue(v, level) && Covers(ts, pos, end, FlattenNode(v, level + 2))
    decreases |ts| - pos, 3
  {
    var (v, end) := ParseNode(ts, pos, level + 2).value;
    if !ts[pos].item {
      FlattenParsed(ts, pos, level + 2, []);
      assert v.entries[0..] == v.entries;
    } else {
      FlattenParsedSteps(ts, pos, level + 2, []);
      assert v.steps[0..] == v.steps;
    }
  }

  lemma {:induction false} FlattenParsedSteps(ts: seq<Token>, pos: nat, level: nat, acc: seq<Step>)
    requires pos <= |ts| && ParseSteps(ts, pos, level, acc).Ok?
    ensures var (steps, end) := ParseSteps(ts, pos, level, acc).value;
            && acc <= steps
            && Covers(ts, pos, end, FlattenSteps(steps[|acc|..], level))
            && forall i | |acc| <= i < |steps| :: SupportedStep(steps[i], level)
    decreases |ts| - pos, 2
  {
    if AtStep(ts, pos, level) {
      var (steps, end) := ParseSteps(ts, pos, level, acc).value;
      var (fields, next) := ParseStep(ts, pos, level).value;
      var step := Step(fields);
      FlattenParsedStep(ts, pos, level);
      FlattenParsedSteps(ts, next, level, acc + [step]);
      var added := steps[|acc| + 1..];
      assert steps[|acc|] == step && steps[|acc|..][1..] == added;
      CoversBoth(ts, pos, next, end, FlattenStep(step, level), FlattenSteps(added, level));
    }
  }

  lemma {:induction false} FlattenParsedStep(ts: seq<Token>, pos: nat, level: nat)
    requires AtStep(ts, pos, level) && ParseStep(ts, pos, level).Ok?
    ensures var (fields, next) := ParseStep(ts, pos, level).value;
            SupportedStep(Step(fields), level) && Covers(ts, pos, next, FlattenStep(Step(fields), level))
    decreases |ts| - pos, 1
  {
    var (fields, next) := ParseStep(ts, pos, level).value;
    var first := Entry(ts[pos].key, Leaf(ts[pos].value.value));
    FlattenParsed(ts, pos + 1, level + 2, [first]);
    assert fields[0] == first;
    assert forall i | 0 < i < |fields| :: SupportedValue(fields[i].value, level + 2);
    CoversOne(ts, pos);
    CoversBoth(ts, pos, pos + 1, next, [ts[pos]], FlattenEntries(fields[1..], level + 2));
  }

  // ----- Exact inversion

  /** Every supported tree is read back from its tokens. */
  lemma ParseOfFlatten(entries: seq<Entry>)
    requires entries != [] && Supported(entries, 0)
    ensures Parse(FlattenEntries(entries, 0)) == Ok(entries)
  {
    var ts := FlattenEntries(entries, 0);
    assert ts[0] == FlattenEntry(entries[0], 0)[0];
    assert ts[0..0 + |ts|] == ts && [] + entries == entries;
    ParseFlattened(ts, 0, 0, [], entries);
  }

  /** Whatever is accepted is a supported tree, without duplicate keys, and its tokens are the input. */
  lemma FlattenOfParse(ts: seq<Token>)
    requires Parse(ts).Ok?
    ensures var entries := Parse(ts).value;
            entries != [] && Supported(entries, 0) && FlattenEntries(entries, 0) == ts
  {
    FlattenParsed(ts, 0, 0, []);
    var (entries, end) := ParseEntries(ts, 0, 0, []).value;
    assert entries[0..] == entries && ts[0..end] == ts;
  }

  /** The parser accepts exactly the flattenings of supported trees. */
  lemma AcceptsIffFlattened(ts: seq<Token>)
    ensures Parse(ts).Ok? <==>
              exists entries :: entries != [] && Supported(entries, 0) && FlattenEntries(entries, 0) == ts
  {
    if Parse(ts).Ok? {
      FlattenOfParse(ts);
    }
    if entries :| entries != [] && Supported(entries, 0) && FlattenEntries(entries, 0) == ts {
      ParseOfFlatten(entries);
    }
  }

  // ----- What an error says

  /** The input gives reason for the error. */
  ghost predicate Truthful(ts: seq<Token>, e: Unavailable) {
    match e
    case DuplicateKey(key) => exists i, j :: 0 <= i < j < |ts| && ts[i].key == key == ts[j].key
    case StepWithoutScalar => exists i :: 0 <= i < |ts| && ts[i].item && ts[i].value.None?
    case BadNesting => ts != [] && (ts[0].indent != 0 || exists i :: NestsBadly(ts, i))
    case EmptyWorkflow => ts == []
    case BadStructure => ts != []
  }

  /** A deeper line follows a key without value, but not two columns deeper or beyond column 32. */
  ghost predicate NestsBadly(ts: seq<Token>, i: int) {
    && 0 < i < |ts| && ts[i - 1].value.None? && ts[i].indent > ts[i - 1].indent
    && (ts[i].indent != ts[i - 1].indent + 2 || ts[i].indent > 32)
  }

  /** All keys of `entries` stand before `pos`. */
  ghost predicate KeysBefore(ts: seq<Token>, pos: nat, entries: seq<Entry>) {
    forall e | e in entries :: exists i :: 0 <= i < pos && i < |ts| && ts[i].key == e.key
  }

  lemma {:induction false} EntriesFailTruthfully(ts: seq<Token>, pos: nat, level: nat, acc: seq<Entry>)
    requires pos <= |ts| && KeysBefore(ts, pos, acc) && ParseEntries(ts, pos, level, acc).Err?
    ensures Truthful(ts, ParseEntries(ts, pos, level, acc).error)
    decreases |ts| - pos, 2
  {
    if !HasKey(acc, ts[pos].key) {
      match ParseValue(ts, pos, level)
      case Err(_) => NodeFailsTruthfully(ts, pos + 1, level + 2);
      case Ok((v, next)) => EntriesFailTruthfully(ts, next, level, acc + [Entry(ts[pos].key, v)]);
    } else {
      var k :| 0 <= k < |acc| && acc[k].key == ts[pos].key;
      assert acc[k] in acc;
    }
  }

  lemma {:induction false} NodeFailsTruthfully(ts: seq<Token>, pos: nat, level: nat)
    requires pos < |ts| && ParseNode(ts, pos, level).Err?
    requires (pos == 0 && level == 0)
          || (pos > 0 && ts[pos - 1].value.None? && ts[pos - 1].indent + 2 == level
              && ts[pos].indent > ts[pos - 1].indent)
    ensures Truthful(ts, ParseNode(ts, pos, level).error)
    decreases |ts| - pos, 3
  {
    if level > MAX_LEVEL || ts[pos].indent != level {
      assert pos > 0 ==> NestsBadly(ts, pos);
    } else if !ts[pos].item {
      EntriesFailTruthfully(ts, pos, level, []);
    } else {
      StepsFailTruthfully(ts, pos, level, []);
    }
  }

  lemma {:induction false} StepsFailTruthfully(ts: seq<Token>, pos: nat, level: nat, acc: seq<Step>)
    requires pos <= |ts| && ParseSteps(ts, pos, level, acc).Err?
    ensures Truthful(ts, ParseSteps(ts, pos, level, acc).error)
    decreases |ts| - pos, 2
  {
    if ts[pos].value.Some? {
      match ParseStep(ts, pos, level)
      case Err(_) =>
        EntriesFailTruthfully(ts, pos + 1, level + 2, [Entry(ts[pos].key, Leaf(ts[pos].value.value))]);
      case Ok((fields, next)) => StepsFailTruthfully(ts, next, level, acc + [Step(fields)]);
    }
  }

  /** Whatever is refused gives reason for its error: a key that occurs twice, a bad nesting, and so on. */
  lemma ErrorsAreTruthful(ts: seq<Token>)
    requires Parse(ts).Err?
    ensures Truthful(ts, Parse(ts).error)
  {
    if ts != [] && ParseNode(ts, 0, 0).Err? { NodeFailsTruthfully(ts, 0, 0); }
  }
}
