/**
 The cfg predicate reader of the closed-enum check: a parser over token trees fused with evaluation
 in three-valued logic, and the collection of the enums that are not provably disabled.
 */
module Cfg {
  import opened Wrappers

  /** Token trees: parentheses are already matched; `raw` marks an `r#` identifier. */
  datatype Tok =
    | Word(raw: bool, name: string)
    | Equals
    | StrLit(value: string)
    | Comma
    | Paren(inner: seq<Tok>)
    | Punct(c: char)

  datatype CfgTruth = False | True | Unknown

  // ----- The parser fused with evaluation

  predicate IsBool(t: Tok) { t.Word? && !t.raw && (t.name == "true" || t.name == "false") }

  /** Three-valued conjunction or disjunction of a list of verdicts, by its decisive value. */
  function Decide(values: seq<CfgTruth>, decisive: CfgTruth, otherwise: CfgTruth): CfgTruth {
    if decisive in values then decisive
    else if Unknown in values then Unknown
    else otherwise
  }

  function Negate(v: CfgTruth): CfgTruth {
    match v
    case False => True
    case True => False
    case Unknown => Unknown
  }

  /** Parse one predicate from position `pos`, or `None` on a syntax error. */
  function ParseTruth(ts: seq<Tok>, pos: nat): (r: Option<(CfgTruth, nat)>)
    requires pos <= |ts|
    ensures r.Some? ==> pos < r.value.1 <= |ts|
    decreases ts, |ts| - pos, 0
  {
    if pos == |ts| || !ts[pos].Word? then None
    else if IsBool(ts[pos]) then Some((if ts[pos].name == "true" then True else False, pos + 1))
    else
      var name, next := ts[pos].name, pos + 1;
      if next < |ts| && ts[next] == Equals then
        if next + 1 < |ts| && ts[next + 1].StrLit? then Some((Unknown, next + 2)) else None
      else if next < |ts| && ts[next].Paren? then
        match ParseList(ts[next].inner, 0)
        case None => None
        case Some(values) =>
          if name == "all" then Some((Decide(values, False, True), next + 1))
          else if name == "any" then Some((Decide(values, True, False), next + 1))
          else if name == "not" && |values| == 1 then Some((Negate(values[0]), next + 1))
          else None
      else Some((if name == "test" then False else Unknown, next))
  }

  /** Parse comma-separated predicates, with an optional trailing comma, to the end of the group. */
  function ParseList(ts: seq<Tok>, pos: nat): Option<seq<CfgTruth>>
    requires pos <= |ts|
    decreases ts, |ts| - pos, 1
  {
    if pos == |ts| then Some([])
    else
      match ParseTruth(ts, pos)
      case None => None
      case Some((v, next)) =>
        if next == |ts| then Some([v])
        else if ts[next] != Comma then None
        else
          match ParseList(ts, next + 1)
          case None => None
          case Some(rest) => Some([v] + rest)
  }

  /** The attribute's argument: one predicate, perhaps a comma, and nothing else. */
  function ParseArgument(ts: seq<Tok>): Option<CfgTruth> {
    match ParseTruth(ts, 0)
    case None => None
    case Some((v, next)) =>
      var end := if next < |ts| && ts[next] == Comma then next + 1 else next;
      if end == |ts| then Some(v) else None
  }

  // ----- Predicates and what they mean

  /** Syntax of predicates; `trailing` remembers a comma after the last argument. */
  datatype Pred =
    | Lit(b: bool)
    | Bare(raw: bool, name: string)
    | KeyValue(raw: bool, key: string, value: string)
    | All(raw: bool, args: seq<Pred>, trailing: bool)
    | Any(raw: bool, args: seq<Pred>, trailing: bool)
    | Not(raw: bool, arg: Pred, trailing: bool)

  datatype Setting = Flag(name: string) | Pair(key: string, value: string)

  /** A build is the set of options that are set in it. */
  type Build = set<Setting>

  const TEST := Flag("test")

  /** The meaning of a predicate in a build. */
  predicate Holds(p: Pred, build: Build) {
    match p
    case Lit(b) => b
    case Bare(_, name) => Flag(name) in build
    case KeyValue(_, key, value) => Pair(key, value) in build
    case All(_, args, _) => forall i | 0 <= i < |args| :: Holds(args[i], build)
    case Any(_, args, _) => exists i | 0 <= i < |args| :: Holds(args[i], build)
    case Not(_, arg, _) => !Holds(arg, build)
  }

  /** Evaluation of the syntax tree in three-valued logic: `test` is off and nothing else is known. */
  function Eval(p: Pred): CfgTruth {
    match p
    case Lit(b) => if b then True else False
    case Bare(_, name) => if name == "test" then False else Unknown
    case KeyValue(_, _, _) => Unknown
    case All(_, args, _) => Decide(EvalAll(args), False, True)
    case Any(_, args, _) => Decide(EvalAll(args), True, False)
    case Not(_, arg, _) => Negate(Eval(arg))
  }

  function EvalAll(args: seq<Pred>): (values: seq<CfgTruth>)
    ensures |values| == |args| && forall i | 0 <= i < |args| :: values[i] == Eval(args[i])
  {
    if args == [] then [] else [Eval(args[0])] + EvalAll(args[1..])
  }

  // ----- Writing predicates as tokens

  ghost predicate Writable(p: Pred) {
    match p
    case Lit(_) => true
    case Bare(raw, name) => !IsBool(Word(raw, name))
    case KeyValue(raw, key, _) => !IsBool(Word(raw, key))
    case All(_, args, trailing) => (trailing ==> args != []) && forall i | 0 <= i < |args| :: Writable(args[i])
    case Any(_, args, trailing) => (trailing ==> args != []) && forall i | 0 <= i < |args| :: Writable(args[i])
    case Not(_, arg, _) => Writable(arg)
  }

  function Write(p: Pred): (ts: seq<Tok>)
    ensures ts != []
  {
    match p
    case Lit(b) => [Word(false, if b then "true" else "false")]
    case Bare(raw, name) => [Word(raw, name)]
    case KeyValue(raw, key, value) => [Word(raw, key), Equals, StrLit(value)]
    case All(raw, args, trailing) => [Word(raw, "all"), Paren(WriteList(args, trailing))]
    case Any(raw, args, trailing) => [Word(raw, "any"), Paren(WriteList(args, trailing))]
    case Not(raw, arg, trailing) => [Word(raw, "not"), Paren(Write(arg) + (if trailing then [Comma] else []))]
  }

  function WriteList(args: seq<Pred>, trailing: bool): seq<Tok> {
    if args == [] then []
    else if |args| == 1 then Write(args[0]) + (if trailing then [Comma] else [])
    else Write(args[0]) + [Comma] + WriteList(args[1..], trailing)
  }

  // ----- Parsing what was written

  /** Nothing at `pos` continues a predicate. */
  ghost predicate PredicateEnds(ts: seq<Tok>, pos: nat) {
    pos >= |ts| || (ts[pos] != Equals && !ts[pos].Paren?)
  }

  ghost predicate StandsAt(ts: seq<Tok>, pos: nat, part: seq<Tok>) {
    pos + |part| <= |ts| && ts[pos..pos + |part|] == part
  }

  lemma StandsInTurn(ts: seq<Tok>, pos: nat, a: seq<Tok>, b: seq<Tok>)
    requires StandsAt(ts, pos, a + b)
    ensures StandsAt(ts, pos, a) && StandsAt(ts, pos + |a|, b)
    ensures forall i | 0 <= i < |a| :: ts[pos + i] == a[i]
    ensures forall i | 0 <= i < |b| :: ts[pos + |a| + i] == b[i]
  {
    assert ts[pos..pos + |a|] == (a + b)[..|a|];
    assert ts[pos + |a|..pos + |a| + |b|] == (a + b)[|a|..];
    forall i | 0 <= i < |a| ensures ts[pos + i] == a[i] { assert ts[pos..pos + |a|][i] == ts[pos + i]; }
    forall i | 0 <= i < |b| ensures ts[pos + |a| + i] == b[i] {
      assert ts[pos + |a|..pos + |a| + |b|][i] == ts[pos + |a| + i];
    }
  }

  lemma GroupIsParsed(ts: seq<Tok>, pos: nat, raw: bool, name: string, inner: seq<Tok>, values: seq<CfgTruth>)
    requires StandsAt(ts, pos, [Word(raw, name), Paren(inner)]) && ParseList(inner, 0) == Some(values)
    requires name == "all" || name == "any" || (name == "not" && |values| == 1)
    ensures ParseTruth(ts, pos) == Some((
      if name == "all" then Decide(values, False, True)
      else if name == "any" then Decide(values, True, False)
      else Negate(values[0]), pos + 2))
  {
    StandsInTurn(ts, pos, [Word(raw, name)], [Paren(inner)]);
  }

  /** The fused parser, started at `pos`, stops at `next` with the three-valued value of `p`. */
  ghost predicate ParsesAs(ts: seq<Tok>, pos: nat, p: Pred, next: nat) {
    pos <= |ts| && ParseTruth(ts, pos) == Some((Eval(p), next))
  }

  ghost predicate ListParsesAs(ts: seq<Tok>, pos: nat, args: seq<Pred>) {
    pos <= |ts| && ParseList(ts, pos) == Some(EvalAll(args))
  }

  /** The fused parser finds a written predicate, stops behind it and returns its three-valued value. */
  lemma {:induction false} ParseWritten(ts: seq<Tok>, pos: nat, p: Pred)
    requires Writable(p) && StandsAt(ts, pos, Write(p)) && PredicateEnds(ts, pos + |Write(p)|)
    ensures ParsesAs(ts, pos, p, pos + |Write(p)|)
    decreases p, 0
  {
    match p
    case All(raw, args, trailing) =>
      var inner := WriteList(args, trailing);
      assert inner[0..] == inner;
      ParseWrittenList(inner, 0, args, trailing);
      GroupIsParsed(ts, pos, raw, "all", inner, EvalAll(args));
    case Any(raw, args, trailing) =>
      var inner := WriteList(args, trailing);
      assert inner[0..] == inner;
      ParseWrittenList(inner, 0, args, trailing);
      GroupIsParsed(ts, pos, raw, "any", inner, EvalAll(args));
    case Not(raw, arg, trailing) =>
      var inner := Write(arg) + (if trailing then [Comma] else []);
      assert WriteList([arg], trailing) == inner && inner[0..] == inner;
      ParseWrittenOne(inner, arg, trailing);
      GroupIsParsed(ts, pos, raw, "not", inner, [Eval(arg)]);
    case _ => LeafIsParsed(ts, pos, p);
  }

  lemma LeafIsParsed(ts: seq<Tok>, pos: nat, p: Pred)
    requires p.Lit? || p.Bare? || p.KeyValue?
    requires Writable(p) && StandsAt(ts, pos, Write(p)) && PredicateEnds(ts, pos + |Write(p)|)
    ensures ParseTruth(ts, pos) == Some((Eval(p), pos + |Write(p)|))
  {
    var w := Write(p);
    assert w + [] == w;
    StandsInTurn(ts, pos, w, []);
    if p.KeyValue? { assert ts[pos + 1] == w[1] && ts[pos + 2] == w[2]; }
  }

  lemma {:induction false} ParseWrittenOne(ts: seq<Tok>, arg: Pred, trailing: bool)
    requires Writable(arg) && ts == Write(arg) + (if trailing then [Comma] else [])
    ensures ParseList(ts, 0) == Some([Eval(arg)])
    decreases arg, 1
  {
    var tail := if trailing then [Comma] else [];
    assert ts[0..0 + |Write(arg) + tail|] == ts;
    StandsInTurn(ts, 0, Write(arg), tail);
    ParseWritten(ts, 0, arg);
    if trailing {
      assert ParseList(ts, |ts|) == Some([]);
      assert [Eval(arg)] + [] == [Eval(arg)];
    }
  }

  lemma {:induction false} ParseWrittenList(ts: seq<Tok>, pos: nat, args: seq<Pred>, trailing: bool)
    requires forall i | 0 <= i < |args| :: Writable(args[i])
    requires pos <= |ts| && ts[pos..] == WriteList(args, trailing)
    ensures ListParsesAs(ts, pos, args)
    decreases args, 1
  {
    hide ParseTruth, ParseList;
    if args == [] {
      ListEnds(ts, pos);
    } else {
      var next := FirstOfListStands(ts, pos, args, trailing);
      ParseWritten(ts, pos, args[0]);
      if next == |ts| {
        ListStops(ts, pos, args);
      } else {
        ParseWrittenList(ts, next + 1, args[1..], trailing);
        ListContinues(ts, pos, next, args);
      }
    }
  }

  lemma WriteListSplit(args: seq<Pred>, trailing: bool) returns (tail: seq<Tok>)
    requires args != []
    ensures WriteList(args, trailing) == Write(args[0]) + tail && Write(args[0]) != []
    ensures tail == [] ==> |args| == 1
    ensures tail != [] ==> tail[0] == Comma && tail[1..] == WriteList(args[1..], trailing)
  {
    tail := if |args| > 1 then [Comma] + WriteList(args[1..], trailing) else if trailing then [Comma] else [];
  }

  lemma FirstOfListStands(ts: seq<Tok>, pos: nat, args: seq<Pred>, trailing: bool) returns (next: nat)
    requires args != [] && pos <= |ts| && ts[pos..] == WriteList(args, trailing)
    ensures pos < next <= |ts| && next == pos + |Write(args[0])| && StandsAt(ts, pos, Write(args[0]))
    ensures PredicateEnds(ts, next)
    ensures next < |ts| ==> ts[next] == Comma && ts[next + 1..] == WriteList(args[1..], trailing)
    ensures next == |ts| ==> |args| == 1
  {
    hide Write, WriteList;
    var w := Write(args[0]);
    var tail := WriteListSplit(args, trailing);
    assert StandsAt(ts, pos, w + tail) by { assert ts[pos..pos + |w + tail|] == ts[pos..]; }
    StandsInTurn(ts, pos, w, tail);
    next := pos + |w|;
    if next < |ts| {
      assert ts[next] == tail[0];
      assert ts[next + 1..] == tail[1..];
    }
  }

  /** One turn of the list parser, forwards: behind a comma the rest of the group follows. */
  lemma ListContinues(ts: seq<Tok>, pos: nat, next: nat, args: seq<Pred>)
    requires args != [] && pos < next < |ts| && ts[next] == Comma
    requires ParsesAs(ts, pos, args[0], next) && ListParsesAs(ts, next + 1, args[1..])
    ensures ListParsesAs(ts, pos, args)
  {}

  lemma ListEnds(ts: seq<Tok>, pos: nat)
    requires pos == |ts|
    ensures ListParsesAs(ts, pos, [])
  {}

  lemma ListStops(ts: seq<Tok>, pos: nat, args: seq<Pred>)
    requires |args| == 1 && pos < |ts| && ParsesAs(ts, pos, args[0], |ts|)
    ensures ListParsesAs(ts, pos, args)
  {
    assert EvalAll(args) == [Eval(args[0])];
  }

  // ----- Writing what was parsed

  /** A list of predicates as it is written between parentheses. */
  ghost predicate Lists(ts: seq<Tok>, args: seq<Pred>, trailing: bool, values: seq<CfgTruth>) {
    && ts == WriteList(args, trailing) && values == EvalAll(args)
    && (trailing ==> args != []) && forall i | 0 <= i < |args| :: Writable(args[i])
  }

  /** Whatever the fused parser accepts is a written predicate, and its verdict is the tree's value. */
  lemma {:induction false} WriteParsed(ts: seq<Tok>, pos: nat) returns (p: Pred)
    requires pos <= |ts| && ParseTruth(ts, pos).Some?
    ensures var (v, next) := ParseTruth(ts, pos).value;
            Writable(p) && ts[pos..next] == Write(p) && v == Eval(p)
    decreases ts, |ts| - pos, 0
  {
    var (v, end) := ParseTruth(ts, pos).value;
    var raw, name, next := ts[pos].raw, ts[pos].name, pos + 1;
    if IsBool(ts[pos]) {
      p := Lit(name == "true");
    } else if next < |ts| && ts[next] == Equals {
      p := KeyValue(raw, name, ts[next + 1].value);
      assert ts[pos..end] == [ts[pos], ts[next], ts[next + 1]];
    } else if next < |ts| && ts[next].Paren? {
      var inner := ts[next].inner;
      var args, trailing := WriteParsedList(inner, 0);
      assert inner[0..] == inner;
      assert ts[pos..end] == [ts[pos], ts[next]];
      if name == "all" {
        p := All(raw, args, trailing);
      } else if name == "any" {
        p := Any(raw, args, trailing);
      } else {
        p := Not(raw, args[0], trailing);
        assert WriteList(args, trailing) == Write(args[0]) + (if trailing then [Comma] else []);
      }
    } else {
      p := Bare(raw, name);
    }
  }

  lemma {:induction false} WriteParsedList(ts: seq<Tok>, pos: nat) returns (args: seq<Pred>, trailing: bool)
    requires pos <= |ts| && ParseList(ts, pos).Some?
    ensures Lists(ts[pos..], args, trailing, ParseList(ts, pos).value)
    decreases ts, |ts| - pos, 1
  {
    hide ParseTruth, ParseList;
    if pos == |ts| {
      args, trailing := [], false;
      ListEnds(ts, pos);
    } else {
      var values := ParseList(ts, pos).value;
      var next := ListStep(ts, pos);
      var p := WriteParsed(ts, pos);
      if next == |ts| {
        args, trailing := [p], false;
        ListsOne(p, false);
        assert Write(p) + [] == Write(p);
      } else {
        var rest, comma := WriteParsedList(ts, next + 1);
        args, trailing := [p] + rest, comma || rest == [];
        ListsMore(p, ts[next + 1..], rest, comma, values[1..]);
        assert ts[pos..] == Write(p) + [Comma] + ts[next + 1..];
      }
    }
  }

  /** One turn of the list parser. */
  lemma ListStep(ts: seq<Tok>, pos: nat) returns (next: nat)
    requires pos < |ts| && ParseList(ts, pos).Some?
    ensures ParseTruth(ts, pos).Some? && next == ParseTruth(ts, pos).value.1
    ensures var v, values := ParseTruth(ts, pos).value.0, ParseList(ts, pos).value;
            if next == |ts| then values == [v] && ts[pos..] == ts[pos..next]
            else
              && next < |ts| && ParseList(ts, next + 1) == Some(values[1..]) && values == [v] + values[1..]
              && ts[pos..] == ts[pos..next] + [Comma] + ts[next + 1..]
  {
    next := ParseTruth(ts, pos).value.1;
    if next < |ts| {
      var rest := ParseList(ts, next + 1).value;
      var v := ParseTruth(ts, pos).value.0;
      assert ([v] + rest)[1..] == rest;
    }
  }

  lemma ListsOne(p: Pred, trailing: bool)
    requires Writable(p)
    ensures Lists(Write(p) + (if trailing then [Comma] else []), [p], trailing, [Eval(p)])
  {
    assert [p][1..] == [] && [Eval(p)] + [] == [Eval(p)];
  }

  lemma ListsMore(p: Pred, ts: seq<Tok>, rest: seq<Pred>, trailing: bool, values: seq<CfgTruth>)
    requires Writable(p) && Lists(ts, rest, trailing, values)
    ensures Lists(Write(p) + [Comma] + ts, [p] + rest, trailing || rest == [], [Eval(p)] + values)
  {
    if rest == [] {
      assert ts == [] && [p] + rest == [p] && Write(p) + [Comma] + ts == Write(p) + [Comma];
      assert [Eval(p)] + values == [Eval(p)];
      ListsOne(p, true);
    } else {
      assert ([p] + rest)[1..] == rest;
    }
  }

  /** The argument of a cfg attribute: a predicate and perhaps one comma. */
  ghost predicate Denotes(ts: seq<Tok>, p: Pred) {
    Writable(p) && (ts == Write(p) || ts == Write(p) + [Comma])
  }

  /**
   The reader accepts exactly the written predicates, consuming all of them, and its verdict is the
   evaluation of the syntax tree.
   */
  lemma ReaderIsExact(ts: seq<Tok>, verdict: CfgTruth)
    ensures ParseArgument(ts) == Some(verdict) <==> exists p :: Denotes(ts, p) && Eval(p) == verdict
  {
    if ParseArgument(ts) == Some(verdict) {
      var p := WriteParsed(ts, 0);
      var next := ParseTruth(ts, 0).value.1;
      assert ts[0..next] + ts[next..] == ts;
      assert ts[next..] == [] || ts[next..] == [Comma];
      assert Denotes(ts, p);
    }
    if p :| Denotes(ts, p) && Eval(p) == verdict {
      assert StandsAt(ts, 0, Write(p)) by { assert ts[0..|Write(p)|] == Write(p); }
      ParseWritten(ts, 0, p);
    }
  }

  // ----- What a verdict says

  /**
   The meaning of a predicate when the options under an even number of `not`s are looked up in one
   build and those under an odd number in another. With one build for both it is `Holds`.
   */
  predicate HoldsApart(p: Pred, even: Build, odd: Build) {
    match p
    case Lit(b) => b
    case Bare(_, name) => Flag(name) in even
    case KeyValue(_, key, value) => Pair(key, value) in even
    case All(_, args, _) => forall i | 0 <= i < |args| :: HoldsApart(args[i], even, odd)
    case Any(_, args, _) => exists i | 0 <= i < |args| :: HoldsApart(args[i], even, odd)
    case Not(_, arg, _) => !HoldsApart(arg, odd, even)
  }

  lemma {:induction false} HoldsTogether(p: Pred, build: Build)
    ensures HoldsApart(p, build, build) <==> Holds(p, build)
  {
    match p
    case All(_, args, _) =>
      forall i | 0 <= i < |args| ensures HoldsApart(args[i], build, build) <==> Holds(args[i], build) {
        HoldsTogether(args[i], build);
      }
    case Any(_, args, _) =>
      forall i | 0 <= i < |args| ensures HoldsApart(args[i], build, build) <==> Holds(args[i], build) {
        HoldsTogether(args[i], build);
      }
    case Not(_, arg, _) => HoldsTogether(arg, build);
    case _ =>
  }

  /** The verdict on a predicate is in line with a meaning of it. */
  ghost predicate InLine(verdict: CfgTruth, holds: bool) {
    (verdict == False ==> !holds) && (verdict == True ==> holds)
  }

  lemma {:induction false} ApartIsSound(p: Pred, even: Build, odd: Build)
    requires TEST !in even && TEST !in odd
    ensures InLine(Eval(p), HoldsApart(p, even, odd))
  {
    match p
    case All(_, args, _) =>
      forall i | 0 <= i < |args|
        ensures InLine(Eval(args[i]), HoldsApart(args[i], even, odd)) && Eval(args[i]) in EvalAll(args)
      {
        ApartIsSound(args[i], even, odd);
        assert EvalAll(args)[i] in EvalAll(args);
      }
    case Any(_, args, _) =>
      forall i | 0 <= i < |args|
        ensures InLine(Eval(args[i]), HoldsApart(args[i], even, odd)) && Eval(args[i]) in EvalAll(args)
      {
        ApartIsSound(args[i], even, odd);
        assert EvalAll(args)[i] in EvalAll(args);
      }
    case Not(_, arg, _) => ApartIsSound(arg, odd, even);
    case _ =>
  }

  /** A definite verdict is right in every build without `test`, whatever the other options are. */
  lemma {:induction false} VerdictIsSound(p: Pred, build: Build)
    requires TEST !in build
    ensures Eval(p) == False ==> !Holds(p, build)
    ensures Eval(p) == True ==> Holds(p, build)
  {
    ApartIsSound(p, build, build);
    HoldsTogether(p, build);
  }

  // ----- Exactness of the verdicts

  /** The unknown options read under an even number of `not`s, or under an odd number. */
  function Reads(p: Pred, even: bool): set<Setting> {
    match p
    case Lit(_) => {}
    case Bare(_, name) => if even then {Flag(name)} - {TEST} else {}
    case KeyValue(_, key, value) => if even then {Pair(key, value)} else {}
    case All(_, args, _) => ReadsAll(args, even)
    case Any(_, args, _) => ReadsAll(args, even)
    case Not(_, arg, _) => Reads(arg, !even)
  }

  function ReadsAll(args: seq<Pred>, even: bool): set<Setting> {
    if args == [] then {} else Reads(args[0], even) + ReadsAll(args[1..], even)
  }

  lemma {:induction false} ReadsEach(args: seq<Pred>, i: nat)
    requires i < |args|
    ensures Reads(args[i], true) <= ReadsAll(args, true) && Reads(args[i], false) <= ReadsAll(args, false)
  {
    if i > 0 { ReadsEach(args[1..], i - 1); }
  }

  lemma {:induction false} ReadsAreNotTest(p: Pred, even: bool)
    ensures TEST !in Reads(p, even)
    decreases p, 0
  {
    match p
    case All(_, args, _) => ReadsAllAreNotTest(args, even);
    case Any(_, args, _) => ReadsAllAreNotTest(args, even);
    case Not(_, arg, _) => ReadsAreNotTest(arg, !even);
    case _ =>
  }

  lemma {:induction false} ReadsAllAreNotTest(args: seq<Pred>, even: bool)
    ensures TEST !in ReadsAll(args, even)
    decreases args, 1
  {
    if args != [] {
      ReadsAreNotTest(args[0], even);
      ReadsAllAreNotTest(args[1..], even);
    }
  }

  /** The verdict says of which kind the extreme meanings are, when `most` sets all options that are read. */
  ghost predicate Settled(p: Pred, most: Build) {
    && (HoldsApart(p, most, {}) <==> Eval(p) != False)
    && (HoldsApart(p, {}, most) <==> Eval(p) == True)
  }

  lemma {:induction false} VerdictsAreSettled(p: Pred, most: Build)
    requires TEST !in most && Reads(p, true) <= most && Reads(p, false) <= most
    ensures Settled(p, most)
  {
    match p
    case All(_, args, _) =>
      forall i | 0 <= i < |args| ensures Settled(args[i], most) && Eval(args[i]) in EvalAll(args) {
        ReadsEach(args, i);
        VerdictsAreSettled(args[i], most);
        assert EvalAll(args)[i] in EvalAll(args);
      }
    case Any(_, args, _) =>
      forall i | 0 <= i < |args| ensures Settled(args[i], most) && Eval(args[i]) in EvalAll(args) {
        ReadsEach(args, i);
        VerdictsAreSettled(args[i], most);
        assert EvalAll(args)[i] in EvalAll(args);
      }
    case Not(_, arg, _) => VerdictsAreSettled(arg, most);
    case _ =>
  }

  /**
   What a verdict really says, for every predicate: it is definite exactly when the predicate has one
   value even if its evenly and its oddly read options are looked up in different builds without `test`.
   */
  lemma VerdictIsExactApart(p: Pred)
    ensures Eval(p) == False <==>
              forall even: Build, odd: Build | TEST !in even && TEST !in odd :: !HoldsApart(p, even, odd)
    ensures Eval(p) == True <==>
              forall even: Build, odd: Build | TEST !in even && TEST !in odd :: HoldsApart(p, even, odd)
  {
    forall even: Build, odd: Build | TEST !in even && TEST !in odd ensures InLine(Eval(p), HoldsApart(p, even, odd)) {
      ApartIsSound(p, even, odd);
    }
    var most := Reads(p, true) + Reads(p, false);
    ReadsAreNotTest(p, true);
    ReadsAreNotTest(p, false);
    VerdictsAreSettled(p, most);
    assert HoldsApart(p, most, {}) <==> Eval(p) != False;
    assert HoldsApart(p, {}, most) <==> Eval(p) == True;
  }

  /** No unknown option is read both under an even and under an odd number of `not`s. */
  predicate OneSigned(p: Pred) { Reads(p, true) !! Reads(p, false) }

  predicate SameOn(a: Build, b: Build, part: set<Setting>) {
    forall x | x in part :: x in a <==> x in b
  }

  /** Only the options that a predicate reads with a sign bear on the build looked up for that sign. */
  lemma {:induction false} ApartByReads(p: Pred, even: Build, odd: Build, even': Build, odd': Build)
    requires TEST !in even && TEST !in odd && TEST !in even' && TEST !in odd'
    requires SameOn(even, even', Reads(p, true)) && SameOn(odd, odd', Reads(p, false))
    ensures HoldsApart(p, even, odd) <==> HoldsApart(p, even', odd')
  {
    match p
    case Lit(_) =>
    case Bare(_, name) => assert name == "test" || Flag(name) in Reads(p, true);
    case KeyValue(_, key, value) => assert Pair(key, value) in Reads(p, true);
    case All(_, args, _) =>
      forall i | 0 <= i < |args| ensures HoldsApart(args[i], even, odd) <==> HoldsApart(args[i], even', odd') {
        ReadsEach(args, i);
        ApartByReads(args[i], even, odd, even', odd');
      }
    case Any(_, args, _) =>
      forall i | 0 <= i < |args| ensures HoldsApart(args[i], even, odd) <==> HoldsApart(args[i], even', odd') {
        ReadsEach(args, i);
        ApartByReads(args[i], even, odd, even', odd');
      }
    case Not(_, arg, _) => ApartByReads(arg, odd, even, odd', even');
  }

  /**
   On predicates that read no unknown option with both signs, however often they read it, the
   three-valued verdict is exact: it is definite exactly when all builds without `test` agree.
   */
  lemma VerdictIsExactWhenOneSigned(p: Pred)
    requires OneSigned(p)
    ensures Eval(p) == False <==> forall build: Build | TEST !in build :: !Holds(p, build)
    ensures Eval(p) == True <==> forall build: Build | TEST !in build :: Holds(p, build)
  {
    forall build: Build | TEST !in build ensures InLine(Eval(p), Holds(p, build)) { VerdictIsSound(p, build); }
    var best, worst := Reads(p, true), Reads(p, false);
    var most := best + worst;
    ReadsAreNotTest(p, true);
    ReadsAreNotTest(p, false);
    VerdictsAreSettled(p, most);
    ApartByReads(p, best, best, most, {});
    HoldsTogether(p, best);
    ApartByReads(p, worst, worst, {}, most);
    HoldsTogether(p, worst);
    assert Holds(p, best) <==> Eval(p) != False;
    assert Holds(p, worst) <==> Eval(p) == True;
  }

  /** An option may well be read twice: this predicate does so and its verdict is exact. */
  lemma ReadTwiceWithOneSign(a: string, b: string)
    ensures OneSigned(Any(false, [Bare(false, a), All(false, [Bare(false, a), Bare(false, b)], false)], false))
  {
    var x, y := Bare(false, a), Bare(false, b);
    var both := All(false, [x, y], false);
    ReadsPair(x, y, false);
    ReadsPair(x, both, false);
    var p := Any(false, [x, both], false);
    assert Reads(p, false) == ReadsAll([x, both], false) == Reads(x, false) + Reads(both, false) == {};
  }

  lemma ReadsPair(x: Pred, y: Pred, even: bool)
    ensures ReadsAll([x, y], even) == Reads(x, even) + Reads(y, even)
  {
    assert [x, y][1..] == [y] && [y][1..] == [];
    assert ReadsAll([y], even) == Reads(y, even) + ReadsAll([], even) == Reads(y, even);
  }

  /** Reading one option with both signs can hide a certainty: this predicate always holds and stays unknown. */
  lemma BothSignsHideCertainty(name: string)
    requires name != "test"
    ensures var p := Any(false, [Bare(false, name), Not(false, Bare(false, name), false)], false);
            Eval(p) == Unknown && !OneSigned(p) && forall build :: Holds(p, build)
  {
    var a, b := Bare(false, name), Not(false, Bare(false, name), false);
    assert [a, b][1..] == [b] && [b][1..] == [];
    assert EvalAll([a, b]) == [Unknown, Unknown];
    ReadsPair(a, b, true);
    ReadsPair(a, b, false);
    assert Reads(b, false) == Reads(a, true) == {Flag(name)};
    var p := Any(false, [a, b], false);
    assert Flag(name) in Reads(p, true) * Reads(p, false);
    forall build ensures Holds(Any(false, [a, b], false), build) {
      assert Holds([a, b][0], build) || Holds([a, b][1], build);
    }
  }

  // ----- Collecting enums

  datatype Attr = Attr(path: string, args: Option<seq<Tok>>)

  /** `closedError` is a public enum that derives `Error` and is marked non-exhaustive. */
  datatype Item =
    | Enum(name: string, attrs: seq<Attr>, closedError: bool)
    | Mod(attrs: seq<Attr>, content: seq<Item>)
    | OutOfLineMod(attrs: seq<Attr>)
    | Other

  predicate IsCfgDisabledWithoutTest(a: Attr) {
    a.path == "cfg" && a.args.Some? && ParseArgument(a.args.value) == Some(False)
  }

  predicate AnyDisabled(attrs: seq<Attr>) {
    exists i | 0 <= i < |attrs| :: IsCfgDisabledWithoutTest(attrs[i])
  }

  function Collected(items: seq<Item>): seq<Item>
    decreases items
  {
    if items == [] then [] else CollectedFrom(items[0]) + Collected(items[1..])
  }

  function CollectedFrom(item: Item): seq<Item>
    decreases item
  {
    match item
    case Enum(_, _, _) => [item]
    case Mod(attrs, content) => if AnyDisabled(attrs) then [] else Collected(content)
    case OutOfLineMod(_) => []
    case Other => []
  }

  /** A cfg attribute whose argument is a predicate that evaluates to false. */
  ghost predicate Disables(a: Attr) {
    a.path == "cfg" && a.args.Some? && exists p :: Denotes(a.args.value, p) && Eval(p) == False
  }

  /** The enum stands in the list, or in a module of it that no attribute disables, at any depth. */
  ghost predicate ReachedIn(items: seq<Item>, e: Item)
    decreases items
  {
    exists i | 0 <= i < |items| :: ReachedFrom(items[i], e)
  }

  ghost predicate ReachedFrom(item: Item, e: Item)
    decreases item
  {
    match item
    case Enum(_, _, _) => e == item
    case Mod(attrs, content) => (forall i | 0 <= i < |attrs| :: !Disables(attrs[i])) && ReachedIn(content, e)
    case OutOfLineMod(_) => false
    case Other => false
  }

  lemma AnyDisabledIff(attrs: seq<Attr>)
    ensures AnyDisabled(attrs) <==> exists i | 0 <= i < |attrs| :: Disables(attrs[i])
  {
    forall i | 0 <= i < |attrs| ensures IsCfgDisabledWithoutTest(attrs[i]) <==> Disables(attrs[i]) {
      if attrs[i].args.Some? { ReaderIsExact(attrs[i].args.value, False); }
    }
  }

  /** Exactly the enums that are reached through modules that no attribute disables are collected. */
  lemma {:induction false} CollectedIff(items: seq<Item>, e: Item)
    ensures e in Collected(items) <==> ReachedIn(items, e)
    decreases items
  {
    if items != [] {
      var rest := items[1..];
      CollectedIff(rest, e);
      assert forall i | 0 <= i < |rest| :: rest[i] == items[i + 1];
      assert ReachedIn(items, e) <==> ReachedFrom(items[0], e) || ReachedIn(rest, e);
      if items[0].Mod? {
        AnyDisabledIff(items[0].attrs);
        CollectedIff(items[0].content, e);
      }
    }
  }

  /** Enums are collected in the order in which they are listed. */
  lemma {:induction false} CollectedInOrder(before: seq<Item>, after: seq<Item>)
    ensures Collected(before + after) == Collected(before) + Collected(after)
    decreases |before|
  {
    hide CollectedFrom;
    if before == [] {
      assert before + after == after;
    } else {
      CollectedInOrder(before[1..], after);
      assert (before + after)[1..] == before[1..] + after;
    }
  }

  /** What one item contributes: an enum itself, a module its content unless an attribute disables it. */
  lemma CollectedAlone(item: Item)
    ensures Collected([item])
         == if item.Enum? then [item]
            else if item.Mod? && forall i | 0 <= i < |item.attrs| :: !Disables(item.attrs[i])
                 then Collected(item.content)
            else []
  {
    assert [item][1..] == [] && Collected([item]) == CollectedFrom(item);
    if item.Mod? { AnyDisabledIff(item.attrs); }
  }

  /** A module that a one-signed predicate excludes from all builds without `test` contributes nothing. */
  lemma ExcludedModulesContributeNothing(attrs: seq<Attr>, content: seq<Item>, i: nat, p: Pred)
    requires i < |attrs| && attrs[i].path == "cfg" && attrs[i].args.Some? && Denotes(attrs[i].args.value, p)
    requires OneSigned(p) && forall build: Build | TEST !in build :: !Holds(p, build)
    ensures Collected([Mod(attrs, content)]) == []
  {
    VerdictIsExactWhenOneSigned(p);
    assert Disables(attrs[i]);
    CollectedAlone(Mod(attrs, content));
  }

  method CollectEnums(items: seq<Item>, before: seq<Item>) returns (out: seq<Item>)
    ensures out == before + Collected(items)
    ensures forall e :: e in out <==> e in before || ReachedIn(items, e)
    decreases items
  {
    forall e ensures e in Collected(items) <==> ReachedIn(items, e) { CollectedIff(items, e); }
    out := before;
    assert items[0..] == items;
    for i := 0 to |items|
      invariant out + Collected(items[i..]) == before + Collected(items)
    {
      assert items[i..][0] == items[i] && items[i..][1..] == items[i + 1..];
      match items[i] {
        case Enum(_, _, _) => out := out + [items[i]];
        case Mod(attrs, content) =>
          if AnyDisabled(attrs) {
            continue;
          }
          out := CollectEnums(content, out);
        case OutOfLineMod(_) =>
        case Other =>
      }
    }
    assert items[|items|..] == [];
    assert out + [] == out;
  }

  predicate IsViolation(item: Item) { item.Enum? && item.closedError && !AnyDisabled(item.attrs) }

  /** A violation is a closed error enum that no attribute of its own disables. */
  lemma IsViolationIff(item: Item)
    ensures IsViolation(item) <==>
              item.Enum? && item.closedError && forall i | 0 <= i < |item.attrs| :: !Disables(item.attrs[i])
  {
    if item.Enum? { AnyDisabledIff(item.attrs); }
  }

  /** Some cfg attribute of the item is false in the build. */
  ghost predicate ExcludedFrom(attrs: seq<Attr>, build: Build) {
    exists i :: 0 <= i < |attrs|
      && attrs[i].path == "cfg" && attrs[i].args.Some? && ArgumentFails(attrs[i].args.value, build)
  }

  ghost predicate ArgumentFails(ts: seq<Tok>, build: Build) {
    exists p :: Denotes(ts, p) && !Holds(p, build)
  }

  /** The enum is compiled in the build: no cfg attribute on it or on a module around it is false. */
  ghost predicate PresentIn(items: seq<Item>, e: Item, build: Build)
    decreases items
  {
    exists i | 0 <= i < |items| :: PresentFrom(items[i], e, build)
  }

  ghost predicate PresentFrom(item: Item, e: Item, build: Build)
    decreases item
  {
    match item
    case Enum(_, attrs, _) => e == item && !ExcludedFrom(attrs, build)
    case Mod(attrs, content) => !ExcludedFrom(attrs, build) && PresentIn(content, e, build)
    case OutOfLineMod(_) => false
    case Other => false
  }

  /** What is skipped as disabled is excluded from every build without `test`. */
  lemma DisabledIsExcluded(attrs: seq<Attr>, build: Build)
    requires TEST !in build && AnyDisabled(attrs)
    ensures ExcludedFrom(attrs, build)
  {
    var i :| 0 <= i < |attrs| && IsCfgDisabledWithoutTest(attrs[i]);
    var ts := attrs[i].args.value;
    ReaderIsExact(ts, False);
    var p :| Denotes(ts, p) && Eval(p) == False;
    VerdictIsSound(p, build);
    assert ArgumentFails(ts, build);
  }

  /** Every closed error enum that is compiled in some build without `test` is collected and reported. */
  lemma {:induction false} PresentViolationsAreReported(items: seq<Item>, e: Item, build: Build)
    requires TEST !in build && PresentIn(items, e, build)
    ensures e in Collected(items) && e.Enum? && (e.closedError ==> IsViolation(e))
    decreases items
  {
    var i :| 0 <= i < |items| && PresentFrom(items[i], e, build);
    match items[i] {
      case Enum(_, attrs, _) => if AnyDisabled(attrs) { DisabledIsExcluded(attrs, build); }
      case Mod(attrs, content) =>
        if AnyDisabled(attrs) { DisabledIsExcluded(attrs, build); }
        PresentViolationsAreReported(content, e, build);
      case OutOfLineMod(_) =>
      case Other =>
    }
    CollectedEach(items, i);
  }

  lemma {:induction false} CollectedEach(items: seq<Item>, i: nat)
    requires i < |items|
    ensures forall e | e in CollectedFrom(items[i]) :: e in Collected(items)
    decreases |items|
  {
    if i > 0 { CollectedEach(items[1..], i - 1); }
  }
}
