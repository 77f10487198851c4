/**
 The CODEOWNERS parser: lines, comments, tokens and owners.

 Parsing has a normal form: writing the parsed entries back, one per line, and parsing again gives
 the same result with no line skipped. Case folding is the parameter `lower`.
 */
module Codeowners {
  import opened Ordering

  const MAX_LINE_LENGTH: nat := 10 * 1024
  const U32_MAX: nat := 0xFFFF_FFFF

  datatype Entry = Entry(pattern: string, owners: seq<string>)

  datatype ParsedCodeowners = ParsedCodeowners(entries: seq<Entry>, uniqueOwners: seq<string>, skippedLines: nat)

  // ----- Characters and their UTF-8 length

  /** The characters with Unicode's White_Space property. */
  predicate IsSpace(c: char) {
    var n := c as int;
    9 <= n <= 13 || n == 32 || n == 0x85 || n == 0xA0 || n == 0x1680 || 0x2000 <= n <= 0x200A
    || n == 0x2028 || n == 0x2029 || n == 0x202F || n == 0x205F || n == 0x3000
  }

  function Utf8Length(c: char): nat {
    var n := c as int;
    if n < 0x80 then 1 else if n < 0x800 then 2 else if n < 0x10000 then 3 else 4
  }

  function Bytes(s: string): nat {
    if s == [] then 0 else Utf8Length(s[0]) + Bytes(s[1..])
  }

  lemma {:induction false} BytesConcat(a: string, b: string)
    ensures Bytes(a + b) == Bytes(a) + Bytes(b)
  {
    if a == [] {
      assert a + b == b;
    } else {
      assert (a + b)[1..] == a[1..] + b;
      BytesConcat(a[1..], b);
    }
  }

  /** The characters from a code point on, by their positions. */
  ghost function From(s: string, bound: nat): set<nat> { set i: nat | i < |s| && s[i] as int >= bound }

  /** UTF-8 spends a byte on every character and one more from each of the code points 80, 800 and 10000 (hex) on. */
  lemma {:induction false} BytesByCodePoint(s: string)
    ensures Bytes(s) == |s| + |From(s, 0x80)| + |From(s, 0x800)| + |From(s, 0x10000)|
    decreases |s|
  {
    if s == [] {
      assert From(s, 0x80) == From(s, 0x800) == From(s, 0x10000) == {};
    } else {
      var n := |s| - 1;
      BytesByCodePoint(s[..n]);
      assert s == s[..n] + [s[n]];
      BytesConcat(s[..n], [s[n]]);
      FromNext(s, 0x80);
      FromNext(s, 0x800);
      FromNext(s, 0x10000);
    }
  }

  lemma FromNext(s: string, bound: nat)
    requires s != []
    ensures |From(s, bound)| == |From(s[..|s| - 1], bound)| + if s[|s| - 1] as int >= bound then 1 else 0
  {
    var n := |s| - 1;
    assert From(s, bound) == From(s[..n], bound) + if s[n] as int >= bound then {n} else {};
  }

  lemma BytesOfSlice(s: string, i: nat, j: nat)
    requires i <= j <= |s|
    ensures Bytes(s[i..j]) <= Bytes(s)
  {
    var a, b, c := s[..i], s[i..j], s[j..];
    assert s == a + b + c;
    BytesConcat(a + b, c);
    BytesConcat(a, b);
  }

  // ----- Lines, trimming, comments and tokens

  /** Lines end at a newline; a carriage return before it is dropped, and an empty rest is no line. */
  function Lines(content: string): seq<string>
    decreases |content|
  {
    if content == [] then []
    else
      var n := LineEnd(content);
      if n == |content| then [content]
      else [if n > 0 && content[n - 1] == '\r' then content[..n - 1] else content[..n]] + Lines(content[n + 1..])
  }

  function LineEnd(s: string): (n: nat)
    ensures n <= |s| && '\n' !in s[..n] && (n < |s| ==> s[n] == '\n')
  {
    if s == [] || s[0] == '\n' then 0
    else
      var n := LineEnd(s[1..]);
      assert s[..n + 1] == [s[0]] + s[1..][..n];
      n + 1
  }

  function TrimStart(s: string): string { if s != [] && IsSpace(s[0]) then TrimStart(s[1..]) else s }

  function TrimEnd(s: string): string { if s != [] && IsSpace(s[|s| - 1]) then TrimEnd(s[..|s| - 1]) else s }

  function Trim(s: string): string { TrimEnd(TrimStart(s)) }

  /** The first space or tab before a hash, or the length. */
  function CommentStart(s: string): (n: nat)
    ensures n <= |s|
  {
    if |s| < 2 then |s|
    else if (s[0] == ' ' || s[0] == '\t') && s[1] == '#' then 0
    else CommentStart(s[1..]) + 1
  }

  /** A comment starts at `i`: a space or tab, and then a hash. */
  predicate StartsComment(s: string, i: nat) {
    i + 1 < |s| && (s[i] == ' ' || s[i] == '\t') && s[i + 1] == '#'
  }

  function StripInlineComment(s: string): string {
    var n := CommentStart(s);
    if n < |s| then TrimEnd(s[..n]) else s
  }

  function TokenEnd(s: string): (n: nat)
    ensures n <= |s| && (forall i | 0 <= i < n :: !IsSpace(s[i])) && (n < |s| ==> IsSpace(s[n]))
  {
    if s == [] || IsSpace(s[0]) then 0 else TokenEnd(s[1..]) + 1
  }

  function Tokens(s: string): seq<string>
    decreases |s|
  {
    if s == [] then []
    else if IsSpace(s[0]) then Tokens(s[1..])
    else [s[..TokenEnd(s)]] + Tokens(s[TokenEnd(s)..])
  }

  // ----- Owners

  predicate IsOwner(token: string) { token != [] && token[0] == '@' }

  function OwnersAmong(tokens: seq<string>): seq<string> {
    if tokens == [] then []
    else if IsOwner(tokens[0]) then [tokens[0]] + OwnersAmong(tokens[1..])
    else OwnersAmong(tokens[1..])
  }

  /** Drop repetitions that stand next to each other. */
  function Dedup(xs: seq<string>): seq<string> {
    if |xs| < 2 then xs
    else if xs[0] == xs[1] then Dedup(xs[1..])
    else [xs[0]] + Dedup(xs[1..])
  }

  function SortedOwners(tokens: seq<string>): seq<string> { Dedup(InsertionSort(TextLe, OwnersAmong(tokens))) }

  // ----- Parsing

  datatype Line = Skipped | Ignored | Parsed(entry: Entry)

  function ParseLine(line: string): Line {
    if Bytes(line) > MAX_LINE_LENGTH then Skipped
    else
      var trimmed := Trim(line);
      if trimmed == [] || trimmed[0] == '#' then Ignored
      else
        var tokens := Tokens(StripInlineComment(trimmed));
        if tokens == [] then Ignored else Parsed(Entry(tokens[0], SortedOwners(tokens[1..])))
  }

  function Outcomes(lines: seq<string>): seq<Line> {
    seq(|lines|, i requires 0 <= i < |lines| => ParseLine(lines[i]))
  }

  function Entries(outcomes: seq<Line>): seq<Entry> {
    if outcomes == [] then []
    else
      var rest, last := Entries(outcomes[..|outcomes| - 1]), outcomes[|outcomes| - 1];
      if last.Parsed? then rest + [last.entry] else rest
  }

  function SkippedAmong(outcomes: seq<Line>): nat {
    if outcomes == [] then 0
    else SkippedAmong(outcomes[..|outcomes| - 1]) + (if outcomes[|outcomes| - 1].Skipped? then 1 else 0)
  }

  function AllOwners(entries: seq<Entry>): seq<string> {
    if entries == [] then [] else AllOwners(entries[..|entries| - 1]) + entries[|entries| - 1].owners
  }

  predicate SeenIn(names: seq<string>, lower: string -> string, name: string) {
    exists i | 0 <= i < |names| :: lower(names[i]) == lower(name)
  }

  /** Each name at its first appearance, up to case. */
  function FirstSeen(names: seq<string>, lower: string -> string): seq<string> {
    if names == [] then []
    else
      var earlier, last := names[..|names| - 1], names[|names| - 1];
      if SeenIn(earlier, lower, last) then FirstSeen(earlier, lower) else FirstSeen(earlier, lower) + [last]
  }

  function Parse(content: string, lower: string -> string): ParsedCodeowners {
    var outcomes := Outcomes(Lines(content));
    var entries, skipped := Entries(outcomes), SkippedAmong(outcomes);
    ParsedCodeowners(entries, FirstSeen(AllOwners(entries), lower), if skipped > U32_MAX then U32_MAX else skipped)
  }

  method CollectOwners(tokens: seq<string>) returns (owners: seq<string>)
    ensures owners == SortedOwners(tokens)
  {
    owners := [];
    assert tokens[0..] == tokens;
    for i := 0 to |tokens|
      invariant owners + OwnersAmong(tokens[i..]) == OwnersAmong(tokens)
    {
      assert tokens[i..][0] == tokens[i] && tokens[i..][1..] == tokens[i + 1..];
      if IsOwner(tokens[i]) {
        owners := owners + [tokens[i]];
      }
    }
    assert owners + OwnersAmong([]) == owners && tokens[|tokens|..] == [];
    owners := Dedup(InsertionSort(TextLe, owners));
  }

  method ReadLine(line: string) returns (r: Line)
    ensures r == ParseLine(line)
  {
    if Bytes(line) > MAX_LINE_LENGTH {
      return Skipped;
    }
    var trimmed := Trim(line);
    if trimmed == [] || trimmed[0] == '#' {
      return Ignored;
    }
    var tokens := Tokens(StripInlineComment(trimmed));
    if tokens == [] {
      return Ignored;
    }
    var owners := CollectOwners(tokens[1..]);
    return Parsed(Entry(tokens[0], owners));
  }

  method ParseCodeowners(content: string, lower: string -> string) returns (r: ParsedCodeowners)
    ensures r == Parse(content, lower)
  {
    var lines := Lines(content);
    var entries, unique, skipped := [], [], 0;
    var seen: set<string> := {};
    ghost var outcomes := Outcomes(lines);
    for i := 0 to |lines|
      invariant entries == Entries(outcomes[..i])
      invariant unique == FirstSeen(AllOwners(entries), lower)
      invariant seen == Folded(AllOwners(entries), lower)
      invariant skipped == if SkippedAmong(outcomes[..i]) > U32_MAX then U32_MAX else SkippedAmong(outcomes[..i])
    {
      OneMoreLine(outcomes, i);
      var line := ReadLine(lines[i]);
      if line.Skipped? {
        skipped := if skipped + 1 > U32_MAX then U32_MAX else skipped + 1;
      } else if line.Parsed? {
        OneMoreEntry(entries, line.entry);
        unique, seen := AddOwners(line.entry.owners, AllOwners(entries), unique, seen, lower);
        entries := entries + [line.entry];
      }
    }
    assert outcomes[..|lines|] == outcomes;
    r := ParsedCodeowners(entries, unique, skipped);
  }

  method AddOwners(
      owners: seq<string>, ghost before: seq<string>, unique: seq<string>, seen: set<string>, lower: string -> string)
    returns (unique': seq<string>, seen': set<string>)
    requires unique == FirstSeen(before, lower)
    requires seen == Folded(before, lower)
    ensures unique' == FirstSeen(before + owners, lower)
    ensures seen' == Folded(before + owners, lower)
  {
    unique', seen' := unique, seen;
    assert before + owners[..0] == before;
    for i := 0 to |owners|
      invariant unique' == FirstSeen(before + owners[..i], lower)
      invariant seen' == Folded(before + owners[..i], lower)
    {
      TakeOneMore(before, owners, i);
      OneMoreName(before + owners[..i], lower, owners[i]);
      var folded := lower(owners[i]);
      if folded !in seen' {
        unique' := unique' + [owners[i]];
      }
      seen' := seen' + {folded};
    }
    assert before + owners[..|owners|] == before + owners;
  }

  lemma TakeOneMore<T>(before: seq<T>, s: seq<T>, i: nat)
    requires i < |s|
    ensures before + s[..i + 1] == before + s[..i] + [s[i]]
  {}

  lemma OneMoreLine(outcomes: seq<Line>, i: nat)
    requires i < |outcomes|
    ensures Entries(outcomes[..i + 1])
         == Entries(outcomes[..i]) + (if outcomes[i].Parsed? then [outcomes[i].entry] else [])
    ensures SkippedAmong(outcomes[..i + 1]) == SkippedAmong(outcomes[..i]) + (if outcomes[i].Skipped? then 1 else 0)
  {
    assert outcomes[..i + 1][..i] == outcomes[..i];
  }

  lemma OneMoreEntry(entries: seq<Entry>, e: Entry)
    ensures AllOwners(entries + [e]) == AllOwners(entries) + e.owners
  {
    assert (entries + [e])[..|entries|] == entries;
  }

  lemma OneMoreName(names: seq<string>, lower: string -> string, name: string)
    ensures FirstSeen(names + [name], lower)
         == FirstSeen(names, lower) + (if lower(name) in Folded(names, lower) then [] else [name])
    ensures Folded(names + [name], lower) == Folded(names, lower) + {lower(name)}
  {
    SeenIsFolded(names, lower, name);
    assert (names + [name])[..|names|] == names;
  }

  function Folded(names: seq<string>, lower: string -> string): set<string> {
    if names == [] then {} else Folded(names[..|names| - 1], lower) + {lower(names[|names| - 1])}
  }

  lemma {:induction false} SeenIsFolded(names: seq<string>, lower: string -> string, name: string)
    ensures SeenIn(names, lower, name) <==> lower(name) in Folded(names, lower)
  {
    if names != [] {
      var n := |names| - 1;
      SeenIsFolded(names[..n], lower, name);
      if i :| 0 <= i < |names| && lower(names[i]) == lower(name) {
        assert i < n ==> names[..n][i] == names[i];
      }
      if i :| 0 <= i < n && lower(names[..n][i]) == lower(name) { assert names[i] == names[..n][i]; }
    }
  }

  // ----- Unique owners

  /** The positions of the names that `FirstSeen` keeps. */
  function FirstSeenAt(names: seq<string>, lower: string -> string): seq<nat> {
    if names == [] then []
    else
      var n := |names| - 1;
      if SeenIn(names[..n], lower, names[n]) then FirstSeenAt(names[..n], lower)
      else FirstSeenAt(names[..n], lower) + [n]
  }

  lemma {:induction false} FirstSeenPositions(names: seq<string>, lower: string -> string)
    ensures var unique, at := FirstSeen(names, lower), FirstSeenAt(names, lower);
            && |at| == |unique|
            && (forall i | 0 <= i < |at| :: at[i] < |names| && names[at[i]] == unique[i])
            && (forall i, j | 0 <= i < j < |at| :: at[i] < at[j])
  {
    if names != [] {
      var n := |names| - 1;
      FirstSeenPositions(names[..n], lower);
    }
  }

  lemma {:induction false} NothingLikeItBefore(names: seq<string>, lower: string -> string, i: nat, k: nat)
    requires i < |FirstSeenAt(names, lower)| && FirstSeenAt(names, lower)[i] < |names|
    requires k < FirstSeenAt(names, lower)[i]
    ensures lower(names[k]) != lower(names[FirstSeenAt(names, lower)[i]])
  {
    var n := |names| - 1;
    var earlier := FirstSeenAt(names[..n], lower);
    if i < |earlier| {
      FirstSeenPositions(names[..n], lower);
      NothingLikeItBefore(names[..n], lower, i, k);
    } else {
      assert names[..n][k] == names[k];
    }
  }

  lemma {:induction false} EveryNameIsCovered(names: seq<string>, lower: string -> string, k: nat)
    requires k < |names|
    ensures SeenIn(FirstSeen(names, lower), lower, names[k])
  {
    var n := |names| - 1;
    var before, unique := FirstSeen(names[..n], lower), FirstSeen(names, lower);
    if k < n || SeenIn(names[..n], lower, names[n]) {
      var m := k;
      if k == n {
        m :| 0 <= m < n && lower(names[..n][m]) == lower(names[n]);
      }
      EveryNameIsCovered(names[..n], lower, m);
      var i :| 0 <= i < |before| && lower(before[i]) == lower(names[..n][m]);
      assert unique[i] == before[i] && lower(unique[i]) == lower(names[k]);
    } else {
      assert unique[|before|] == names[n];
    }
  }

  /**
   `unique_owners` holds no two names equal up to case, covers every owner, and lists each as first
   spelt, in the order of first appearance.
   */
  lemma FirstSeenIsExact(names: seq<string>, lower: string -> string)
    ensures var unique, at := FirstSeen(names, lower), FirstSeenAt(names, lower);
            && |at| == |unique|
            && (forall i | 0 <= i < |at| :: at[i] < |names| && names[at[i]] == unique[i])
            && (forall i, k | 0 <= i < |at| && 0 <= k < at[i] :: lower(names[k]) != lower(unique[i]))
            && (forall i, j | 0 <= i < j < |at| :: at[i] < at[j] && lower(unique[i]) != lower(unique[j]))
            && (forall k | 0 <= k < |names| :: SeenIn(unique, lower, names[k]))
  {
    var unique, at := FirstSeen(names, lower), FirstSeenAt(names, lower);
    FirstSeenPositions(names, lower);
    forall i, k | 0 <= i < |at| && 0 <= k < at[i] ensures lower(names[k]) != lower(unique[i]) {
      NothingLikeItBefore(names, lower, i, k);
    }
    forall i, j | 0 <= i < j < |at| ensures lower(unique[i]) != lower(unique[j]) {
      assert at[i] < at[j] && names[at[i]] == unique[i];
    }
    forall k | 0 <= k < |names| ensures SeenIn(unique, lower, names[k]) { EveryNameIsCovered(names, lower, k); }
  }

  // ----- Lines

  /** A line ends at a newline, with or without a carriage return before it, or at the end of the file. */
  lemma LineEndings(line: string, rest: string)
    requires '\n' !in line
    ensures Lines([]) == []
    ensures line != [] ==> Lines(line) == [line]
    ensures Lines(line + "\r\n" + rest) == [line] + Lines(rest)
    ensures line == [] || line[|line| - 1] != '\r' ==> Lines(line + "\n" + rest) == [line] + Lines(rest)
  {
    LineEndIs(line, |line|);
    var crlf, lf := line + "\r\n" + rest, line + "\n" + rest;
    assert crlf[|line|] == '\r' && crlf[|line| + 1] == '\n' && crlf[..|line| + 1] == line + "\r";
    LineEndIs(crlf, |line| + 1);
    assert crlf[..|line|] == line && crlf[|line| + 2..] == rest;
    assert lf[|line|] == '\n' && lf[..|line|] == line && lf[|line| + 1..] == rest;
    LineEndIs(lf, |line|);
  }

  lemma LineEndIs(s: string, n: nat)
    requires n <= |s| && '\n' !in s[..n] && (n < |s| ==> s[n] == '\n')
    ensures LineEnd(s) == n
  {
    var m := LineEnd(s);
    forall i | 0 <= i < n ensures s[i] != '\n' { assert s[..n][i] == s[i]; }
    forall i | 0 <= i < m ensures s[i] != '\n' { assert s[..m][i] == s[i]; }
  }

  lemma {:induction false} TrimStartAt(s: string, k: nat)
    requires k <= |s| && (forall j | 0 <= j < k :: IsSpace(s[j])) && (k < |s| ==> !IsSpace(s[k]))
    ensures TrimStart(s) == s[k..]
  {
    if k > 0 { TrimStartAt(s[1..], k - 1); }
  }

  lemma {:induction false} FirstNonSpace(s: string) returns (k: nat)
    ensures k <= |s| && (forall j | 0 <= j < k :: IsSpace(s[j])) && (k < |s| ==> !IsSpace(s[k]))
  {
    if s == [] || !IsSpace(s[0]) {
      k := 0;
    } else {
      var n := FirstNonSpace(s[1..]);
      k := n + 1;
    }
  }

  /** The first character of the line that is no space is a hash, or there is none. */
  ghost predicate BlankOrComment(line: string) {
    || (forall c | c in line :: IsSpace(c))
    || exists i :: 0 <= i < |line| && line[i] == '#' && forall j | 0 <= j < i :: IsSpace(line[j])
  }

  /** A line of more than 10 KB is skipped, a blank one and a comment are ignored, and any other has an entry. */
  lemma LineIsReadIff(line: string)
    ensures ParseLine(line).Skipped? <==> Bytes(line) > 10240
    ensures ParseLine(line).Ignored? <==> Bytes(line) <= 10240 && BlankOrComment(line)
  {
    hide Bytes, SortedOwners;
    var k := FirstNonSpace(line);
    TrimStartAt(line, k);
    TrimEndFacts(line[k..]);
    if k == |line| {
      TrimNothing();
    } else {
      assert !(forall c | c in line :: IsSpace(c)) by { assert line[k] in line; }
      var trimmed := Trim(line);
      assert trimmed[0] == line[k];
      assert line[k] != '#' ==> !BlankOrComment(line) by { assert !IsSpace('#'); }
      TokensAreThere(trimmed);
    }
  }

  lemma TokensAreThere(trimmed: string)
    requires trimmed != [] && !IsSpace(trimmed[0])
    ensures Tokens(StripInlineComment(trimmed)) != []
  {
    CommentStartIsFirst(trimmed);
    var n := CommentStart(trimmed);
    TrimEndFacts(trimmed[..n]);
    assert n > 0;
  }

  /** An entry has the first token of its line as pattern, and as owners the later tokens with an `@` in front. */
  lemma EntryIsOfItsLine(line: string)
    requires ParseLine(line).Parsed?
    ensures var tokens, e := Tokens(StripInlineComment(Trim(line))), ParseLine(line).entry;
            && tokens != [] && e.pattern == tokens[0] && SortedBy(TextLt, e.owners)
            && forall o :: o in e.owners <==> o in tokens[1..] && o != [] && o[0] == '@'
  {
    SortedOwnersAreExact(Tokens(StripInlineComment(Trim(line)))[1..]);
  }

  /** The positions of the lines that have entries. */
  function EntryLines(outcomes: seq<Line>): seq<nat> {
    if outcomes == [] then []
    else
      var n := |outcomes| - 1;
      EntryLines(outcomes[..n]) + (if outcomes[n].Parsed? then [n] else [])
  }

  /** The entries are those of the lines that have one, in the order of the lines. */
  lemma {:induction false} EntriesFollowTheLines(outcomes: seq<Line>)
    ensures var entries, at := Entries(outcomes), EntryLines(outcomes);
            && |at| == |entries|
            && (forall i, j | 0 <= i < j < |at| :: at[i] < at[j])
            && (forall i | 0 <= i < |at| :: at[i] < |outcomes| && outcomes[at[i]] == Parsed(entries[i]))
            && (forall n: nat | n < |outcomes| && outcomes[n].Parsed? :: n in at)
  {
    if outcomes != [] {
      var n := |outcomes| - 1;
      EntriesFollowTheLines(outcomes[..n]);
      forall m: nat | m < n && outcomes[m].Parsed? ensures m in EntryLines(outcomes) {
        assert outcomes[..n][m] == outcomes[m];
      }
    }
  }

  /** The lines of more than 10 KB. */
  ghost function LongLines(lines: seq<string>): set<nat> { set i: nat | i < |lines| && Bytes(lines[i]) > 10240 }

  /** The skipped lines are counted, up to the greatest 32-bit number. */
  lemma LongLinesAreCounted(content: string, lower: string -> string)
    ensures var long := |LongLines(Lines(content))|;
            Parse(content, lower).skippedLines == if long > 4294967295 then 4294967295 else long
  {
    SkippedAreLong(Lines(content));
  }

  lemma {:induction false} SkippedAreLong(lines: seq<string>)
    ensures SkippedAmong(Outcomes(lines)) == |LongLines(lines)|
    decreases |lines|
  {
    hide Bytes, ParseLine;
    if lines == [] {
      assert LongLines(lines) == {};
    } else {
      var n := |lines| - 1;
      SkippedAreLong(lines[..n]);
      LineIsReadIff(lines[n]);
      OutcomesNext(lines);
      LongLinesNext(lines);
    }
  }

  lemma OutcomesNext(lines: seq<string>)
    requires lines != []
    ensures Outcomes(lines) == Outcomes(lines[..|lines| - 1]) + [ParseLine(lines[|lines| - 1])]
    ensures SkippedAmong(Outcomes(lines))
         == SkippedAmong(Outcomes(lines[..|lines| - 1])) + if ParseLine(lines[|lines| - 1]).Skipped? then 1 else 0
  {
    hide ParseLine;
    assert Outcomes(lines)[..|lines| - 1] == Outcomes(lines[..|lines| - 1]);
  }

  lemma LongLinesNext(lines: seq<string>)
    requires lines != []
    ensures |LongLines(lines)| == |LongLines(lines[..|lines| - 1])| + if Bytes(lines[|lines| - 1]) > 10240 then 1 else 0
  {
    hide Bytes;
    var n := |lines| - 1;
    assert LongLines(lines) == LongLines(lines[..n]) + if Bytes(lines[n]) > 10240 then {n} else {};
  }

  // ----- Comments

  /** `CommentStart` is the first position at which a comment starts. */
  lemma {:induction false} CommentStartIsFirst(s: string)
    ensures var n := CommentStart(s);
            && (n < |s| ==> StartsComment(s, n))
            && forall i | 0 <= i < n :: !StartsComment(s, i)
  {
    if |s| >= 2 && !StartsComment(s, 0) {
      CommentStartIsFirst(s[1..]);
      forall i | 0 <= i < CommentStart(s) ensures !StartsComment(s, i) {
        if i > 0 { assert !StartsComment(s[1..], i - 1); }
      }
    }
  }

  /** Any position that a comment starts at, and none before it, is where the parser finds it. */
  lemma CommentStartIs(s: string, n: nat)
    requires n <= |s| && (n < |s| ==> StartsComment(s, n))
    requires forall i | 0 <= i < n :: !StartsComment(s, i)
    ensures CommentStart(s) == n
  {
    CommentStartIsFirst(s);
  }

  lemma {:induction false} TrimStartConcat(x: string, y: string)
    ensures TrimStart(x + y) == if TrimStart(x) == [] then TrimStart(y) else TrimStart(x) + y
  {
    if x == [] {
      assert x + y == y;
    } else {
      assert (x + y)[1..] == x[1..] + y;
      if IsSpace(x[0]) { TrimStartConcat(x[1..], y); }
    }
  }

  lemma {:induction false} TrimEndConcat(x: string, y: string)
    ensures TrimEnd(x + y) == if TrimEnd(y) == [] then TrimEnd(x) else x + TrimEnd(y)
    decreases |y|
  {
    if y == [] {
      assert x + y == x;
    } else {
      var n := |y| - 1;
      assert (x + y)[..|x + y| - 1] == x + y[..n];
      if IsSpace(y[n]) { TrimEndConcat(x, y[..n]); }
    }
  }

  lemma CommentIsFoundBehind(a: string, sep: char, comment: string)
    requires sep == ' ' || sep == '\t'
    ensures CommentStart(a + [sep, '#'] + comment) == CommentStart(a)
  {
    hide CommentStart;
    var s, p := a + [sep, '#'] + comment, CommentStart(a);
    CommentStartIsFirst(a);
    assert s[|a|] == sep && s[|a| + 1] == '#';
    forall i | 0 <= i < p ensures !StartsComment(s, i) { assert !StartsComment(a, i); }
    CommentStartIs(s, p);
  }

  lemma CommentIsFoundInTrimmed(a: string)
    ensures var t, p := TrimEnd(a), CommentStart(a);
            t <= a && CommentStart(t) == (if p < |a| then p else |t|) && (p < |a| ==> p < |t|)
  {
    hide CommentStart, TrimEnd;
    var t, p := TrimEnd(a), CommentStart(a);
    TrimEndFacts(a);
    CommentStartIsFirst(a);
    if p < |a| { EndsBehind(a, p + 1); }
    var q := if p < |a| then p else |t|;
    forall i | 0 <= i < q ensures !StartsComment(t, i) { assert !StartsComment(a, i); }
    CommentStartIs(t, q);
  }

  /** What is stripped from the trimmed line with the comment is what is stripped from it without. */
  lemma StripsToTheSame(a: string, sep: char, comment: string)
    requires sep == ' ' || sep == '\t'
    ensures StripInlineComment(a + [sep, '#'] + comment) == StripInlineComment(TrimEnd(a))
  {
    hide CommentStart, TrimEnd;
    var s, t, p := a + [sep, '#'] + comment, TrimEnd(a), CommentStart(a);
    CommentIsFoundBehind(a, sep, comment);
    CommentIsFoundInTrimmed(a);
    if p < |a| {
      assert s[..p] == a[..p] == t[..p];
    } else {
      assert s[..p] == a;
    }
  }

  /** Trimming the end keeps what stands up to a character that is no space. */
  lemma {:induction false} EndsBehind(s: string, i: nat)
    requires i < |s| && !IsSpace(s[i])
    ensures |TrimEnd(s)| > i && TrimEnd(s)[..i + 1] == s[..i + 1]
  {
    if IsSpace(s[|s| - 1]) { EndsBehind(s[..|s| - 1], i); }
  }

  lemma TrimOfCommented(line: string, sep: char, comment: string) returns (c: string)
    requires sep == ' ' || sep == '\t'
    ensures Trim(line + [sep, '#'] + comment)
         == TrimStart(line) + (if TrimStart(line) == [] then [] else [sep]) + ['#'] + c
  {
    hide TrimStart, TrimEnd;
    var hash := ['#'] + comment;
    CommentStandsBehind(line, sep, comment);
    TrimStartConcat(line, [sep] + hash);
    TrimStartToHash(sep, hash);
    HashStays(comment);
    HeadAndTail(TrimEnd(hash));
    c := TrimEnd(hash)[1..];
    if TrimStart(line) == [] {
      Regroup([], [], ['#'] + c);
      Regroup([], ['#'], c);
    } else {
      var a := TrimStart(line);
      Regroup(a, [sep], hash);
      TrimEndConcat(a + [sep], hash);
      Regroup(a + [sep], ['#'], c);
    }
  }

  lemma CommentStandsBehind(line: string, sep: char, comment: string)
    ensures line + [sep, '#'] + comment == line + ([sep] + (['#'] + comment))
  {}

  lemma TrimStartToHash(sep: char, hash: string)
    requires IsSpace(sep) && hash != [] && hash[0] == '#'
    ensures TrimStart([sep] + hash) == hash
  {
    assert ([sep] + hash)[1..] == hash;
  }

  lemma HashStays(comment: string)
    ensures var t := TrimEnd(['#'] + comment); t != [] && t[0] == '#'
  {
    TrimEndFacts(['#'] + comment);
  }

  /** An inline comment changes nothing about how its line is read. */
  lemma InlineCommentIsIgnored(line: string, sep: char, comment: string)
    requires (sep == ' ' || sep == '\t') && Bytes(line + [sep, '#'] + comment) <= MAX_LINE_LENGTH
    ensures ParseLine(line + [sep, '#'] + comment) == ParseLine(line)
  {
    hide TrimStart, TrimEnd, StripInlineComment, Tokens, SortedOwners, Bytes;
    var w, a := line + [sep, '#'] + comment, TrimStart(line);
    BytesOfSlice(w, 0, |line|);
    assert w[0..|line|] == line;
    var c := TrimOfCommented(line, sep, comment);
    TrimEndFacts(a);
    TrimStartFacts(line);
    if a == [] {
      TrimNothing();
    } else {
      assert Trim(w) == a + [sep, '#'] + c;
      StripsToTheSame(a, sep, c);
    }
  }

  lemma TrimNothing()
    ensures TrimEnd([]) == []
  {}

  // ----- The normal form

  function Format(e: Entry): string { e.pattern + FormatOwners(e.owners) }

  function FormatOwners(owners: seq<string>): string {
    if owners == [] then [] else [' '] + owners[0] + FormatOwners(owners[1..])
  }

  function Rewrite(entries: seq<Entry>): string {
    if entries == [] then [] else Format(entries[0]) + ['\n'] + Rewrite(entries[1..])
  }

  ghost predicate IsWord(s: string) { s != [] && forall c | c in s :: !IsSpace(c) }

  /** What parsing produces, and all that it can produce. */
  ghost predicate WellFormed(e: Entry) {
    && IsWord(e.pattern) && e.pattern[0] != '#'
    && (forall o | o in e.owners :: IsWord(o) && o[0] == '@')
    && SortedBy(TextLt, e.owners)
    && Bytes(Format(e)) <= MAX_LINE_LENGTH
  }

  /** The tokens of a string, each with one separator, weigh no more than the string and one separator. */
  function Weight(tokens: seq<string>): nat {
    if tokens == [] then 0 else Bytes(tokens[0]) + 1 + Weight(tokens[1..])
  }

  lemma {:induction false} TokensAreWords(s: string)
    ensures forall t | t in Tokens(s) :: IsWord(t)
    ensures Weight(Tokens(s)) <= Bytes(s) + 1
    ensures s != [] && IsSpace(s[|s| - 1]) ==> Weight(Tokens(s)) <= Bytes(s)
    decreases |s|
  {
    if s == [] {
    } else if IsSpace(s[0]) {
      TokensAreWords(s[1..]);
    } else {
      var n := TokenEnd(s);
      var word, rest := s[..n], s[n..];
      BytesConcat(word, rest);
      assert s == word + rest;
      if rest != [] {
        TokensAreWords(rest[1..]);
        assert Tokens(rest) == Tokens(rest[1..]);
        assert rest == [rest[0]] + rest[1..];
      }
      assert Tokens(s) == [word] + Tokens(rest);
    }
  }

  lemma {:induction false} OwnersAmongTokens(tokens: seq<string>)
    requires forall t | t in tokens :: IsWord(t)
    ensures forall o | o in OwnersAmong(tokens) :: IsWord(o) && IsOwner(o)
    ensures Weight(OwnersAmong(tokens)) <= Weight(tokens)
  {
    if tokens != [] { OwnersAmongTokens(tokens[1..]); }
  }

  lemma {:induction false} InsertWeight(x: string, xs: seq<string>)
    ensures Weight(Insert(TextLe, x, xs)) == Bytes(x) + 1 + Weight(xs)
  {
    if xs == [] {
      assert [x][1..] == [];
    } else if TextLe(x, xs[0]) {
      assert ([x] + xs)[1..] == xs;
    } else {
      InsertWeight(x, xs[1..]);
      assert ([xs[0]] + Insert(TextLe, x, xs[1..]))[1..] == Insert(TextLe, x, xs[1..]);
    }
  }

  lemma {:induction false} SortWeight(xs: seq<string>)
    ensures Weight(InsertionSort(TextLe, xs)) == Weight(xs)
  {
    if xs != [] {
      SortWeight(xs[1..]);
      InsertWeight(xs[0], InsertionSort(TextLe, xs[1..]));
    }
  }

  /** Deduplicating a sorted list leaves it strictly sorted, with the same elements and no more weight. */
  lemma {:induction false} DedupSorted(xs: seq<string>)
    requires SortedBy(TextLe, xs)
    ensures SortedBy(TextLt, Dedup(xs)) && Elements(Dedup(xs)) == Elements(xs)
    ensures Weight(Dedup(xs)) <= Weight(xs)
    ensures xs != [] ==> Dedup(xs) != [] && Dedup(xs)[0] == xs[0]
  {
    if |xs| >= 2 {
      var rest := Dedup(xs[1..]);
      DedupSorted(xs[1..]);
      assert xs == [xs[0]] + xs[1..];
      if xs[0] == xs[1] {
        assert xs[0] in Elements(xs[1..]);
        assert Elements(xs) == Elements(xs[1..]);
      } else {
        assert ([xs[0]] + rest)[1..] == rest;
        assert Elements([xs[0]] + rest) == {xs[0]} + Elements(rest) && Elements(xs) == {xs[0]} + Elements(xs[1..]);
        CompareTextReverses(xs[0], xs[1]);
        forall k | 0 <= k < |rest| ensures TextLt(xs[0], rest[k]) {
          if k > 0 { CompareTextTransitive(xs[0], rest[0], rest[k]); }
        }
      }
    }
  }

  /** An entry's owners are exactly the tokens with an `@` in front, in order and each once. */
  lemma SortedOwnersAreExact(tokens: seq<string>)
    ensures SortedBy(TextLt, SortedOwners(tokens))
    ensures forall o :: o in SortedOwners(tokens) <==> o in tokens && o != [] && o[0] == '@'
  {
    hide InsertionSort, Dedup;
    var owners := OwnersAmong(tokens);
    var sorted := InsertionSort(TextLe, owners);
    TextLeTotal(Elements(owners));
    InsertionSortSorted(TextLe, owners);
    DedupSorted(sorted);
    forall o ensures o in SortedOwners(tokens) <==> o in tokens && IsOwner(o) {
      assert o in SortedOwners(tokens) <==> o in Elements(SortedOwners(tokens));
      assert o in owners <==> o in Elements(owners);
      OwnersAmongAre(tokens, o);
    }
  }

  lemma {:induction false} OwnersAmongAre(tokens: seq<string>, o: string)
    ensures o in OwnersAmong(tokens) <==> o in tokens && IsOwner(o)
  {
    if tokens != [] {
      assert tokens == [tokens[0]] + tokens[1..];
      OwnersAmongAre(tokens[1..], o);
    }
  }

  lemma {:induction false} StrictlySortedIsFixed(xs: seq<string>)
    requires SortedBy(TextLt, xs)
    ensures InsertionSort(TextLe, xs) == xs && Dedup(xs) == xs
  {
    if xs != [] {
      var x, rest := xs[0], xs[1..];
      StrictlySortedIsFixed(rest);
      assert xs == [x] + rest;
      if rest != [] {
        assert TextLt(x, rest[0]);
        CompareTextReverses(x, rest[0]);
        assert Insert(TextLe, x, rest) == xs;
      }
    }
  }

  lemma {:induction false} FormatOwnersWeight(owners: seq<string>)
    ensures Bytes(FormatOwners(owners)) == Weight(owners)
  {
    if owners != [] {
      FormatOwnersWeight(owners[1..]);
      assert FormatOwners(owners) == ([' '] + owners[0]) + FormatOwners(owners[1..]);
      BytesConcat([' '] + owners[0], FormatOwners(owners[1..]));
      BytesConcat([' '], owners[0]);
      assert Bytes([' ']) == 1 by { assert [' '][1..] == []; }
    }
  }

  lemma {:induction false} TrimStartFacts(s: string)
    ensures Bytes(TrimStart(s)) <= Bytes(s)
    ensures TrimStart(s) != [] ==> !IsSpace(TrimStart(s)[0])
  {
    if s != [] && IsSpace(s[0]) { TrimStartFacts(s[1..]); }
  }

  lemma {:induction false} TrimEndFacts(s: string)
    ensures TrimEnd(s) <= s && Bytes(TrimEnd(s)) <= Bytes(s)
    ensures s != [] && !IsSpace(s[0]) ==> TrimEnd(s) != []
  {
    if s != [] && IsSpace(s[|s| - 1]) {
      TrimEndFacts(s[..|s| - 1]);
      BytesOfSlice(s, 0, |s| - 1);
    }
  }

  /** Every parsed entry is well formed; in particular its rewritten line is no longer than its own. */
  lemma ParsedIsWellFormed(line: string)
    requires ParseLine(line).Parsed?
    ensures WellFormed(ParseLine(line).entry)
  {
    var trimmed := Trim(line);
    TrimStartFacts(line);
    TrimEndFacts(TrimStart(line));
    var effective := StripInlineComment(trimmed);
    var n := CommentStart(trimmed);
    BytesOfSlice(trimmed, 0, n);
    TrimEndFacts(trimmed[..n]);
    assert n > 0 && effective[0] == trimmed[0];
    var tokens := Tokens(effective);
    TokensAreWords(effective);
    var owners := OwnersAmong(tokens[1..]);
    OwnersAmongTokens(tokens[1..]);
    var sorted := InsertionSort(TextLe, owners);
    SortWeight(owners);
    TextLeTotal(Elements(owners));
    InsertionSortSorted(TextLe, owners);
    DedupSorted(sorted);
    var e := ParseLine(line).entry;
    FormatOwnersWeight(e.owners);
    BytesConcat(e.pattern, FormatOwners(e.owners));
    assert e.pattern == tokens[0] == effective[..TokenEnd(effective)];
    forall o | o in e.owners ensures o in owners { assert o in Elements(e.owners); }
  }

  // ----- Reading a rewritten line

  lemma {:induction false} NoComment(s: string)
    requires SpacedOut(s)
    ensures CommentStart(s) == |s|
  {
    if |s| >= 2 {
      assert forall i | 0 <= i < |s| - 1 :: s[1..][i] == s[i + 1];
      NoComment(s[1..]);
    }
  }

  /** Where a line has a space, a word that does not start with a hash follows. */
  ghost predicate SpacedOut(s: string) {
    forall i | 0 <= i < |s| && IsSpace(s[i]) :: s[i] == ' ' && i + 1 < |s| && s[i + 1] != '#' && !IsSpace(s[i + 1])
  }

  lemma WordSpacedOut(word: string, rest: string)
    requires IsWord(word) && SpacedOut(rest)
    ensures SpacedOut(word + rest)
  {
    var s := word + rest;
    forall i | 0 <= i < |word| ensures !IsSpace(s[i]) { assert s[i] == word[i] && word[i] in word; }
    forall i | 0 <= i < |s| && IsSpace(s[i])
      ensures s[i] == ' ' && i + 1 < |s| && s[i + 1] != '#' && !IsSpace(s[i + 1])
    {
      assert s[i] == rest[i - |word|];
      assert s[i + 1] == rest[i + 1 - |word|];
    }
  }

  lemma {:induction false} FormattedOwnersShape(owners: seq<string>)
    requires forall o | o in owners :: IsWord(o) && IsOwner(o)
    ensures SpacedOut(FormatOwners(owners))
    ensures owners != [] ==> FormatOwners(owners) != [] && FormatOwners(owners)[0] == ' '
    decreases |owners|
  {
    if owners != [] {
      var o, rest := owners[0], FormatOwners(owners[1..]);
      assert o in owners && forall x | x in owners[1..] :: x in owners;
      FormattedOwnersShape(owners[1..]);
      WordSpacedOut(o, rest);
      var s := FormatOwners(owners);
      assert s == [' '] + (o + rest);
      assert s[1] == o[0] && o[0] in o;
      forall i | 0 <= i < |s| && IsSpace(s[i])
        ensures s[i] == ' ' && i + 1 < |s| && s[i + 1] != '#' && !IsSpace(s[i + 1])
      {
        if i > 0 {
          assert s[i] == (o + rest)[i - 1];
          assert s[i + 1] == (o + rest)[i];
        }
      }
    }
  }

  lemma {:induction false} FormattedOwnersTokens(owners: seq<string>)
    requires forall o | o in owners :: IsWord(o)
    ensures Tokens(FormatOwners(owners)) == owners
    decreases |owners|
  {
    if owners != [] {
      var o, rest := owners[0], owners[1..];
      FormattedOwnersTokens(rest);
      assert rest != [] ==> FormatOwners(rest)[0] == ' ';
      WordThenRest(o, FormatOwners(rest));
      SpaceThenTokens(o + FormatOwners(rest));
      HeadAndTail(owners);
      Regroup([' '], o, FormatOwners(rest));
    }
  }

  lemma HeadAndTail<T>(s: seq<T>)
    requires s != []
    ensures s == [s[0]] + s[1..]
  {}

  lemma Regroup<T>(a: seq<T>, b: seq<T>, c: seq<T>)
    ensures a + b + c == a + (b + c)
  {}

  lemma {:induction false} OwnersAmongOwners(owners: seq<string>)
    requires forall o | o in owners :: IsOwner(o)
    ensures OwnersAmong(owners) == owners
    decreases |owners|
  {
    if owners != [] {
      OwnersAmongOwners(owners[1..]);
      assert owners == [owners[0]] + owners[1..];
    }
  }

  lemma SpaceThenTokens(s: string)
    ensures Tokens([' '] + s) == Tokens(s)
  {
    assert ([' '] + s)[1..] == s;
  }

  lemma WordThenRest(word: string, rest: string)
    requires IsWord(word) && (rest == [] || IsSpace(rest[0]))
    ensures Tokens(word + rest) == [word] + Tokens(rest)
  {
    var s := word + rest;
    forall i | 0 <= i < |word| ensures !IsSpace(s[i]) { assert s[i] == word[i] && word[i] in word; }
    assert rest != [] ==> s[|word|] == rest[0];
    var n := TokenEnd(s);
    assert n == |word|;
    assert s[..n] == word && s[n..] == rest;
  }

  /** A well-formed entry is read back from its formatted line. */
  lemma FormattedIsParsed(e: Entry)
    requires WellFormed(e)
    ensures ParseLine(Format(e)) == Parsed(e)
  {
    var p, rest, s := e.pattern, FormatOwners(e.owners), Format(e);
    FormattedOwnersShape(e.owners);
    FormattedOwnersTokens(e.owners);
    OwnersAmongOwners(e.owners);
    FormattedIsTight(e);
    assert StripInlineComment(s) == s by { NoComment(s); }
    WordThenRest(p, rest);
    assert ([p] + e.owners)[1..] == e.owners;
    StrictlySortedIsFixed(e.owners);
  }

  /** A formatted line has nothing to trim, does not look like a comment and holds no line break. */
  lemma FormattedIsTight(e: Entry)
    requires WellFormed(e)
    ensures var s := Format(e);
            && s != [] && Trim(s) == s && s[0] != '#' && SpacedOut(s)
            && '\n' !in s && s[|s| - 1] != '\r'
  {
    var p, s := e.pattern, Format(e);
    FormattedOwnersShape(e.owners);
    WordSpacedOut(p, FormatOwners(e.owners));
    assert p[0] in p && s[0] == p[0];
    assert !IsSpace(s[|s| - 1]);
    assert IsSpace('\r') && IsSpace('\n');
  }

  lemma LinesOfNext(line: string, rest: string)
    requires '\n' !in line && line != [] && line[|line| - 1] != '\r'
    ensures Lines(line + ['\n'] + rest) == [line] + Lines(rest)
  {
    var s := line + ['\n'] + rest;
    var n := LineEnd(s);
    assert s[|line|] == '\n';
    forall i | 0 <= i < n ensures s[i] != '\n' { assert s[i] == s[..n][i]; }
    forall i | 0 <= i < |line| ensures s[i] != '\n' { assert s[i] == line[i]; }
    assert n == |line|;
    assert s[..n] == line && s[n + 1..] == rest && s[n - 1] == line[n - 1];
  }

  lemma {:induction false} LinesOfRewrite(entries: seq<Entry>)
    requires forall e | e in entries :: WellFormed(e)
    ensures |Lines(Rewrite(entries))| == |entries|
    ensures forall i | 0 <= i < |entries| :: Lines(Rewrite(entries))[i] == Format(entries[i])
    decreases |entries|
  {
    hide Lines, Format;
    if entries == [] {
      LinesOfNothing();
    } else {
      var rest := entries[1..];
      assert entries[0] in entries && forall e | e in rest :: e in entries;
      LinesOfRewrite(rest);
      FirstLineOfRewrite(entries);
      forall i | 0 <= i < |entries| ensures Lines(Rewrite(entries))[i] == Format(entries[i]) {
        if i > 0 { assert entries[i] == rest[i - 1]; }
      }
    }
  }

  lemma LinesOfNothing()
    ensures Lines([]) == []
  {}

  lemma FirstLineOfRewrite(entries: seq<Entry>)
    requires entries != [] && WellFormed(entries[0])
    ensures Lines(Rewrite(entries)) == [Format(entries[0])] + Lines(Rewrite(entries[1..]))
  {
    FormattedIsTight(entries[0]);
    LinesOfNext(Format(entries[0]), Rewrite(entries[1..]));
  }

  lemma {:induction false} EntriesOfOutcomes(outcomes: seq<Line>)
    requires forall i | 0 <= i < |outcomes| :: outcomes[i].Parsed?
    ensures |Entries(outcomes)| == |outcomes| && SkippedAmong(outcomes) == 0
    ensures forall i | 0 <= i < |outcomes| :: Entries(outcomes)[i] == outcomes[i].entry
  {
    if outcomes != [] { EntriesOfOutcomes(outcomes[..|outcomes| - 1]); }
  }

  lemma {:induction false} EntriesComeFromOutcomes(outcomes: seq<Line>, e: Entry)
    requires e in Entries(outcomes)
    ensures Parsed(e) in outcomes
  {
    var n := |outcomes| - 1;
    if e in Entries(outcomes[..n]) {
      EntriesComeFromOutcomes(outcomes[..n], e);
    } else {
      assert outcomes[n] == Parsed(e);
    }
  }

  lemma EntriesAreWellFormed(lines: seq<string>)
    ensures forall e | e in Entries(Outcomes(lines)) :: WellFormed(e)
  {
    forall e | e in Entries(Outcomes(lines)) ensures WellFormed(e) {
      EntriesComeFromOutcomes(Outcomes(lines), e);
      var i :| 0 <= i < |lines| && Outcomes(lines)[i] == Parsed(e);
      ParsedIsWellFormed(lines[i]);
    }
  }

  /** Any list of well-formed entries is what parsing its rewritten file gives, with nothing skipped. */
  lemma ParseOfRewrite(entries: seq<Entry>, lower: string -> string)
    requires forall e | e in entries :: WellFormed(e)
    ensures Parse(Rewrite(entries), lower) == ParsedCodeowners(entries, FirstSeen(AllOwners(entries), lower), 0)
  {
    LinesOfRewrite(entries);
    var outcomes := Outcomes(Lines(Rewrite(entries)));
    forall i | 0 <= i < |entries| ensures outcomes[i] == Parsed(entries[i]) { FormattedIsParsed(entries[i]); }
    EntriesOfOutcomes(outcomes);
    assert Entries(outcomes) == entries;
  }

  /** Parsing has a normal form: rewriting what was parsed and parsing again changes nothing but skips nothing. */
  lemma NormalForm(content: string, lower: string -> string)
    ensures var first := Parse(content, lower);
            Parse(Rewrite(first.entries), lower) == first.(skippedLines := 0)
  {
    EntriesAreWellFormed(Lines(content));
    ParseOfRewrite(Parse(content, lower).entries, lower);
  }
}
