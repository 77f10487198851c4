/**
 The slash-sensitive glob engine: a byte-level matcher inside path segments and a segment-level
 matcher above it, each with its own depth cut-off.

 What a pattern means is stated without recursion: a pattern matches when the candidate can be cut
 into one piece for each pattern element. The engine is proved to decide exactly that relation
 within its cut-offs.
 */
module Glob {

  type byte = b: int | 0 <= b < 256

  const STAR: byte := 42
  const QUESTION: byte := 63
  const SLASH: byte := 47

  const MAX_SEGMENT_RECURSION_DEPTH: nat := 64

  // ----- The engine

  function FnmatchBytes(pattern: seq<byte>, candidate: seq<byte>, depth: nat, maxDepth: nat): bool
    decreases |pattern|
  {
    if depth > maxDepth then false
    else if pattern == [] then candidate == []
    else if pattern[0] == STAR then
      exists i | 0 <= i <= |candidate| :: FnmatchBytes(pattern[1..], candidate[i..], depth + 1, maxDepth)
    else if pattern[0] == QUESTION then
      candidate != [] && FnmatchBytes(pattern[1..], candidate[1..], depth + 1, maxDepth)
    else
      candidate != [] && candidate[0] == pattern[0]
      && FnmatchBytes(pattern[1..], candidate[1..], depth + 1, maxDepth)
  }

  /** The pattern with every run of stars reduced to one. */
  function Collapse(pattern: seq<byte>): seq<byte> {
    if pattern == [] then []
    else
      var rest, last := Collapse(pattern[..|pattern| - 1]), pattern[|pattern| - 1];
      if last == STAR && rest != [] && rest[|rest| - 1] == STAR then rest else rest + [last]
  }

  predicate FnmatchSegment(pattern: seq<byte>, candidate: seq<byte>, maxDepth: nat) {
    FnmatchBytes(Collapse(pattern), candidate, 0, maxDepth)
  }

  method CollapseAndMatch(pattern: seq<byte>, candidate: seq<byte>, maxDepth: nat) returns (r: bool)
    ensures r == FnmatchSegment(pattern, candidate, maxDepth)
    ensures r <==> |Kept(pattern)| <= maxDepth && Matches(pattern, candidate)
  {
    SegmentIsExact(pattern, candidate, maxDepth);
    var out: seq<byte> := [];
    for i := 0 to |pattern|
      invariant out == Collapse(pattern[..i])
    {
      assert pattern[..i + 1][..i] == pattern[..i];
      if pattern[i] == STAR && out != [] && out[|out| - 1] == STAR {
        continue;
      }
      out := out + [pattern[i]];
    }
    assert pattern[..|pattern|] == pattern;
    r := FnmatchBytes(out, candidate, 0, maxDepth);
  }

  const DOUBLE_STAR: seq<byte> := [STAR, STAR]

  function MatchPathSegments(pattern: seq<seq<byte>>, candidate: seq<seq<byte>>, depth: nat, maxDepth: nat): bool
    decreases |pattern|
  {
    if depth > MAX_SEGMENT_RECURSION_DEPTH then false
    else if pattern == [] then candidate == []
    else if pattern[0] == DOUBLE_STAR then
      if |pattern| == 1 then true
      else exists i | 0 <= i <= |candidate| :: MatchPathSegments(pattern[1..], candidate[i..], depth + 1, maxDepth)
    else
      candidate != [] && FnmatchSegment(pattern[0], candidate[0], maxDepth)
      && MatchPathSegments(pattern[1..], candidate[1..], depth + 1, maxDepth)
  }

  /** The pieces of a path between slashes; even the empty path has one. */
  function Split(path: seq<byte>): (parts: seq<seq<byte>>)
    ensures parts != []
  {
    if path == [] then [[]]
    else
      var rest := Split(path[1..]);
      if path[0] == SLASH then [[]] + rest else [[path[0]] + rest[0]] + rest[1..]
  }

  predicate PathPatternMatches(pattern: seq<byte>, candidate: seq<byte>, maxDepth: nat) {
    MatchPathSegments(Split(pattern), Split(candidate), 0, maxDepth)
  }

  // ----- What a pattern means

  /** `cuts` divides a sequence of length `n` into `k` consecutive pieces, some of them possibly empty. */
  ghost predicate Divides(cuts: seq<nat>, k: nat, n: nat) {
    && |cuts| == k + 1 && cuts[0] == 0 && cuts[k] == n
    && forall i, j | 0 <= i <= j <= k :: cuts[i] <= cuts[j]
  }

  ghost predicate CutsMatch<P(!new), C(!new)>(
      accepts: (P, seq<C>) -> bool, pattern: seq<P>, candidate: seq<C>, cuts: seq<nat>)
  {
    && Divides(cuts, |pattern|, |candidate|)
    && forall i | 0 <= i < |pattern| :: accepts(pattern[i], candidate[cuts[i]..cuts[i + 1]])
  }

  /** The candidate can be cut into consecutive pieces that the pattern's elements accept one by one. */
  ghost predicate Cuttable<P(!new), C(!new)>(accepts: (P, seq<C>) -> bool, pattern: seq<P>, candidate: seq<C>) {
    exists cuts :: CutsMatch(accepts, pattern, candidate, cuts)
  }

  /**
   Element `p` of a byte pattern accepts the piece: any bytes for a star (byte 42), any one
   byte for a question mark (byte 63), and else the byte itself.
   */
  ghost predicate AcceptsBytes(p: byte, piece: seq<byte>) {
    if p == 42 then true else |piece| == 1 && (p == 63 || piece[0] == p)
  }

  ghost predicate Matches(pattern: seq<byte>, candidate: seq<byte>) {
    Cuttable(AcceptsBytes, pattern, candidate)
  }

  /** Two bytes 42, the stars of `**`. */
  predicate IsDoubleStar(p: seq<byte>) { p == [42, 42] }

  /** Element `p` of a path pattern accepts the run of segments: any for `**`, else one that it matches. */
  ghost predicate AcceptsSegments(p: seq<byte>, piece: seq<seq<byte>>) {
    if IsDoubleStar(p) then true else |piece| == 1 && Matches(p, piece[0])
  }

  ghost predicate PathMatches(pattern: seq<seq<byte>>, candidate: seq<seq<byte>>) {
    Cuttable(AcceptsSegments, pattern, candidate)
  }

  // ----- Cutting element by element

  lemma PeelHead<P(!new), C(!new)>(
      accepts: (P, seq<C>) -> bool, pattern: seq<P>, candidate: seq<C>) returns (i: nat)
    requires pattern != [] && Cuttable(accepts, pattern, candidate)
    ensures i <= |candidate| && accepts(pattern[0], candidate[..i])
    ensures Cuttable(accepts, pattern[1..], candidate[i..])
  {
    var cuts :| CutsMatch(accepts, pattern, candidate, cuts);
    i := cuts[1];
    assert candidate[cuts[0]..cuts[1]] == candidate[..i];
    assert forall j | 1 <= j < |cuts| :: cuts[j] >= cuts[1];
    var rest: seq<nat> := seq(|pattern|, j requires 0 <= j < |pattern| => cuts[j + 1] - i);
    forall j | 0 <= j < |pattern| - 1
      ensures accepts(pattern[1..][j], candidate[i..][rest[j]..rest[j + 1]])
    {
      assert candidate[i..][rest[j]..rest[j + 1]] == candidate[cuts[j + 1]..cuts[j + 2]];
    }
    assert CutsMatch(accepts, pattern[1..], candidate[i..], rest);
  }

  lemma PutHead<P(!new), C(!new)>(accepts: (P, seq<C>) -> bool, pattern: seq<P>, candidate: seq<C>, i: nat)
    requires pattern != [] && i <= |candidate| && accepts(pattern[0], candidate[..i])
    requires Cuttable(accepts, pattern[1..], candidate[i..])
    ensures Cuttable(accepts, pattern, candidate)
  {
    var rest :| CutsMatch(accepts, pattern[1..], candidate[i..], rest);
    var cuts: seq<nat> := [0] + seq(|pattern|, j requires 0 <= j < |pattern| => rest[j] + i);
    forall j | 0 <= j < |pattern| ensures accepts(pattern[j], candidate[cuts[j]..cuts[j + 1]]) {
      if j == 0 {
        assert candidate[cuts[0]..cuts[1]] == candidate[..i];
      } else {
        assert candidate[cuts[j]..cuts[j + 1]] == candidate[i..][rest[j - 1]..rest[j]];
        assert accepts(pattern[1..][j - 1], candidate[i..][rest[j - 1]..rest[j]]);
      }
    }
    assert CutsMatch(accepts, pattern, candidate, cuts);
  }

  lemma CutEmpty<P(!new), C(!new)>(accepts: (P, seq<C>) -> bool, candidate: seq<C>)
    ensures Cuttable(accepts, [], candidate) <==> candidate == []
  {
    if candidate == [] {
      assert CutsMatch(accepts, [], candidate, [0]);
    }
  }

  lemma {:induction false} SplitCut<P(!new), C(!new)>(
      accepts: (P, seq<C>) -> bool, p: seq<P>, q: seq<P>, candidate: seq<C>) returns (e: nat)
    requires Cuttable(accepts, p + q, candidate)
    ensures e <= |candidate| && Cuttable(accepts, p, candidate[..e]) && Cuttable(accepts, q, candidate[e..])
    decreases |p|
  {
    if p == [] {
      e := 0;
      assert p + q == q && candidate[0..] == candidate;
      CutEmpty(accepts, candidate[..0]);
    } else {
      var k := PeelHead(accepts, p + q, candidate);
      assert (p + q)[1..] == p[1..] + q;
      var i := SplitCut(accepts, p[1..], q, candidate[k..]);
      e := k + i;
      assert candidate[..e][..k] == candidate[..k] && candidate[..e][k..] == candidate[k..][..i];
      assert candidate[e..] == candidate[k..][i..];
      PutHead(accepts, p, candidate[..e], k);
    }
  }

  lemma {:induction false} JoinCut<P(!new), C(!new)>(
      accepts: (P, seq<C>) -> bool, p: seq<P>, q: seq<P>, candidate: seq<C>, e: nat)
    requires e <= |candidate| && Cuttable(accepts, p, candidate[..e]) && Cuttable(accepts, q, candidate[e..])
    ensures Cuttable(accepts, p + q, candidate)
    decreases |p|
  {
    if p == [] {
      CutEmpty(accepts, candidate[..e]);
      assert p + q == q && candidate[e..] == candidate;
    } else {
      var k := PeelHead(accepts, p, candidate[..e]);
      assert candidate[..e][..k] == candidate[..k] && candidate[..e][k..] == candidate[k..][..e - k];
      assert candidate[e..] == candidate[k..][e - k..];
      JoinCut(accepts, p[1..], q, candidate[k..], e - k);
      assert (p + q)[1..] == p[1..] + q;
      PutHead(accepts, p + q, candidate, k);
    }
  }

  // ----- The byte engine is exact

  /** The byte engine says yes exactly when the pattern matches and its length fits the depth left. */
  lemma {:induction false} FnmatchIsExact(pattern: seq<byte>, candidate: seq<byte>, depth: nat, maxDepth: nat)
    ensures FnmatchBytes(pattern, candidate, depth, maxDepth) <==>
              depth + |pattern| <= maxDepth && Matches(pattern, candidate)
    decreases |pattern|
  {
    if pattern == [] {
      CutEmpty(AcceptsBytes, candidate);
    } else {
      forall i | 0 <= i <= |candidate|
        ensures FnmatchBytes(pattern[1..], candidate[i..], depth + 1, maxDepth) <==>
                  depth + |pattern| <= maxDepth && Matches(pattern[1..], candidate[i..])
      {
        FnmatchIsExact(pattern[1..], candidate[i..], depth + 1, maxDepth);
      }
      if FnmatchBytes(pattern, candidate, depth, maxDepth) {
        var i :| 0 <= i <= |candidate| && (pattern[0] != STAR ==> i == 1)
                 && FnmatchBytes(pattern[1..], candidate[i..], depth + 1, maxDepth);
        PutHead(AcceptsBytes, pattern, candidate, i);
      }
      if Matches(pattern, candidate) && depth + |pattern| <= maxDepth {
        var i := PeelHead(AcceptsBytes, pattern, candidate);
        assert candidate != [] ==> candidate[..1] == [candidate[0]];
      }
    }
  }

  // ----- Collapsing stars preserves the language

  lemma MatchesStar(candidate: seq<byte>)
    ensures Matches([STAR], candidate)
  {
    assert candidate[..|candidate|] == candidate && candidate[|candidate|..] == [];
    assert [STAR][1..] == [];
    CutEmpty(AcceptsBytes, candidate[|candidate|..]);
    PutHead(AcceptsBytes, [STAR], candidate, |candidate|);
  }

  /** A star after a star adds nothing. */
  lemma StarAbsorbsStar(front: seq<byte>, candidate: seq<byte>)
    ensures Matches(front + [STAR] + [STAR], candidate) <==> Matches(front + [STAR], candidate)
  {
    if Matches(front + [STAR] + [STAR], candidate) {
      var i := SplitCut(AcceptsBytes, front + [STAR], [STAR], candidate);
      var j := SplitCut(AcceptsBytes, front, [STAR], candidate[..i]);
      assert candidate[..i][..j] == candidate[..j];
      MatchesStar(candidate[j..]);
      JoinCut(AcceptsBytes, front, [STAR], candidate, j);
    }
    if Matches(front + [STAR], candidate) {
      assert candidate[..|candidate|] == candidate;
      MatchesStar(candidate[|candidate|..]);
      JoinCut(AcceptsBytes, front + [STAR], [STAR], candidate, |candidate|);
    }
  }

  predicate StarBehindStar(pattern: seq<byte>, i: nat) {
    0 < i < |pattern| && pattern[i] == 42 && pattern[i - 1] == 42
  }

  /** The positions of a pattern that collapsing keeps: all but the stars behind a star. */
  function Kept(pattern: seq<byte>): set<nat> {
    set i: nat | i < |pattern| && !StarBehindStar(pattern, i)
  }

  /** The collapsed pattern is as long as there are kept positions, and no star follows a star in it. */
  lemma {:induction false} CollapseKeeps(pattern: seq<byte>)
    ensures var r := Collapse(pattern);
            && |r| == |Kept(pattern)|
            && (forall i: nat | i < |r| :: !StarBehindStar(r, i))
            && (pattern != [] ==> r != [] && r[|r| - 1] == pattern[|pattern| - 1])
  {
    if pattern == [] {
      assert Kept(pattern) == {};
    } else {
      var n := |pattern| - 1;
      CollapseKeeps(pattern[..n]);
      assert forall i: nat | i < n :: StarBehindStar(pattern[..n], i) == StarBehindStar(pattern, i);
      assert Kept(pattern) == Kept(pattern[..n]) + if StarBehindStar(pattern, n) then {} else {n};
      var rest := Collapse(pattern[..n]);
      forall i: nat | i < |Collapse(pattern)| ensures !StarBehindStar(Collapse(pattern), i) {
        if i < |rest| { assert !StarBehindStar(rest, i); }
      }
    }
  }

  lemma {:induction false} CollapseKeepsLanguage(pattern: seq<byte>, candidate: seq<byte>)
    ensures Matches(Collapse(pattern), candidate) <==> Matches(pattern, candidate)
    decreases |pattern|
  {
    if pattern != [] {
      var front, last := pattern[..|pattern| - 1], pattern[|pattern| - 1];
      var rest := Collapse(front);
      assert pattern == front + [last];
      forall c ensures Matches(rest, c) <==> Matches(front, c) { CollapseKeepsLanguage(front, c); }
      SameTail(rest, front, last, candidate);
      SameTail(front, rest, last, candidate);
      if last == STAR && rest != [] && rest[|rest| - 1] == STAR {
        assert rest == rest[..|rest| - 1] + [STAR];
        StarAbsorbsStar(rest[..|rest| - 1], candidate);
      }
    }
  }

  /** An inclusion of languages survives one more pattern element. */
  lemma {:induction false} SameTail(p: seq<byte>, q: seq<byte>, last: byte, candidate: seq<byte>)
    requires forall c :: Matches(p, c) ==> Matches(q, c)
    ensures Matches(p + [last], candidate) ==> Matches(q + [last], candidate)
  {
    if Matches(p + [last], candidate) {
      var i := SplitCut(AcceptsBytes, p, [last], candidate);
      assert Matches(p, candidate[..i]);
      JoinCut(AcceptsBytes, q, [last], candidate, i);
    }
  }

  /** Within one segment the engine is exact for patterns whose collapsed form fits the byte depth. */
  lemma SegmentIsExact(pattern: seq<byte>, candidate: seq<byte>, maxDepth: nat)
    ensures FnmatchSegment(pattern, candidate, maxDepth) <==>
              |Kept(pattern)| <= maxDepth && Matches(pattern, candidate)
  {
    CollapseKeeps(pattern);
    FnmatchIsExact(Collapse(pattern), candidate, 0, maxDepth);
    CollapseKeepsLanguage(pattern, candidate);
  }

  // ----- The path engine is exact

  /** Segment recursion reaches the end of the pattern, or stops early on a trailing `**`. */
  predicate FitsDepth(pattern: seq<seq<byte>>, depth: nat) {
    || depth + |pattern| <= MAX_SEGMENT_RECURSION_DEPTH
    || (pattern != [] && IsDoubleStar(pattern[|pattern| - 1]) && depth + |pattern| <= MAX_SEGMENT_RECURSION_DEPTH + 1)
  }

  ghost predicate FitsBytes(pattern: seq<seq<byte>>, maxDepth: nat) {
    forall i | 0 <= i < |pattern| :: IsDoubleStar(pattern[i]) || |Kept(pattern[i])| <= maxDepth
  }

  lemma {:induction false} SegmentsAreExact(
      pattern: seq<seq<byte>>, candidate: seq<seq<byte>>, depth: nat, maxDepth: nat)
    ensures MatchPathSegments(pattern, candidate, depth, maxDepth) <==>
              FitsDepth(pattern, depth) && FitsBytes(pattern, maxDepth) && PathMatches(pattern, candidate)
    decreases |pattern|
  {
    if pattern == [] {
      CutEmpty(AcceptsSegments, candidate);
    } else if pattern == [DOUBLE_STAR] {
      assert candidate[..|candidate|] == candidate && [DOUBLE_STAR][1..] == [];
      CutEmpty(AcceptsSegments, candidate[|candidate|..]);
      PutHead(AcceptsSegments, pattern, candidate, |candidate|);
    } else {
      var tail := pattern[1..];
      assert FitsBytes(pattern, maxDepth) <==>
        (IsDoubleStar(pattern[0]) || |Kept(pattern[0])| <= maxDepth) && FitsBytes(tail, maxDepth) by {
        assert forall i | 0 <= i < |tail| :: tail[i] == pattern[i + 1];
      }
      assert FitsDepth(pattern, depth) ==> FitsDepth(tail, depth + 1);
      assert FitsDepth(tail, depth + 1) && |tail| > 0 ==> FitsDepth(pattern, depth);
      forall i | 0 <= i <= |candidate|
        ensures MatchPathSegments(tail, candidate[i..], depth + 1, maxDepth) <==>
                  FitsDepth(tail, depth + 1) && FitsBytes(tail, maxDepth) && PathMatches(tail, candidate[i..])
      {
        SegmentsAreExact(tail, candidate[i..], depth + 1, maxDepth);
      }
      if candidate != [] {
        SegmentIsExact(pattern[0], candidate[0], maxDepth);
        assert candidate[..1] == [candidate[0]];
      }
      if MatchPathSegments(pattern, candidate, depth, maxDepth) {
        var i :| 0 <= i <= |candidate| && (pattern[0] != DOUBLE_STAR ==> i == 1)
                 && MatchPathSegments(tail, candidate[i..], depth + 1, maxDepth);
        PutHead(AcceptsSegments, pattern, candidate, i);
      }
      if FitsDepth(pattern, depth) && FitsBytes(pattern, maxDepth) && PathMatches(pattern, candidate) {
        var i := PeelHead(AcceptsSegments, pattern, candidate);
        assert MatchPathSegments(tail, candidate[i..], depth + 1, maxDepth);
      }
    }
  }

  /**
   The whole engine: a path pattern is found to match exactly when its segments match, every segment
   but `**` collapses to at most `maxDepth` bytes, and there are at most 64 segments, or 65 when the
   last one is `**`.
   */
  lemma PathPatternIsExact(pattern: seq<byte>, candidate: seq<byte>, maxDepth: nat)
    ensures var parts := Split(pattern);
            PathPatternMatches(pattern, candidate, maxDepth) <==>
              && PathMatches(parts, Split(candidate))
              && FitsBytes(parts, maxDepth)
              && |parts| <= (if IsDoubleStar(parts[|parts| - 1]) then 65 else 64)
  {
    SegmentsAreExact(Split(pattern), Split(candidate), 0, maxDepth);
  }

  // ----- Slashes

  function Join(parts: seq<seq<byte>>): seq<byte>
    requires parts != []
  {
    if |parts| == 1 then parts[0] else parts[0] + [SLASH] + Join(parts[1..])
  }

  /** Splitting loses nothing and leaves no slash (byte 47) inside a piece. */
  lemma {:induction false} SplitIsExact(path: seq<byte>)
    ensures Join(Split(path)) == path
    ensures forall part | part in Split(path) :: 47 !in part
  {
    if path != [] {
      SplitIsExact(path[1..]);
      assert path == [path[0]] + path[1..];
      JoinStep(path[0], Split(path[1..]));
      SlashFreeStep(path[0], Split(path[1..]));
    }
  }

  /** Splitting adds one byte at a time: a slash opens a new piece, any other byte extends the first. */
  lemma JoinStep(b: byte, rest: seq<seq<byte>>)
    requires rest != []
    ensures Join(if b == SLASH then [[]] + rest else [[b] + rest[0]] + rest[1..]) == [b] + Join(rest)
  {
    if b == SLASH {
      assert ([[]] + rest)[1..] == rest;
    } else {
      assert ([[b] + rest[0]] + rest[1..])[1..] == rest[1..];
      if |rest| > 1 {
        assert ([b] + rest[0]) + [SLASH] + Join(rest[1..]) == [b] + (rest[0] + [SLASH] + Join(rest[1..]));
      }
    }
  }

  lemma SlashFreeStep(b: byte, rest: seq<seq<byte>>)
    requires rest != [] && forall part | part in rest :: SLASH !in part
    ensures forall part | part in (if b == SLASH then [[]] + rest else [[b] + rest[0]] + rest[1..]) :: SLASH !in part
  {
    assert rest[0] in rest;
    assert forall part | part in rest[1..] :: part in rest;
  }

  /** Conversely, slash-free pieces are found again: a path has one division into segments. */
  lemma {:induction false} SplitJoin(parts: seq<seq<byte>>)
    requires parts != [] && forall part | part in parts :: SLASH !in part
    ensures Split(Join(parts)) == parts
    decreases |parts|, |parts[0]|
  {
    var path := Join(parts);
    if |parts| == 1 && parts[0] == [] {
    } else if parts[0] == [] {
      assert path[0] == SLASH && path[1..] == Join(parts[1..]);
      SplitJoin(parts[1..]);
      assert [[]] + parts[1..] == parts;
    } else {
      var shorter := [parts[0][1..]] + parts[1..];
      assert shorter[1..] == parts[1..];
      assert path[0] == parts[0][0] && path[0] in parts[0] && parts[0] in parts;
      assert path[1..] == Join(shorter);
      forall part | part in shorter ensures SLASH !in part {
        assert part == parts[0][1..] || part in parts;
      }
      SplitJoin(shorter);
      assert [path[0]] + shorter[0] == parts[0] && [parts[0]] + parts[1..] == parts;
    }
  }

  /** Without `**` nothing crosses a slash: segments match one to one. */
  lemma {:induction false} PlainSegmentsPairUp(pattern: seq<seq<byte>>, candidate: seq<seq<byte>>)
    requires forall part | part in pattern :: !IsDoubleStar(part)
    ensures PathMatches(pattern, candidate) <==>
              |pattern| == |candidate| && forall i | 0 <= i < |pattern| :: Matches(pattern[i], candidate[i])
    decreases |pattern|
  {
    if pattern == [] {
      CutEmpty(AcceptsSegments, candidate);
    } else {
      assert pattern[0] in pattern;
      if candidate != [] {
        PlainSegmentsPairUp(pattern[1..], candidate[1..]);
        assert candidate[..1] == [candidate[0]];
      }
      if PathMatches(pattern, candidate) {
        var i := PeelHead(AcceptsSegments, pattern, candidate);
        assert candidate[..i][0] == candidate[0];
        forall k | 0 <= k < |pattern| ensures Matches(pattern[k], candidate[k]) {
          if k > 0 { assert pattern[1..][k - 1] == pattern[k] && candidate[1..][k - 1] == candidate[k]; }
        }
      }
      if |pattern| == |candidate| && forall i | 0 <= i < |pattern| :: Matches(pattern[i], candidate[i]) {
        PutHead(AcceptsSegments, pattern, candidate, 1);
      }
    }
  }
}
