/**
 The ephemeral event store: streams of envelopes behind an optimistic sequence check, with all
 sequence and id arithmetic checked against the 64-bit range.

 The envelope constructor and the stream validator belong to another crate. The constructor's
 refusals are the parameter `refused`; the validator is taken to demand the stream's own id and the
 sequences 1, 2, 3 and so on.
 */
module EventStore {
  import opened Wrappers

  const U64_MAX: nat := 0xFFFF_FFFF_FFFF_FFFF

  datatype Envelope = Envelope(id: nat, sequence: nat, payload: string)

  datatype StoreError =
    | Infrastructure(reason: string)
    | ConcurrencyConflict(id: nat, expected: nat, actual: nat)
    | CorruptData

  datatype State = State(streams: map<nat, seq<Envelope>>, nextId: nat)

  const EMPTY := State(map[], 1)

  function Envelopes(id: nat, start: nat, events: seq<string>): (es: seq<Envelope>)
    ensures |es| == |events|
  {
    seq(|events|, i requires 0 <= i < |events| => Envelope(id, start + i + 1, events[i]))
  }

  /** The first failure met while building the envelopes one by one, if any. */
  function BuildError(start: nat, events: seq<string>, refused: string -> bool): (r: Option<StoreError>)
    ensures r.Some? ==> r.value.Infrastructure?
  {
    if events == [] then None
    else
      var n := |events| - 1;
      var earlier := BuildError(start, events[..n], refused);
      if earlier.Some? then earlier
      else if start + n + 1 > U64_MAX then Some(Infrastructure("sequence overflow"))
      else if refused(events[n]) then Some(Infrastructure("envelope refused"))
      else None
  }

  /** The envelopes carry the events in order, under this id, numbered on from `start`. */
  ghost predicate Carries(es: seq<Envelope>, id: nat, start: nat, events: seq<string>) {
    |es| == |events| && forall i | 0 <= i < |events| :: es[i] == Envelope(id, start + i + 1, events[i])
  }

  /** Why event `n` cannot be appended after sequence `start`, if it cannot: the range comes before a refusal. */
  ghost function Failure(start: nat, events: seq<string>, refused: string -> bool, n: nat): Option<string>
    requires n < |events|
  {
    if start + n + 1 > 0xFFFF_FFFF_FFFF_FFFF then Some("sequence overflow")
    else if refused(events[n]) then Some("envelope refused")
    else None
  }

  /** The error is that of the first event that fails, and there is none when no event fails. */
  ghost predicate IsFirstFailure(start: nat, events: seq<string>, refused: string -> bool, error: Option<StoreError>) {
    match error
    case None => forall n | 0 <= n < |events| :: Failure(start, events, refused, n).None?
    case Some(e) =>
      exists n | 0 <= n < |events| ::
        && Failure(start, events, refused, n).Some?
        && e == Infrastructure(Failure(start, events, refused, n).value)
        && forall j | 0 <= j < n :: Failure(start, events, refused, j).None?
  }

  lemma {:induction false} BuildErrorIsFirst(start: nat, events: seq<string>, refused: string -> bool)
    ensures IsFirstFailure(start, events, refused, BuildError(start, events, refused))
    decreases |events|
  {
    if events != [] {
      var n := |events| - 1;
      BuildErrorIsFirst(start, events[..n], refused);
      forall j | 0 <= j < n ensures Failure(start, events, refused, j) == Failure(start, events[..n], refused, j) {}
      if BuildError(start, events[..n], refused).None? {
        assert Failure(start, events, refused, n) == None || IsFirstFailure(start, events, refused, Some(Infrastructure(
          Failure(start, events, refused, n).value)));
      } else {
        var j :| 0 <= j < n && Failure(start, events[..n], refused, j).Some?
          && BuildError(start, events[..n], refused).value
             == Infrastructure(Failure(start, events[..n], refused, j).value)
          && forall k | 0 <= k < j :: Failure(start, events[..n], refused, k).None?;
        assert Failure(start, events, refused, j).Some?;
      }
    }
  }

  method BuildEnvelopes(id: nat, start: nat, events: seq<string>, refused: string -> bool)
    returns (r: Result<seq<Envelope>, StoreError>)
    requires start <= U64_MAX
    ensures match BuildError(start, events, refused)
            case Some(e) => r == Err(e)
            case None => r == Ok(Envelopes(id, start, events))
    ensures r.Ok? ==> Carries(r.value, id, start, events) && IsFirstFailure(start, events, refused, None)
    ensures r.Err? ==> IsFirstFailure(start, events, refused, Some(r.error))
  {
    BuildErrorIsFirst(start, events, refused);
    var envelopes: seq<Envelope> := [];
    for i := 0 to |events|
      invariant BuildError(start, events[..i], refused) == None
      invariant envelopes == Envelopes(id, start, events[..i])
    {
      assert events[..i + 1][..i] == events[..i];
      var index := if i <= U64_MAX then i else U64_MAX;
      if start + index + 1 > U64_MAX {
        BuildErrorStays(start, events, i + 1, refused);
        return Err(Infrastructure("sequence overflow"));
      }
      if refused(events[i]) {
        BuildErrorStays(start, events, i + 1, refused);
        return Err(Infrastructure("envelope refused"));
      }
      envelopes := envelopes + [Envelope(id, start + index + 1, events[i])];
    }
    assert events[..|events|] == events;
    return Ok(envelopes);
  }

  lemma {:induction false} BuildErrorStays(start: nat, events: seq<string>, n: nat, refused: string -> bool)
    requires n <= |events| && BuildError(start, events[..n], refused).Some?
    ensures BuildError(start, events, refused) == BuildError(start, events[..n], refused)
    decreases |events|
  {
    if n < |events| {
      var m := |events| - 1;
      assert events[..m][..n] == events[..n];
      BuildErrorStays(start, events[..m], n, refused);
    } else {
      assert events[..n] == events;
    }
  }

  /** Building fails exactly when the last sequence leaves the 64-bit range or some event is refused. */
  lemma {:induction false} BuildFailsIff(start: nat, events: seq<string>, refused: string -> bool)
    ensures BuildError(start, events, refused).Some? <==>
              (events != [] && start + |events| > U64_MAX) || exists e :: e in events && refused(e)
  {
    if events != [] {
      var n := |events| - 1;
      BuildFailsIff(start, events[..n], refused);
      assert events == events[..n] + [events[n]];
    }
  }

  // ----- Operations as transitions

  datatype Op =
    | Load(id: nat)
    | Create(events: seq<string>)
    | Append(id: nat, expected: nat, events: seq<string>)

  datatype Reply =
    | Loaded(stream: seq<Envelope>)
    | Created(id: nat, envelopes: seq<Envelope>)
    | Appended(envelopes: seq<Envelope>)
    | Failed(error: StoreError)

  function Stream(s: State, id: nat): seq<Envelope> { if id in s.streams then s.streams[id] else [] }

  function LastSequence(stream: seq<Envelope>): nat { if stream == [] then 0 else stream[|stream| - 1].sequence }

  /** A stream that the validator accepts for this aggregate. */
  predicate Validates(id: nat, stream: seq<Envelope>) {
    forall i | 0 <= i < |stream| :: stream[i].id == id && stream[i].sequence == i + 1
  }

  function Perform(s: State, op: Op, refused: string -> bool): (State, Reply) {
    match op
    case Load(id) =>
      (s, if Validates(id, Stream(s, id)) then Loaded(Stream(s, id)) else Failed(CorruptData))
    case Create(events) =>
      if events == [] then (s, Failed(Infrastructure("cannot create aggregate with zero events")))
      else if s.nextId + 1 > U64_MAX then (s, Failed(Infrastructure("aggregate ID overflow")))
      else
        var id, bumped := s.nextId, s.(nextId := s.nextId + 1);
        (match BuildError(0, events, refused)
         case Some(e) => (bumped, Failed(e))
         case None =>
           var envelopes := Envelopes(id, 0, events);
           (bumped.(streams := s.streams[id := envelopes]), Created(id, envelopes)))
    case Append(id, expected, events) =>
      if events == [] then (s, Appended([]))
      else if id !in s.streams then (s, Failed(Infrastructure("not created")))
      else
        var actual := LastSequence(s.streams[id]);
        if actual != expected then (s, Failed(ConcurrencyConflict(id, expected, actual)))
        else
          (match BuildError(expected, events, refused)
           case Some(e) => (s, Failed(e))
           case None =>
             var envelopes := Envelopes(id, expected, events);
             (s.(streams := s.streams[id := s.streams[id] + envelopes]), Appended(envelopes)))
  }

  /** Expected sequences are non-zero 64-bit numbers. */
  predicate WellTyped(op: Op) { op.Append? ==> 1 <= op.expected <= U64_MAX }

  class EphemeralEventStore {
    var streams: map<nat, seq<Envelope>>
    var nextId: nat

    constructor ()
      ensures View() == EMPTY && streams == map[] && nextId == 1
    {
      streams, nextId := map[], 1;
    }

    function View(): State
      reads this
    {
      State(streams, nextId)
    }

    method LoadStream(id: nat) returns (r: Result<seq<Envelope>, StoreError>)
      ensures var reply := Perform(View(), Load(id), _ => false).1;
              if r.Ok? then reply == Loaded(r.value) else reply == Failed(r.error)
      ensures var stored := if id in streams then streams[id] else [];
              if forall i | 0 <= i < |stored| :: stored[i].id == id && stored[i].sequence == i + 1
              then r == Ok(stored) else r == Err(CorruptData)
    {
      var stream := if id in streams then streams[id] else [];
      if !Validates(id, stream) {
        return Err(CorruptData);
      }
      return Ok(stream);
    }

    method CreateStream(events: seq<string>, refused: string -> bool)
      returns (r: Result<(nat, seq<Envelope>), StoreError>)
      modifies this
      ensures var (after, reply) := Perform(old(View()), Create(events), refused);
              View() == after && if r.Ok? then reply == Created(r.value.0, r.value.1) else reply == Failed(r.error)
      ensures r.Ok? ==>
        && r.value.0 == old(nextId) && Carries(r.value.1, old(nextId), 0, events)
        && streams == old(streams)[old(nextId) := r.value.1]
      ensures r.Err? ==> streams == old(streams)
      ensures if events == [] then r == Err(Infrastructure("cannot create aggregate with zero events"))
              else if old(nextId) >= 0xFFFF_FFFF_FFFF_FFFF then r == Err(Infrastructure("aggregate ID overflow"))
              else IsFirstFailure(0, events, refused, if r.Ok? then None else Some(r.error))
      ensures nextId == old(nextId) + if events != [] && old(nextId) < 0xFFFF_FFFF_FFFF_FFFF then 1 else 0
    {
      if events == [] {
        return Err(Infrastructure("cannot create aggregate with zero events"));
      }
      var id := nextId;
      if nextId + 1 > U64_MAX {
        return Err(Infrastructure("aggregate ID overflow"));
      }
      nextId := nextId + 1;
      var built := BuildEnvelopes(id, 0, events, refused);
      if built.Err? {
        return Err(built.error);
      }
      streams := streams[id := built.value];
      return Ok((id, built.value));
    }

    method AppendTo(id: nat, expected: nat, events: seq<string>, refused: string -> bool)
      returns (r: Result<seq<Envelope>, StoreError>)
      requires 1 <= expected <= U64_MAX
      modifies this
      ensures var (after, reply) := Perform(old(View()), Append(id, expected, events), refused);
              View() == after && if r.Ok? then reply == Appended(r.value) else reply == Failed(r.error)
      ensures nextId == old(nextId) && (r.Err? || events == [] ==> streams == old(streams))
      ensures r.Ok? ==> Carries(r.value, id, expected, events)
      ensures r.Ok? && events != [] ==>
        id in old(streams) && streams == old(streams)[id := old(streams)[id] + r.value]
      ensures if events == [] then r == Ok([])
              else if id !in old(streams) then r == Err(Infrastructure("not created"))
              else
                var stream := old(streams)[id];
                var actual := if stream == [] then 0 else stream[|stream| - 1].sequence;
                if actual != expected then r == Err(ConcurrencyConflict(id, expected, actual))
                else IsFirstFailure(expected, events, refused, if r.Ok? then None else Some(r.error))
    {
      if events == [] {
        return Ok([]);
      }
      if id !in streams {
        return Err(Infrastructure("not created"));
      }
      var actual := LastSequence(streams[id]);
      if actual != expected {
        return Err(ConcurrencyConflict(id, expected, actual));
      }
      var built := BuildEnvelopes(id, expected, events, refused);
      if built.Err? {
        return Err(built.error);
      }
      streams := streams[id := streams[id] + built.value];
      return Ok(built.value);
    }
  }

  // ----- Every reachable state

  ghost predicate Sound(s: State) {
    && 1 <= s.nextId <= U64_MAX
    && forall id | id in s.streams ::
         && 1 <= id < s.nextId
         && 1 <= |s.streams[id]| <= U64_MAX
         && Validates(id, s.streams[id])
  }

  lemma PerformKeepsSound(s: State, op: Op, refused: string -> bool)
    requires Sound(s) && WellTyped(op)
    ensures var (t, reply) := Perform(s, op, refused);
            && Sound(t) && t.nextId >= s.nextId
            && (reply.Failed? ==> t.streams == s.streams && reply.error != CorruptData)
            && (forall id | id in s.streams :: id in t.streams && s.streams[id] <= t.streams[id])
            && (reply.Created? ==> reply.id !in s.streams && reply.id == s.nextId < t.nextId)
  {
    match op
    case Load(id) =>
      assert Validates(id, Stream(s, id));
    case Create(events) => CreateKeepsSound(s, events, refused);
    case Append(id, expected, events) => AppendKeepsSound(s, id, expected, events, refused);
  }

  lemma CreateKeepsSound(s: State, events: seq<string>, refused: string -> bool)
    requires Sound(s)
    ensures var (t, reply) := Perform(s, Create(events), refused);
            && Sound(t) && t.nextId >= s.nextId && (reply.Failed? || reply.Created?)
            && (reply.Failed? ==> t.streams == s.streams && reply.error != CorruptData)
            && (reply.Created? ==>
                  && reply.id == s.nextId < t.nextId && reply.id !in s.streams
                  && t.streams == s.streams[reply.id := reply.envelopes])
  {
    BuildFailsIff(0, events, refused);
    if events != [] { assert Validates(s.nextId, Envelopes(s.nextId, 0, events)); }
  }

  lemma AppendKeepsSound(s: State, id: nat, expected: nat, events: seq<string>, refused: string -> bool)
    requires Sound(s) && 1 <= expected <= U64_MAX
    ensures var (t, reply) := Perform(s, Append(id, expected, events), refused);
            && Sound(t) && t.nextId == s.nextId && (reply.Failed? || reply.Appended?)
            && (reply.Failed? ==> t.streams == s.streams && reply.error != CorruptData)
            && (reply.Appended? && events != [] ==>
                  id in s.streams && t.streams == s.streams[id := s.streams[id] + reply.envelopes])
            && (events == [] ==> t == s)
  {
    BuildFailsIff(expected, events, refused);
    if id in s.streams {
      assert Validates(id, s.streams[id]);
      if |s.streams[id]| == expected { assert Validates(id, s.streams[id] + Envelopes(id, expected, events)); }
    }
  }

  /** The state before operation `n` of a run, and the reply to it. */
  function StateAt(ops: seq<Op>, refused: string -> bool, n: nat): State
    requires n <= |ops|
  {
    if n == 0 then EMPTY else Perform(StateAt(ops, refused, n - 1), ops[n - 1], refused).0
  }

  function ReplyAt(ops: seq<Op>, refused: string -> bool, n: nat): Reply
    requires n < |ops|
  {
    Perform(StateAt(ops, refused, n), ops[n], refused).1
  }

  /** In every reachable state streams are non-empty, numbered 1 to n under their own id, and in range. */
  lemma {:induction false} ReachableIsSound(ops: seq<Op>, refused: string -> bool, n: nat)
    requires n <= |ops| && forall op | op in ops :: WellTyped(op)
    ensures Sound(StateAt(ops, refused, n))
  {
    if n > 0 {
      ReachableIsSound(ops, refused, n - 1);
      PerformKeepsSound(StateAt(ops, refused, n - 1), ops[n - 1], refused);
    }
  }

  /** History only grows. */
  lemma {:induction false} HistoryGrows(ops: seq<Op>, refused: string -> bool, i: nat, j: nat)
    requires i <= j <= |ops| && forall op | op in ops :: WellTyped(op)
    ensures StateAt(ops, refused, i).nextId <= StateAt(ops, refused, j).nextId
    ensures forall id | id in StateAt(ops, refused, i).streams ::
              id in StateAt(ops, refused, j).streams
              && StateAt(ops, refused, i).streams[id] <= StateAt(ops, refused, j).streams[id]
  {
    if i < j {
      HistoryGrows(ops, refused, i, j - 1);
      ReachableIsSound(ops, refused, j - 1);
      PerformKeepsSound(StateAt(ops, refused, j - 1), ops[j - 1], refused);
    }
  }

  lemma CreatedIdIsNext(ops: seq<Op>, refused: string -> bool, i: nat)
    requires i < |ops| && (forall op | op in ops :: WellTyped(op)) && ReplyAt(ops, refused, i).Created?
    ensures ReplyAt(ops, refused, i).id == StateAt(ops, refused, i).nextId < StateAt(ops, refused, i + 1).nextId
  {
    ReachableIsSound(ops, refused, i);
    PerformKeepsSound(StateAt(ops, refused, i), ops[i], refused);
  }

  /** An id is never issued twice. */
  lemma IdsAreNeverReissued(ops: seq<Op>, refused: string -> bool, i: nat, j: nat)
    requires i < j < |ops| && forall op | op in ops :: WellTyped(op)
    requires ReplyAt(ops, refused, i).Created? && ReplyAt(ops, refused, j).Created?
    ensures ReplyAt(ops, refused, i).id < ReplyAt(ops, refused, j).id
  {
    CreatedIdIsNext(ops, refused, i);
    CreatedIdIsNext(ops, refused, j);
    HistoryGrows(ops, refused, i + 1, j);
  }

  /**
   Optimistic concurrency: of all non-empty appends in a run that expect one sequence on one
   aggregate, at most one succeeds.
   */
  lemma AtMostOneAppendWins(ops: seq<Op>, refused: string -> bool, i: nat, j: nat)
    requires i < j < |ops| && forall op | op in ops :: WellTyped(op)
    requires ops[i].Append? && ops[j].Append? && ops[i].id == ops[j].id && ops[i].expected == ops[j].expected
    requires ops[i].events != [] && ops[j].events != []
    ensures !(ReplyAt(ops, refused, i).Appended? && ReplyAt(ops, refused, j).Appended?)
  {
    var id := ops[i].id;
    ReachableIsSound(ops, refused, i);
    ReachableIsSound(ops, refused, j);
    HistoryGrows(ops, refused, i + 1, j);
    if ReplyAt(ops, refused, i).Appended? {
      var s, t := StateAt(ops, refused, i + 1), StateAt(ops, refused, j);
      assert Validates(id, t.streams[id]);
      assert |t.streams[id]| >= |s.streams[id]| > ops[i].expected;
    }
  }

  /**
   A create succeeds exactly when there are events, an id and sequences are left and no event is
   refused; it stores all of them in order. Any create that gets as far as an id uses it up.
   */
  lemma CreateIsExact(s: State, events: seq<string>, refused: string -> bool)
    requires Sound(s)
    ensures var (t, reply) := Perform(s, Create(events), refused);
            && (reply.Created? <==>
                  events != [] && s.nextId < U64_MAX && |events| <= U64_MAX && forall e | e in events :: !refused(e))
            && t.nextId == (if events != [] && s.nextId < U64_MAX then s.nextId + 1 else s.nextId)
            && (reply.Created? ==>
                  && t.streams == s.streams[s.nextId := reply.envelopes] && |reply.envelopes| == |events|
                  && forall i | 0 <= i < |events| :: reply.envelopes[i].payload == events[i])
  {
    BuildFailsIff(0, events, refused);
  }

  /** A non-empty append to an existing stream conflicts exactly when another length is expected, and says so. */
  lemma StaleAppendConflicts(s: State, id: nat, expected: nat, events: seq<string>, refused: string -> bool)
    requires Sound(s) && 1 <= expected <= 0xFFFF_FFFF_FFFF_FFFF && events != [] && id in s.streams
    ensures var (t, reply) := Perform(s, Append(id, expected, events), refused);
            var conflict := Failed(ConcurrencyConflict(id, expected, |s.streams[id]|));
            && (reply == conflict <==> |s.streams[id]| != expected)
            && (reply.Failed? && reply.error.ConcurrencyConflict? ==> reply == conflict && t == s)
  {
    assert Validates(id, s.streams[id]);
    BuildFailsIff(expected, events, refused);
  }

  /** What an operation wrote to an aggregate, going by its reply. */
  ghost function WrittenBy(op: Op, reply: Reply, id: nat): seq<string> {
    if op.Create? && reply.Created? && reply.id == id then op.events
    else if op.Append? && reply.Appended? && op.id == id then op.events
    else []
  }

  /** What the operations before operation `n` of a run wrote to an aggregate, in order. */
  ghost function Written(ops: seq<Op>, refused: string -> bool, n: nat, id: nat): seq<string>
    requires n <= |ops|
  {
    if n == 0 then []
    else Written(ops, refused, n - 1, id) + WrittenBy(ops[n - 1], ReplyAt(ops, refused, n - 1), id)
  }

  /** The stream carries these events, and there is none when there are no events. */
  ghost predicate Stores(s: State, id: nat, events: seq<string>) {
    (id in s.streams <==> events != []) && (id in s.streams ==> Carries(s.streams[id], id, 0, events))
  }

  /**
   Read your writes: at any point of any run a load succeeds and returns exactly what the successful
   creates and appends before it wrote to the aggregate, in order.
   */
  lemma {:induction false} ReadYourWrites(ops: seq<Op>, refused: string -> bool, n: nat, id: nat)
    requires n <= |ops| && forall op | op in ops :: WellTyped(op)
    ensures Stores(StateAt(ops, refused, n), id, Written(ops, refused, n, id))
    ensures n < |ops| && ops[n] == Load(id) ==>
              var reply := ReplyAt(ops, refused, n);
              reply.Loaded? && Carries(reply.stream, id, 0, Written(ops, refused, n, id))
  {
    hide Perform, Sound, Stores, Carries, WrittenBy;
    if n > 0 {
      ReadYourWrites(ops, refused, n - 1, id);
      ReachableIsSound(ops, refused, n - 1);
      WriteIsStored(StateAt(ops, refused, n - 1), ops[n - 1], refused, id, Written(ops, refused, n - 1, id));
    } else {
      NothingIsStored(id);
    }
    ReachableIsSound(ops, refused, n);
    LoadReadsTheStore(StateAt(ops, refused, n), id, Written(ops, refused, n, id), refused);
  }

  lemma NothingIsStored(id: nat)
    ensures Stores(EMPTY, id, [])
  {}

  lemma LoadReadsTheStore(s: State, id: nat, written: seq<string>, refused: string -> bool)
    requires Sound(s) && Stores(s, id, written)
    ensures var reply := Perform(s, Load(id), refused).1; reply.Loaded? && Carries(reply.stream, id, 0, written)
  {
    assert Validates(id, Stream(s, id));
  }

  lemma WriteIsStored(s: State, op: Op, refused: string -> bool, id: nat, before: seq<string>)
    requires Sound(s) && WellTyped(op) && Stores(s, id, before)
    ensures var (t, reply) := Perform(s, op, refused); Stores(t, id, before + WrittenBy(op, reply, id))
  {
    assert before + [] == before;
    match op
    case Load(_) =>
    case Create(events) => CreateIsStored(s, events, refused, id, before);
    case Append(key, expected, events) => AppendIsStored(s, key, expected, events, refused, id, before);
  }

  lemma CreateIsStored(s: State, events: seq<string>, refused: string -> bool, id: nat, before: seq<string>)
    requires Sound(s) && Stores(s, id, before)
    ensures var (t, reply) := Perform(s, Create(events), refused);
            Stores(t, id, before + WrittenBy(Create(events), reply, id))
  {
    CreateIsExact(s, events, refused);
    CreateKeepsSound(s, events, refused);
    var (t, reply) := Perform(s, Create(events), refused);
    hide Perform;
    assert before + [] == before && [] + events == events;
    if reply.Created? && reply.id == id {
      assert before == [] && Validates(id, t.streams[id]);
      forall i | 0 <= i < |events| ensures t.streams[id][i] == Envelope(id, i + 1, events[i]) {
        assert reply.envelopes[i].payload == events[i];
      }
    }
  }

  lemma AppendIsStored(
      s: State, key: nat, expected: nat, events: seq<string>, refused: string -> bool, id: nat, before: seq<string>)
    requires Sound(s) && 1 <= expected <= U64_MAX && Stores(s, id, before)
    ensures var (t, reply) := Perform(s, Append(key, expected, events), refused);
            Stores(t, id, before + WrittenBy(Append(key, expected, events), reply, id))
  {
    AppendKeepsSound(s, key, expected, events, refused);
    if events != [] { AppendIsExact(s, key, expected, events, refused); }
    var (t, reply) := Perform(s, Append(key, expected, events), refused);
    hide Perform;
    assert before + [] == before;
    if reply.Appended? && key == id && events != [] {
      var stream := t.streams[id];
      assert Validates(id, stream) && s.streams[id] <= stream;
      forall i | 0 <= i < |before + events| ensures stream[i] == Envelope(id, i + 1, (before + events)[i]) {
        if i < expected {
          assert stream[i] == s.streams[id][i];
        } else {
          assert stream[expected + (i - expected)].payload == events[i - expected];
        }
      }
    }
  }

  /**
   An append succeeds exactly when the stream exists, the expectation is current, no event is refused
   and the sequences stay in range; it then adds the whole batch and nothing else.
   */
  lemma AppendIsExact(s: State, id: nat, expected: nat, events: seq<string>, refused: string -> bool)
    requires Sound(s) && 1 <= expected <= U64_MAX && events != []
    ensures var (t, reply) := Perform(s, Append(id, expected, events), refused);
            && (reply.Appended? <==>
                  && id in s.streams && |s.streams[id]| == expected
                  && (forall e | e in events :: !refused(e)) && expected + |events| <= U64_MAX)
            && (reply.Appended? ==>
                  && t.nextId == s.nextId && t.streams.Keys == s.streams.Keys
                  && (forall other | other in s.streams && other != id :: t.streams[other] == s.streams[other])
                  && |t.streams[id]| == expected + |events|
                  && (forall i | 0 <= i < |events| :: t.streams[id][expected + i].payload == events[i]))
  {
    BuildFailsIff(expected, events, refused);
    if id in s.streams { assert Validates(id, s.streams[id]); }
  }
}
