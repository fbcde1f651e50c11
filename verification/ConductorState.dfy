/** The conductor's view of the rollup: the mapping between rollup block numbers and sequencer
    heights, and the state that must never leave the domain of that mapping. */
module ConductorState {
  import opened Outcomes
  import opened Words
  import opened BlockCaches

  datatype MapError = OverflowsU64 | StartExceedsNumberPlusOne | Negative

  function CheckedAdd(x: Usize, y: Usize): Option<Usize> {
    if x + y < WORD then Some(x + y) else None
  }

  function CheckedSub(x: Usize, y: Usize): Option<Usize> {
    if y <= x then Some(x - y) else None
  }

  // ----- the two mappings

  function MapRollupNumberToSequencerHeight(sequencerStart: Usize, rollupStart: Usize, rollupNumber: Usize)
    : Result<Height, MapError>
  {
    match CheckedAdd(rollupNumber, 1)
    case None => Err(OverflowsU64)
    case Some(next) =>
      if rollupStart > next then Err(StartExceedsNumberPlusOne)
      else
        match CheckedAdd(sequencerStart, rollupNumber)
        case None => Err(OverflowsU64)
        case Some(sum) =>
          match CheckedSub(sum, rollupStart)
          case None => Err(Negative)
          case Some(height) => if height <= MAX_HEIGHT then Ok(height) else Err(OverflowsU64)
  }

  function TryMapSequencerHeightToRollupHeight(sequencerStart: Usize, rollupStart: Usize, height: Height)
    : Option<Usize>
  {
    match CheckedSub(height, sequencerStart)
    case None => None
    case Some(offset) => CheckedAdd(offset, rollupStart)
  }

  /** The number maps to `sequencerStart + (rollupNumber - rollupStart)`, exactly when that is a
      height, the number is at most one below the start and no intermediate sum overflows. */
  lemma MappingMeaning(s: Usize, r0: Usize, r: Usize, h: Height)
    ensures MapRollupNumberToSequencerHeight(s, r0, r) == Ok(h)
       <==> h == s + (r - r0) && r0 <= r + 1 && r < MAX && s + r <= MAX
  {
  }

  /** Which error a number that cannot be mapped gives. */
  lemma MappingErrors(s: Usize, r0: Usize, r: Usize)
    ensures MapRollupNumberToSequencerHeight(s, r0, r) == Err(StartExceedsNumberPlusOne) <==> r < MAX && r + 1 < r0
    ensures MapRollupNumberToSequencerHeight(s, r0, r) == Err(Negative)
       <==> r < MAX && r0 == r + 1 && s == 0
    ensures MapRollupNumberToSequencerHeight(s, r0, r) == Err(OverflowsU64)
       <==> r == MAX || (r0 <= r + 1 && (s + r > MAX || s + (r - r0) > MAX_HEIGHT))
  {
  }

  /** The number that a height maps to, and exactly when. */
  lemma MappingBackMeaning(s: Usize, r0: Usize, h: Height, r: Usize)
    ensures TryMapSequencerHeightToRollupHeight(s, r0, h) == Some(r) <==> s <= h && r == r0 + (h - s)
    ensures TryMapSequencerHeightToRollupHeight(s, r0, h) == None <==> h < s || r0 + (h - s) > MAX
  {
  }

  /** What the documentation promises to suffice: the sum is in range of `u64` and the start is
      at most one above the number. */
  predicate IsDocumentedInRange(s: Usize, r0: Usize, r: Usize) {
    0 <= s + (r - r0) <= MAX && r0 <= r + 1
  }

  /** The code reports an overflow because it adds before it subtracts. */
  lemma IntermediateSumOverflows()
    ensures var s, r0, r := 5, MAX - 1, MAX - 1;
            && IsDocumentedInRange(s, r0, r)
            && MapRollupNumberToSequencerHeight(s, r0, r) == Err(OverflowsU64)
  {
    assert CheckedAdd(5, MAX - 1) == None;
  }

  /** The code reports an overflow because a height is smaller than a word. */
  lemma HeightOverflows()
    ensures var s, r0, r := MAX_HEIGHT + 1, 0, 0;
            && IsDocumentedInRange(s, r0, r) && r != MAX && s + r <= MAX
            && MapRollupNumberToSequencerHeight(s, r0, r) == Err(OverflowsU64)
  {
  }

  /** The code errs although the documentation promises success exactly when an intermediate sum
      overflows or the result exceeds the largest height. */
  lemma DocumentedConditionGap(s: Usize, r0: Usize, r: Usize)
    requires IsDocumentedInRange(s, r0, r)
    ensures MapRollupNumberToSequencerHeight(s, r0, r).Err?
       <==> r == MAX || s + r > MAX || s + (r - r0) > MAX_HEIGHT
  {
  }

  /** Mapping a height back recovers the number exactly when the number is not below the start;
      the height after it always maps to the number after it, also at that boundary. */
  lemma MappingBack(s: Usize, r0: Usize, r: Usize, h: Height)
    requires MapRollupNumberToSequencerHeight(s, r0, r) == Ok(h)
    ensures TryMapSequencerHeightToRollupHeight(s, r0, h) == Some(r) <==> r0 <= r
    ensures h < MAX_HEIGHT ==> TryMapSequencerHeightToRollupHeight(s, r0, h + 1) == Some(r + 1)
  {
  }

  /** Mapping a height to a number and forth again recovers the height, unless the number is
      the last of its type or the forward sum overflows. */
  lemma MappingForth(s: Usize, r0: Usize, r: Usize, h: Height)
    requires TryMapSequencerHeightToRollupHeight(s, r0, h) == Some(r)
    ensures MapRollupNumberToSequencerHeight(s, r0, r) == Ok(h) <==> r < MAX && s + r <= MAX
  {
  }

  lemma MappingIsMonotone(s: Usize, r0: Usize, r: Usize, h: Height, r': Usize, h': Height)
    requires MapRollupNumberToSequencerHeight(s, r0, r) == Ok(h)
    requires MapRollupNumberToSequencerHeight(s, r0, r') == Ok(h')
    ensures r < r' <==> h < h'
  {
  }

  // ----- the tracked state

  datatype CommitLevel = FirmOnly | SoftOnly | SoftAndFirm {
    predicate IsWithFirm() { FirmOnly? || SoftAndFirm? }
    predicate IsWithSoft() { SoftOnly? || SoftAndFirm? }
  }

  type NonZeroU64 = x: Usize | x > 0 witness 1

  datatype SessionParameters = SessionParameters(
    sequencerStart: Usize,
    rollupStart: Usize,
    rollupEnd: Option<NonZeroU64>)

  datatype Commitment = Commitment(firm: Usize, soft: Usize)

  datatype Session = Session(id: string, parameters: SessionParameters, commitment: Commitment)

  datatype State = State(sessionId: string, parameters: SessionParameters, commitment: Commitment)

  datatype Purpose = FirmCommitment | SoftCommitment | RollupEndBlockNumber

  datatype InvalidState = InvalidState(purpose: Purpose, issue: MapError, parameters: SessionParameters, number: Usize)

  function MapNumber(purpose: Purpose, p: SessionParameters, number: Usize): Result<Height, InvalidState> {
    match MapRollupNumberToSequencerHeight(p.sequencerStart, p.rollupStart, number)
    case Ok(height) => Ok(height)
    case Err(issue) => Err(InvalidState(purpose, issue, p, number))
  }

  function MapFirm(p: SessionParameters, c: Commitment): Result<Height, InvalidState> {
    MapNumber(FirmCommitment, p, c.firm)
  }

  function MapSoft(p: SessionParameters, c: Commitment): Result<Height, InvalidState> {
    MapNumber(SoftCommitment, p, c.soft)
  }

  /** The first enabled commitment that cannot be mapped. */
  function CommitmentIssue(p: SessionParameters, c: Commitment, level: CommitLevel): Option<InvalidState> {
    if level.IsWithFirm() && MapFirm(p, c).Err? then Some(MapFirm(p, c).error)
    else if level.IsWithSoft() && MapSoft(p, c).Err? then Some(MapSoft(p, c).error)
    else None
  }

  function TryFromExecutionSession(session: Session, level: CommitLevel): Result<State, InvalidState> {
    var p, c := session.parameters, session.commitment;
    match CommitmentIssue(p, c, level)
    case Some(issue) => Err(issue)
    case None =>
      if p.rollupEnd.Some? && MapNumber(RollupEndBlockNumber, p, p.rollupEnd.value).Err? then
        Err(MapNumber(RollupEndBlockNumber, p, p.rollupEnd.value).error)
      else
        Ok(State(session.id, p, c))
  }

  /** `Height::increment`, which panics at the largest height. */
  function Increment(h: Height): Outcome<Height> {
    if h < MAX_HEIGHT then Return(h + 1) else Panic
  }

  /** What an accessor that expects the mapping to succeed gives. */
  function Expected(r: Result<Height, InvalidState>): Outcome<Height> {
    match r
    case Ok(h) => Return(h)
    case Err(_) => Panic
  }

  function NextExpected(r: Result<Height, InvalidState>): Outcome<Height> {
    match r
    case Ok(h) => Increment(h)
    case Err(_) => Panic
  }

  function NextExpectedFirm(state: State): Outcome<Height> {
    NextExpected(MapFirm(state.parameters, state.commitment))
  }

  function NextExpectedSoft(state: State): Outcome<Height> {
    NextExpected(MapSoft(state.parameters, state.commitment))
  }

  /** `None` where there is no end block and where the end block maps to height zero. */
  function SequencerStopHeight(state: State): Outcome<Option<Height>> {
    var p := state.parameters;
    if p.rollupEnd.None? then Return(None)
    else
      match Expected(MapNumber(RollupEndBlockNumber, p, p.rollupEnd.value))
      case Panic => Panic
      case Return(h) => Return(if h == 0 then None else Some(h))
  }

  // ----- what these functions mean, in the numbers

  function HeightOf(p: SessionParameters, number: Usize): Result<Height, MapError> {
    MapRollupNumberToSequencerHeight(p.sequencerStart, p.rollupStart, number)
  }

  /** What a commit level demands of a commitment. */
  predicate IsAcceptable(p: SessionParameters, c: Commitment, level: CommitLevel) {
    && (level != SoftOnly ==> HeightOf(p, c.firm).Ok?)
    && (level != FirmOnly ==> HeightOf(p, c.soft).Ok?)
  }

  /** The issue that rejects a commitment: the firm number's, where the level has one, before the
      soft number's. */
  predicate Rejects(p: SessionParameters, c: Commitment, level: CommitLevel, e: InvalidState) {
    if level != SoftOnly && HeightOf(p, c.firm).Err?
    then e == InvalidState(FirmCommitment, HeightOf(p, c.firm).error, p, c.firm)
    else level != FirmOnly && HeightOf(p, c.soft).Err?
         && e == InvalidState(SoftCommitment, HeightOf(p, c.soft).error, p, c.soft)
  }

  lemma CommitmentIssueExactly(p: SessionParameters, c: Commitment, level: CommitLevel)
    ensures CommitmentIssue(p, c, level).None? <==> IsAcceptable(p, c, level)
    ensures forall e :: CommitmentIssue(p, c, level) == Some(e) <==> Rejects(p, c, level, e)
  {
  }

  predicate IsEndMappable(p: SessionParameters) {
    p.rollupEnd.Some? ==> HeightOf(p, p.rollupEnd.value).Ok?
  }

  /** A session is accepted exactly when everything that will be mapped can be mapped; the
      commitments are looked at before the end block. */
  lemma SessionAcceptedExactly(session: Session, level: CommitLevel)
    ensures var p, c, r := session.parameters, session.commitment, TryFromExecutionSession(session, level);
            && (r.Ok? <==> IsAcceptable(p, c, level) && IsEndMappable(p))
            && (r.Ok? ==> r.value == State(session.id, p, c))
            && (r.Err? && !IsAcceptable(p, c, level) ==> Rejects(p, c, level, r.error))
            && (r.Err? && IsAcceptable(p, c, level) ==>
                  r.error == InvalidState(
                    RollupEndBlockNumber, HeightOf(p, p.rollupEnd.value).error, p, p.rollupEnd.value))
  {
    CommitmentIssueExactly(session.parameters, session.commitment, level);
  }

  /** The next expected firm height follows the height of the firm number. */
  lemma NextExpectedFirmMeaning(state: State, h: Height)
    ensures NextExpectedFirm(state) == Return(h)
       <==> h >= 1 && HeightOf(state.parameters, state.commitment.firm) == Ok(h - 1)
    ensures NextExpectedFirm(state) == Panic
       <==> HeightOf(state.parameters, state.commitment.firm).Err?
            || HeightOf(state.parameters, state.commitment.firm) == Ok(MAX_HEIGHT)
  {
  }

  /** The next expected soft height follows the height of the soft number. */
  lemma NextExpectedSoftMeaning(state: State, h: Height)
    ensures NextExpectedSoft(state) == Return(h)
       <==> h >= 1 && HeightOf(state.parameters, state.commitment.soft) == Ok(h - 1)
    ensures NextExpectedSoft(state) == Panic
       <==> HeightOf(state.parameters, state.commitment.soft).Err?
            || HeightOf(state.parameters, state.commitment.soft) == Ok(MAX_HEIGHT)
  {
  }

  /** The stop height is the height of the end block; there is none without an end block or
      where it maps to height zero. */
  lemma SequencerStopHeightMeaning(state: State, h: Height)
    ensures var p := state.parameters;
            && (SequencerStopHeight(state) == Return(Some(h)) <==>
                  p.rollupEnd.Some? && h >= 1 && HeightOf(p, p.rollupEnd.value) == Ok(h))
            && (SequencerStopHeight(state) == Return(None) <==>
                  p.rollupEnd.None? || HeightOf(p, p.rollupEnd.value) == Ok(0))
            && (SequencerStopHeight(state) == Panic <==>
                  p.rollupEnd.Some? && HeightOf(p, p.rollupEnd.value).Err?)
  {
  }

  // ----- updates

  function Updated(state: State, commitment: Commitment, level: CommitLevel): State {
    if CommitmentIssue(state.parameters, commitment, level).None? then state.(commitment := commitment) else state
  }

  /** The watched state, replaced only through a check. */
  class StateSender {
    var state: State

    constructor (state: State)
      ensures this.state == state
    {
      this.state := state;
    }

    /** An acceptable commitment is taken over; any other is rejected and changes nothing. */
    method TryUpdateCommitmentState(commitment: Commitment, level: CommitLevel) returns (r: Result<(), InvalidState>)
      modifies this
      ensures r.Ok? <==> IsAcceptable(old(state).parameters, commitment, level)
      ensures r.Ok? ==> state == old(state).(commitment := commitment)
      ensures r.Err? ==> state == old(state) && Rejects(state.parameters, commitment, level, r.error)
      ensures state == Updated(old(state), commitment, level)
    {
      var parameters := state.parameters;
      if level.IsWithFirm() {
        var firm := MapFirm(parameters, commitment);
        if firm.Err? { return Err(firm.error); }
      }
      if level.IsWithSoft() {
        var soft := MapSoft(parameters, commitment);
        if soft.Err? { return Err(soft.error); }
      }
      state := state.(commitment := commitment);
      return Ok(());
    }
  }

  /** The state after a sequence of attempted updates. */
  function UpdatedAll(state: State, commitments: seq<Commitment>, level: CommitLevel): State
    decreases |commitments|
  {
    if commitments == [] then state
    else UpdatedAll(Updated(state, commitments[0], level), commitments[1..], level)
  }

  /** The position of the last acceptable commitment. */
  predicate IsLastAcceptable(p: SessionParameters, commitments: seq<Commitment>, level: CommitLevel, i: nat) {
    && i < |commitments|
    && IsAcceptable(p, commitments[i], level)
    && forall j :: i < j < |commitments| ==> !IsAcceptable(p, commitments[j], level)
  }

  lemma UpdateTakesAcceptable(state: State, commitment: Commitment, level: CommitLevel)
    ensures Updated(state, commitment, level) ==
            if IsAcceptable(state.parameters, commitment, level)
            then State(state.sessionId, state.parameters, commitment) else state
  {
    CommitmentIssueExactly(state.parameters, commitment, level);
  }

  /** Updates without an acceptable commitment change nothing. */
  lemma {:induction false} UnacceptableIsIgnored(state: State, commitments: seq<Commitment>, level: CommitLevel)
    requires forall j :: 0 <= j < |commitments| ==> !IsAcceptable(state.parameters, commitments[j], level)
    ensures UpdatedAll(state, commitments, level) == state
    decreases |commitments|
  {
    hide IsAcceptable, Updated;
    if commitments != [] {
      UpdateTakesAcceptable(state, commitments[0], level);
      UnacceptableIsIgnored(state, commitments[1..], level);
    }
  }

  /** After any updates the commitment is the last acceptable one; the session stays. */
  lemma {:induction false} LastAcceptableIsTaken(state: State, commitments: seq<Commitment>, level: CommitLevel, i: nat)
    requires IsLastAcceptable(state.parameters, commitments, level, i)
    ensures UpdatedAll(state, commitments, level) == State(state.sessionId, state.parameters, commitments[i])
    decreases |commitments|
  {
    hide IsAcceptable, Updated;
    var first, rest := commitments[0], commitments[1..];
    UpdateTakesAcceptable(state, first, level);
    if i > 0 {
      assert IsLastAcceptable(state.parameters, rest, level, i - 1);
      LastAcceptableIsTaken(Updated(state, first, level), rest, level, i - 1);
    } else {
      UnacceptableIsIgnored(Updated(state, first, level), rest, level);
    }
  }

  /** Every state reachable from an acceptable one is acceptable, and of the same session. */
  lemma {:induction false} UpdatesKeepAcceptable(state: State, commitments: seq<Commitment>, level: CommitLevel)
    requires IsAcceptable(state.parameters, state.commitment, level)
    ensures var last := UpdatedAll(state, commitments, level);
            && IsAcceptable(state.parameters, last.commitment, level)
            && last.parameters == state.parameters && last.sessionId == state.sessionId
    decreases |commitments|
  {
    hide IsAcceptable, Updated;
    if commitments != [] {
      UpdateTakesAcceptable(state, commitments[0], level);
      UpdatesKeepAcceptable(Updated(state, commitments[0], level), commitments[1..], level);
    }
  }

  /** In every state reachable under one commit level, the session parameters are those of the
      session, the numbers the level enables can be mapped, their next expected heights do not
      panic unless the height they would increment is the largest one, and neither does the
      stop height. */
  lemma AccessorsDoNotPanic(session: Session, level: CommitLevel, commitments: seq<Commitment>)
    requires TryFromExecutionSession(session, level).Ok?
    ensures var state := UpdatedAll(TryFromExecutionSession(session, level).value, commitments, level);
            var p, c := state.parameters, state.commitment;
            && p == session.parameters && state.sessionId == session.id
            && (level != SoftOnly ==>
                  HeightOf(p, c.firm).Ok? && (NextExpectedFirm(state) == Panic <==> HeightOf(p, c.firm) == Ok(MAX_HEIGHT)))
            && (level != FirmOnly ==>
                  HeightOf(p, c.soft).Ok? && (NextExpectedSoft(state) == Panic <==> HeightOf(p, c.soft) == Ok(MAX_HEIGHT)))
            && SequencerStopHeight(state) != Panic
  {
    var start := TryFromExecutionSession(session, level).value;
    SessionAcceptedExactly(session, level);
    UpdatesKeepAcceptable(start, commitments, level);
    var state := UpdatedAll(start, commitments, level);
    NextExpectedFirmMeaning(state, 0);
    NextExpectedSoftMeaning(state, 0);
    SequencerStopHeightMeaning(state, 0);
  }

  // ----- the cache that feeds the executor

  /** A cache created at the next expected soft height is never rejected, and without drops its
      k-th popped block maps back to the rollup number `soft + 1 + k`, exactly when that number
      fits a word. */
  lemma PoppedBlocksContinueSoft<T>(state: State, start: Height, ops: seq<Op<T>>, k: nat)
    requires NextExpectedSoft(state) == Return(start) && NoDrops(ops)
    requires k < |Run(start, ops).popped|
    ensures start != 0
    ensures TryMapSequencerHeightToRollupHeight(
              state.parameters.sequencerStart, state.parameters.rollupStart, Run(start, ops).popped[k].height)
         == if state.commitment.soft + 1 + k <= MAX then Some(state.commitment.soft + 1 + k) else None
  {
    NoGapsWithoutDrops(start, ops);
  }
}
