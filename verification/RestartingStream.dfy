/** A stream that opens a new inner stream whenever the running one ends, driven by polls. */
module RestartingStreams {
  import opened Outcomes

  datatype Poll<+T> = Pending | Ready(value: T)

  /** How an inner stream answers its polls: with items and pending answers, then with the end. */
  type Script<T, E> = seq<Poll<Result<T, E>>>

  /** A future that opens an inner stream: pending for some polls, then done. */
  datatype Opening<T, E> = Opening(pending: nat, output: Result<Script<T, E>, E>)

  /** The fields of the stream; `openings` counts the calls of the function that makes openings. */
  datatype Fields<T, E> = Fields(
    openings: nat,
    openingStream: Option<Opening<T, E>>,
    runningStream: Option<Script<T, E>>)

  // ----- one poll

  datatype Polled<T, E> = Polled(fields: Fields<T, E>, answer: Poll<Option<Result<T, E>>>)

  function Start<T, E>(f: nat -> Opening<T, E>): Fields<T, E> {
    Fields(1, Some(f(0)), None)
  }

  function StepRunning<T, E>(f: nat -> Opening<T, E>, openings: nat, s: Script<T, E>): Polled<T, E> {
    if s == [] then Polled(Fields(openings + 1, Some(f(openings)), None), Pending)
    else
      Polled(Fields(openings, None, Some(s[1..])), if s[0].Pending? then Pending else Ready(Some(s[0].value)))
  }

  function Step<T, E>(f: nat -> Opening<T, E>, v: Fields<T, E>): Polled<T, E> {
    match v.openingStream
    case Some(Opening(pending, output)) =>
      if pending > 0 then Polled(v.(openingStream := Some(Opening(pending - 1, output))), Pending)
      else
        (match output
         case Ok(s) => StepRunning(f, v.openings, s)
         case Err(e) => Polled(v.(openingStream := None), Ready(Some(Err(e)))))
    case None =>
      match v.runningStream
      case Some(s) => StepRunning(f, v.openings, s)
      case None => Polled(v, Ready(None))
  }

  // ----- the stream

  class RestartingStream<T, E> {
    const f: nat -> Opening<T, E>
    var openings: nat
    var openingStream: Option<Opening<T, E>>
    var runningStream: Option<Script<T, E>>

    function Value(): Fields<T, E>
      reads this
    {
      Fields(openings, openingStream, runningStream)
    }

    constructor (f: nat -> Opening<T, E>)
      ensures this.f == f && Value() == Start(f)
    {
      this.f := f;
      openings := 1;
      openingStream := Some(f(0));
      runningStream := None;
    }

    method PollOpening() returns (r: Poll<Result<Script<T, E>, E>>)
      requires openingStream.Some?
      modifies this`openingStream
      ensures openingStream.Some?
      ensures var o := old(openingStream).value;
              if o.pending > 0 then r == Pending && openingStream.value == o.(pending := o.pending - 1)
              else r == Ready(o.output)
    {
      var o := openingStream.value;
      if o.pending > 0 {
        openingStream := Some(o.(pending := o.pending - 1));
        return Pending;
      }
      return Ready(o.output);
    }

    method PollRunning() returns (r: Poll<Option<Result<T, E>>>)
      requires runningStream.Some?
      modifies this`runningStream
      ensures runningStream.Some?
      ensures var s := old(runningStream).value;
              if s == [] then r == Ready(None)
              else runningStream.value == s[1..] && r == if s[0].Pending? then Pending else Ready(Some(s[0].value))
    {
      var s := runningStream.value;
      if s == [] { return Ready(None); }
      runningStream := Some(s[1..]);
      match s[0]
      case Pending => return Pending;
      case Ready(item) => return Ready(Some(item));
    }

    /** Neither field is polled after it is done, and the two are never both set. */
    method PollNext() returns (r: Poll<Option<Result<T, E>>>)
      requires openingStream.None? || runningStream.None?
      modifies this
      ensures openingStream.None? || runningStream.None?
      ensures Polled(Value(), r) == Step(f, old(Value()))
    {
      if openingStream.Some? {
        var open := PollOpening();
        if open.Pending? { return Pending; }
        openingStream := None;
        match open.value {
          case Ok(stream) => runningStream := Some(stream);
          case Err(err) => return Ready(Some(Err(err)));
        }
      }
      if runningStream.Some? {
        var next := PollRunning();
        if next.Pending? { return Pending; }
        if next.value.Some? { return next; }
        runningStream := None;
        openingStream := Some(f(openings));
        openings := openings + 1;
        return Pending;
      }
      return Ready(None);
    }
  }

  // ----- runs

  datatype Ran<T, E> = Ran(fields: Fields<T, E>, answers: seq<Poll<Option<Result<T, E>>>>)

  /** The answers to the first `polls` polls. */
  function Run<T, E>(f: nat -> Opening<T, E>, polls: nat): Ran<T, E> {
    if polls == 0 then Ran(Start(f), [])
    else
      var r := Run(f, polls - 1);
      var p := Step(f, r.fields);
      Ran(p.fields, r.answers + [p.answer])
  }

  function Output<T, E>(answer: Poll<Option<Result<T, E>>>): seq<Result<T, E>> {
    if answer.Ready? && answer.value.Some? then [answer.value.value] else []
  }

  /** The items among the answers. */
  function Outputs<T, E>(answers: seq<Poll<Option<Result<T, E>>>>): seq<Result<T, E>> {
    if answers == [] then []
    else
      var last := answers[|answers| - 1];
      Outputs(answers[..|answers| - 1]) + Output(last)
  }

  function Items<T, E>(s: Script<T, E>): seq<Result<T, E>> {
    if s == [] then []
    else (if s[0].Pending? then [] else [s[0].value]) + Items(s[1..])
  }

  function OpeningItems<T, E>(o: Opening<T, E>): seq<Result<T, E>> {
    match o.output
    case Ok(s) => Items(s)
    case Err(e) => [Err(e)]
  }

  /** The concatenation of what the first `n` openings lead to. */
  function Concatenation<T, E>(f: nat -> Opening<T, E>, n: nat): seq<Result<T, E>> {
    if n == 0 then [] else Concatenation(f, n - 1) + OpeningItems(f(n - 1))
  }

  /** What the opening or running stream still holds back. */
  function Remaining<T, E>(v: Fields<T, E>): seq<Result<T, E>> {
    match v.openingStream
    case Some(o) => OpeningItems(o)
    case None =>
      match v.runningStream
      case Some(s) => Items(s)
      case None => []
  }

  predicate HasEnded<T, E>(v: Fields<T, E>) { v.openingStream.None? && v.runningStream.None? }

  /** No item is lost, invented, repeated or reordered. */
  ghost predicate Conserves<T, E>(f: nat -> Opening<T, E>, n: nat, rest: seq<Result<T, E>>, outputs: seq<Result<T, E>>)
    requires n >= 1
  {
    && outputs + rest == Concatenation(f, n)
    && Concatenation(f, n - 1) <= outputs
  }

  /** The opening is the current one and never set beside a running stream; all earlier openings
      succeeded, and the current one failed exactly if the stream has ended. */
  ghost predicate IsCurrent<T, E>(f: nat -> Opening<T, E>, v: Fields<T, E>) {
    && v.openings >= 1
    && (v.openingStream.None? || v.runningStream.None?)
    && (v.openingStream.Some? ==> v.openingStream.value.output == f(v.openings - 1).output)
    && (forall k :: 0 <= k < v.openings - 1 ==> f(k).output.Ok?)
    && (v.runningStream.Some? ==> f(v.openings - 1).output.Ok?)
    && (HasEnded(v) ==> f(v.openings - 1).output.Err?)
  }

  /** What every number of polls keeps. */
  ghost predicate RunInvariant<T, E>(f: nat -> Opening<T, E>, v: Fields<T, E>, outputs: seq<Result<T, E>>) {
    IsCurrent(f, v) && Conserves(f, v.openings, Remaining(v), outputs)
  }

  lemma {:induction false} RunKeepsInvariant<T, E>(f: nat -> Opening<T, E>, polls: nat)
    ensures RunInvariant(f, Run(f, polls).fields, Outputs(Run(f, polls).answers))
  {
    if polls == 0 {
      StartIsInvariant(f);
    } else {
      hide RunInvariant, Step;
      RunKeepsInvariant(f, polls - 1);
      var r := Run(f, polls - 1);
      var p := Step(f, r.fields);
      StepKeepsInvariant(f, r.fields, Outputs(r.answers));
      OutputsSnoc(r.answers, p.answer);
    }
  }

  lemma StartIsInvariant<T, E>(f: nat -> Opening<T, E>)
    ensures RunInvariant(f, Start(f), [])
  {
    assert Concatenation(f, 1) == Concatenation(f, 0) + OpeningItems(f(0)) == OpeningItems(f(0));
  }

  lemma OutputsSnoc<T, E>(answers: seq<Poll<Option<Result<T, E>>>>, last: Poll<Option<Result<T, E>>>)
    ensures Outputs(answers + [last]) == Outputs(answers) + Output(last)
  {
    assert (answers + [last])[..|answers|] == answers;
  }

  lemma StepKeepsInvariant<T, E>(f: nat -> Opening<T, E>, v: Fields<T, E>, outputs: seq<Result<T, E>>)
    requires RunInvariant(f, v, outputs)
    ensures RunInvariant(f, Step(f, v).fields, outputs + Output(Step(f, v).answer))
  {
    match v.openingStream
    case Some(Opening(pending, output)) =>
      if pending > 0 {
        assert outputs + [] == outputs;
      } else {
        match output
        case Ok(s) => RunningKeepsInvariant(f, v.openings, s, outputs);
        case Err(e) => assert outputs + [Err(e)] + [] == outputs + [Err(e)];
      }
    case None =>
      match v.runningStream
      case Some(s) => RunningKeepsInvariant(f, v.openings, s, outputs);
      case None => assert outputs + [] == outputs;
  }

  lemma ConcatenationSnoc<T, E>(f: nat -> Opening<T, E>, n: nat)
    ensures Concatenation(f, n + 1) == Concatenation(f, n) + OpeningItems(f(n))
  {
    hide OpeningItems;
  }

  lemma ItemsUnfold<T, E>(s: Script<T, E>)
    ensures s == [] ==> Items(s) == []
    ensures s != [] ==> Items(s) == (if s[0].Pending? then [] else [s[0].value]) + Items(s[1..])
  {
  }

  lemma RunningKeepsInvariant<T, E>(f: nat -> Opening<T, E>, n: nat, s: Script<T, E>, outputs: seq<Result<T, E>>)
    requires n >= 1 && Conserves(f, n, Items(s), outputs) && forall k :: 0 <= k < n ==> f(k).output.Ok?
    ensures RunInvariant(f, StepRunning(f, n, s).fields, outputs + Output(StepRunning(f, n, s).answer))
  {
    hide Items, Concatenation, OpeningItems;
    ItemsUnfold(s);
    if s == [] {
      assert outputs + [] == outputs;
      ConcatenationSnoc(f, n);
    } else {
      var first := if s[0].Pending? then [] else [s[0].value];
      assert (outputs + first) + Items(s[1..]) == outputs + (first + Items(s[1..]));
    }
  }

  // ----- what a consumer sees

  /** The outputs are a prefix of the concatenated streams, and everything from the streams
      before the last one opened has been put out. */
  lemma OutputsArePrefix<T, E>(f: nat -> Opening<T, E>, polls: nat)
    ensures var r := Run(f, polls);
            && r.fields.openings >= 1
            && Concatenation(f, r.fields.openings - 1) <= Outputs(r.answers) <= Concatenation(f, r.fields.openings)
  {
    hide Run, Concatenation, Remaining, Outputs;
    RunKeepsInvariant(f, polls);
  }

  /** A poll answers with the end exactly when the last opening failed and its error has been
      put out, once and as the last output; all openings before it succeeded. */
  lemma EndsAfterFailure<T, E>(f: nat -> Opening<T, E>, polls: nat)
    ensures var v, outputs := Run(f, polls).fields, Outputs(Run(f, polls).answers);
            && v.openings >= 1
            && (Step(f, v).answer == Ready(None) <==>
                  var last := f(v.openings - 1).output;
                  last.Err? && outputs == Concatenation(f, v.openings - 1) + [Err(last.error)])
            && forall k :: 0 <= k < v.openings - 1 ==> f(k).output.Ok?
  {
    hide Run, Outputs;
    RunKeepsInvariant(f, polls);
    EndMeaning(f, Run(f, polls).fields, Outputs(Run(f, polls).answers));
  }

  lemma EndMeaning<T, E>(f: nat -> Opening<T, E>, v: Fields<T, E>, outputs: seq<Result<T, E>>)
    requires RunInvariant(f, v, outputs)
    ensures Step(f, v).answer == Ready(None) <==>
              var last := f(v.openings - 1).output;
              last.Err? && outputs == Concatenation(f, v.openings - 1) + [Err(last.error)]
  {
    var all, n := Concatenation(f, v.openings), v.openings;
    assert all == Concatenation(f, n - 1) + OpeningItems(f(n - 1));
    hide Concatenation;
    assert |outputs| + |Remaining(v)| == |all|;
    if v.openingStream.None? && v.runningStream.None? {
      assert outputs == outputs + [] == all;
    }
  }

  /** Once a poll answers with the end, so does every later one, and nothing more is put out. */
  lemma {:induction false} EndIsFinal<T, E>(f: nat -> Opening<T, E>, polls: nat, more: nat)
    requires Step(f, Run(f, polls).fields).answer == Ready(None)
    ensures Step(f, Run(f, polls + more).fields).answer == Ready(None)
    ensures Outputs(Run(f, polls + more).answers) == Outputs(Run(f, polls).answers)
  {
    hide Run, Outputs;
    if more > 0 {
      EndIsFinal(f, polls, more - 1);
      var r := Run(f, polls + more - 1);
      RunUnfolds(f, polls + more);
      OutputsSnoc(r.answers, Step(f, r.fields).answer);
      EndIsStable(f, r.fields);
    }
  }

  lemma RunUnfolds<T, E>(f: nat -> Opening<T, E>, polls: nat)
    requires polls > 0
    ensures var r := Run(f, polls - 1);
            var p := Step(f, r.fields);
            Run(f, polls) == Ran(p.fields, r.answers + [p.answer])
  {
  }

  lemma EndIsStable<T, E>(f: nat -> Opening<T, E>, v: Fields<T, E>)
    requires Step(f, v).answer == Ready(None)
    ensures Step(f, v).fields == v
  {
  }

  // ----- how many polls it takes

  /** The fields after `polls` polls from `v`. */
  function PolledFrom<T, E>(f: nat -> Opening<T, E>, v: Fields<T, E>, polls: nat): Fields<T, E>
    decreases polls
  {
    if polls == 0 then v else PolledFrom(f, Step(f, v).fields, polls - 1)
  }

  lemma {:induction false} PollingAdds<T, E>(f: nat -> Opening<T, E>, v: Fields<T, E>, m: nat, n: nat)
    ensures PolledFrom(f, v, m + n) == PolledFrom(f, PolledFrom(f, v, m), n)
    decreases m
  {
    if m > 0 { PollingAdds(f, Step(f, v).fields, m - 1, n); }
  }

  lemma {:induction false} RunIsPolledFrom<T, E>(f: nat -> Opening<T, E>, polls: nat)
    ensures Run(f, polls).fields == PolledFrom(f, Start(f), polls)
  {
    if polls > 0 {
      RunIsPolledFrom(f, polls - 1);
      PollingAdds(f, Start(f), polls - 1, 1);
      assert PolledFrom(f, PolledFrom(f, Start(f), polls - 1), 1) == Step(f, PolledFrom(f, Start(f), polls - 1)).fields;
    }
  }

  lemma {:induction false} RunningTakes<T, E>(f: nat -> Opening<T, E>, openings: nat, s: Script<T, E>)
    ensures PolledFrom(f, Fields(openings, None, Some(s)), |s| + 1) == Fields(openings + 1, Some(f(openings)), None)
  {
    if s == [] {
      assert PolledFrom(f, Step(f, Fields(openings, None, Some(s))).fields, 0) == Fields(openings + 1, Some(f(openings)), None);
    } else {
      RunningTakes(f, openings, s[1..]);
    }
  }

  /** The poll that completes an opening also polls the new stream. */
  lemma {:induction false} OpeningTakes<T, E>(f: nat -> Opening<T, E>, openings: nat, pending: nat, s: Script<T, E>)
    ensures PolledFrom(f, Fields(openings, Some(Opening(pending, Ok(s))), None), pending + |s| + 1)
         == Fields(openings + 1, Some(f(openings)), None)
  {
    if pending > 0 {
      OpeningTakes(f, openings, pending - 1, s);
    } else {
      RunningTakes(f, openings, s);
      assert Step(f, Fields(openings, Some(Opening(0, Ok(s))), None)) == Step(f, Fields(openings, None, Some(s)));
    }
  }

  /** The polls that the first `n` streams take, pending answers included. */
  function PollsFor<T, E>(f: nat -> Opening<T, E>, n: nat): nat
    requires forall k :: 0 <= k < n ==> f(k).output.Ok?
  {
    if n == 0 then 0
    else PollsFor(f, n - 1) + f(n - 1).pending + |f(n - 1).output.value| + 1
  }

  /** No item is held back: as long as openings succeed, after exactly as many polls as the
      first `n` streams take, all their items have been put out and the next opening starts. */
  lemma {:induction false} StreamsRunInFull<T, E>(f: nat -> Opening<T, E>, n: nat)
    requires forall k :: 0 <= k < n ==> f(k).output.Ok?
    ensures var r := Run(f, PollsFor(f, n));
            && r.fields == Fields(n + 1, Some(f(n)), None)
            && Outputs(r.answers) == Concatenation(f, n)
  {
    hide Run, PolledFrom, Outputs, Step, Concatenation;
    var polls := PollsFor(f, n);
    RunIsPolledFrom(f, polls);
    if n == 0 {
      NoPolls(f);
    } else {
      var before, o := PollsFor(f, n - 1), f(n - 1);
      StreamsRunInFull(f, n - 1);
      RunIsPolledFrom(f, before);
      PollingAdds(f, Start(f), before, o.pending + |o.output.value| + 1);
      OpeningTakes(f, n, o.pending, o.output.value);
      assert o == Opening(o.pending, Ok(o.output.value));
    }
    RunKeepsInvariant(f, polls);
    FreshOpeningHasAll(f, n, Outputs(Run(f, polls).answers));
  }

  lemma {:induction false} FailedOpeningTakes<T, E>(f: nat -> Opening<T, E>, openings: nat, pending: nat, e: E)
    ensures PolledFrom(f, Fields(openings, Some(Opening(pending, Err(e))), None), pending + 1)
         == Fields(openings, None, None)
  {
    if pending > 0 {
      FailedOpeningTakes(f, openings, pending - 1, e);
    } else {
      assert PolledFrom(f, Fields(openings, None, None), 0) == Fields(openings, None, None);
    }
  }

  /** A failure is not held back either: after exactly the polls that the streams before it and
      the failing opening take, its error has been put out last, and the next answer is the
      end. */
  lemma FailureIsReported<T, E>(f: nat -> Opening<T, E>, n: nat)
    requires forall k :: 0 <= k < n ==> f(k).output.Ok?
    requires f(n).output.Err?
    ensures var r := Run(f, PollsFor(f, n) + f(n).pending + 1);
            && Outputs(r.answers) == Concatenation(f, n) + [Err(f(n).output.error)]
            && Step(f, r.fields).answer == Ready(None)
  {
    hide Run, PolledFrom, Outputs, Concatenation, PollsFor;
    var before, e := PollsFor(f, n), f(n).output.error;
    var polls := before + f(n).pending + 1;
    StreamsRunInFull(f, n);
    RunIsPolledFrom(f, before);
    RunIsPolledFrom(f, polls);
    PollingAdds(f, Start(f), before, f(n).pending + 1);
    assert f(n) == Opening(f(n).pending, Err(e));
    FailedOpeningTakes(f, n + 1, f(n).pending, e);
    EndsAfterFailure(f, polls);
  }

  lemma NoPolls<T, E>(f: nat -> Opening<T, E>)
    ensures Run(f, 0).fields == Fields(1, Some(f(0)), None)
  {
  }

  lemma FreshOpeningHasAll<T, E>(f: nat -> Opening<T, E>, n: nat, outputs: seq<Result<T, E>>)
    requires Conserves(f, n + 1, OpeningItems(f(n)), outputs)
    ensures outputs == Concatenation(f, n)
  {
    hide OpeningItems, Concatenation;
    ConcatenationSnoc(f, n);
    assert |outputs| == |Concatenation(f, n)|;
  }
}
