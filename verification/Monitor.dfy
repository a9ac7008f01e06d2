/** daemon/monitor/mod.go: the goroutine that decodes samples, the one that delivers them, and Stop, as
    one state machine whose steps are the operations on the shared channels. */
module Monitor {
  import opened Prelude

  /** A decoded sample; the network figures are replaced before it is delivered. */
  datatype Data = Data(body: int, networks: int)

  datatype Producer = Decoding | Sending(data: Data) | Failing | Gone

  datatype Consumer = Selecting | Gathering(data: Data) | Delivering(data: Data) | Finished

  datatype Stopper = NotCalled | Waiting | Returned

  /** `chanData` and `chanErr` hold at most one value each. `decoded` and `delivered` record what happened. */
  datatype State = State(producer: Producer, chanData: seq<Data>, chanErr: nat, consumer: Consumer,
                         wg: nat, stop: Stopper, decoded: seq<int>, delivered: seq<Data>)

  datatype Step =
    | Decode(data: Data)             // the stream has one more sample
    | DecodeFails                    // the stream ends or breaks
    | SendData                       // chanData <- data
    | SendError                      // chanErr <- err
    | PickClosing | PickError | PickData   // the branches of the select
    | Gather(result: Option<int>)    // the network command succeeds or not
    | Deliver                        // m.c <- data meets a reader
    | CallStop                       // close(m.closing)
    | StopReturns                    // m.wg.Wait() passes

  /** After Start. */
  const INIT := State(Decoding, [], 0, Selecting, 1, NotCalled, [], [])

  /** The effect of a step; None when it is blocked or not the turn of its goroutine. */
  function Next(s: State, step: Step): Option<State> {
    match step
    case Decode(d) =>
      if s.producer.Decoding? then Some(s.(producer := Sending(d), decoded := s.decoded + [d.body])) else None
    case DecodeFails =>
      if s.producer.Decoding? then Some(s.(producer := Failing)) else None
    case SendData =>
      if s.producer.Sending? && |s.chanData| < 1
      then Some(s.(producer := Decoding, chanData := s.chanData + [s.producer.data])) else None
    case SendError =>
      if s.producer.Failing? && s.chanErr < 1 then Some(s.(producer := Gone, chanErr := s.chanErr + 1)) else None
    case PickClosing =>
      if s.consumer.Selecting? && !s.stop.NotCalled? && s.wg > 0
      then Some(s.(consumer := Finished, wg := s.wg - 1)) else None
    case PickError =>
      if s.consumer.Selecting? && s.chanErr > 0 && s.wg > 0
      then Some(s.(consumer := Finished, wg := s.wg - 1, chanErr := s.chanErr - 1)) else None
    case PickData =>
      if s.consumer.Selecting? && s.chanData != []
      then Some(s.(consumer := Gathering(s.chanData[0]), chanData := s.chanData[1..])) else None
    case Gather(result) =>
      if s.consumer.Gathering?
      then Some(s.(consumer := Delivering(match result
                                          case Some(n) => s.consumer.data.(networks := n)
                                          case None => s.consumer.data))) else None
    case Deliver =>
      if s.consumer.Delivering?
      then Some(s.(consumer := Selecting, delivered := s.delivered + [s.consumer.data])) else None
    case CallStop =>
      if s.stop.NotCalled? then Some(s.(stop := Waiting)) else None
    case StopReturns =>
      if s.stop.Waiting? && s.wg == 0 then Some(s.(stop := Returned)) else None
  }

  function Run(s: State, steps: seq<Step>): Option<State>
    decreases |steps|
  {
    if steps == [] then Some(s)
    else
      match Next(s, steps[0])
      case Some(s') => Run(s', steps[1..])
      case None => None
  }

  function Bodies(data: seq<Data>): seq<int> {
    seq(|data|, i requires 0 <= i < |data| => data[i].body)
  }

  function HeldByProducer(s: State): seq<Data> {
    if s.producer.Sending? then [s.producer.data] else []
  }

  function HeldByConsumer(s: State): seq<Data> {
    if s.consumer.Gathering? || s.consumer.Delivering? then [s.consumer.data] else []
  }

  /** What every reachable state satisfies. */
  ghost predicate Inv(s: State) {
    Conserved(s) && Synchronised(s)
  }

  ghost predicate Conserved(s: State) {
    s.decoded == Bodies(s.delivered) + Bodies(HeldByConsumer(s)) + Bodies(s.chanData) + Bodies(HeldByProducer(s))
  }

  ghost predicate Synchronised(s: State) {
    && |s.chanData| <= 1
    && s.chanErr <= (if s.producer.Gone? then 1 else 0)
    && s.wg == (if s.consumer.Finished? then 0 else 1)
    && (s.stop.Returned? ==> s.consumer.Finished?)
  }

  lemma StepKeepsInv(s: State, step: Step)
    requires Inv(s) && Next(s, step).Some?
    ensures Inv(Next(s, step).value)
  {
    StepConserves(s, step);
    hide Conserved;
  }

  lemma StepConserves(s: State, step: Step)
    requires Conserved(s) && Next(s, step).Some?
    ensures Conserved(Next(s, step).value)
  {
    var t := Next(s, step).value;
    NoBodies();
    match step
    case Decode(d) =>
      hide Bodies;
      BodiesOfOne(d);
    case SendData =>
      hide Bodies;
      assert s.chanData == [] && t.chanData == [s.producer.data];
    case PickData =>
      PickConserves(s, t);
    case Gather(_) =>
      hide Bodies;
      BodiesOfOne(s.consumer.data);
      BodiesOfOne(t.consumer.data);
    case Deliver =>
      DeliverConserves(s, t);
    case _ =>
      hide Bodies;
  }

  lemma PickConserves(s: State, t: State)
    requires Conserved(s) && Next(s, PickData) == Some(t)
    ensures Conserved(t)
  {
    NoBodies();
    assert s.chanData == [s.chanData[0]] + t.chanData;
    BodiesConcat([s.chanData[0]], t.chanData);
    hide Bodies;
  }

  lemma DeliverConserves(s: State, t: State)
    requires Conserved(s) && Next(s, Deliver) == Some(t)
    ensures Conserved(t)
  {
    NoBodies();
    BodiesConcat(s.delivered, [s.consumer.data]);
    hide Bodies;
  }

  lemma NoBodies()
    ensures Bodies([]) == []
  {
  }

  lemma BodiesOfOne(d: Data)
    ensures Bodies([d]) == [d.body]
  {
  }

  lemma BodiesConcat(a: seq<Data>, b: seq<Data>)
    ensures Bodies(a + b) == Bodies(a) + Bodies(b)
  {
  }

  lemma {:induction false} RunKeepsInv(s: State, steps: seq<Step>)
    requires Inv(s) && Run(s, steps).Some?
    ensures Inv(Run(s, steps).value)
    decreases |steps|
  {
    if steps != [] {
      StepKeepsInv(s, steps[0]);
      RunKeepsInv(Next(s, steps[0]).value, steps[1..]);
    }
  }

  /** Conservation, in every reachable state: what was decoded is what was delivered, then what the
      consumer holds, then what is buffered, then what the producer holds. */
  lemma Conservation(steps: seq<Step>)
    requires Run(INIT, steps).Some?
    ensures var s := Run(INIT, steps).value;
            && s.decoded == Bodies(s.delivered) + Bodies(HeldByConsumer(s)) + Bodies(s.chanData) + Bodies(HeldByProducer(s))
            && Bodies(s.delivered) <= s.decoded
            && |s.decoded| - |s.delivered| <= 3
  {
    RunKeepsInv(INIT, steps);
  }

  /** The buffered error channel never blocks the producer. */
  lemma ErrorNeverBlocks(steps: seq<Step>)
    requires Run(INIT, steps).Some? && Run(INIT, steps).value.producer.Failing?
    ensures Next(Run(INIT, steps).value, SendError).Some?
  {
    RunKeepsInv(INIT, steps);
  }

  ghost predicate ProducerCanEnd(s: State) {
    exists steps :: Run(s, steps).Some? && Run(s, steps).value.producer.Gone?
  }

  /** The producer waits for room in the buffer, and nobody is left to make any. */
  predicate ProducerStuck(s: State) {
    s.producer.Sending? && s.chanData != [] && s.consumer.Finished?
  }

  lemma StepEnds(s: State, step: Step)
    requires Next(s, step).Some? && ProducerCanEnd(Next(s, step).value)
    ensures ProducerCanEnd(s)
  {
    var t := Next(s, step).value;
    var rest :| Run(t, rest).Some? && Run(t, rest).value.producer.Gone?;
    RunFirst(s, step, rest);
  }

  lemma RunFirst(s: State, step: Step, rest: seq<Step>)
    requires Next(s, step).Some?
    ensures Run(s, [step] + rest) == Run(Next(s, step).value, rest)
  {
    assert ([step] + rest)[1..] == rest;
  }

  lemma {:induction false} StuckStays(s: State, steps: seq<Step>)
    requires ProducerStuck(s) && Run(s, steps).Some?
    ensures ProducerStuck(Run(s, steps).value)
    decreases |steps|
  {
    if steps != [] {
      StuckStays(Next(s, steps[0]).value, steps[1..]);
    }
  }

  /** How many samples stand between the producer and its end. */
  function Ahead(s: State): nat {
    (if s.producer.Sending? then 5 else if s.producer.Decoding? then 1 else 0) + 3 * |s.chanData|
    + match s.consumer case Gathering(_) => 2 case Delivering(_) => 1 case _ => 0
  }

  /** From every other state the producer can still come to its end. */
  lemma {:induction false} CanEnd(s: State)
    requires Inv(s) && !ProducerStuck(s)
    ensures ProducerCanEnd(s)
    decreases if s.producer.Gone? then 0 else 1, if s.producer.Failing? then 0 else 1, Ahead(s)
  {
    if s.producer.Gone? {
      assert Run(s, []) == Some(s);
    } else {
      var step :=
        if s.producer.Failing? then SendError
        else if s.producer.Decoding? then DecodeFails
        else if s.chanData == [] then SendData
        else if s.consumer.Gathering? then Gather(None)
        else if s.consumer.Delivering? then Deliver
        else PickData;
      StepKeepsInv(s, step);
      CanEnd(Next(s, step).value);
      StepEnds(s, step);
    }
  }

  /** The producer is lost, in that no run leads to its end, exactly when it waits for room in the buffer
      after the consumer is over. */
  lemma ProducerStuckIff(before: seq<Step>)
    requires Run(INIT, before).Some?
    ensures ProducerCanEnd(Run(INIT, before).value) <==> !ProducerStuck(Run(INIT, before).value)
  {
    var s := Run(INIT, before).value;
    RunKeepsInv(INIT, before);
    if ProducerStuck(s) {
      forall steps | Run(s, steps).Some? ensures !Run(s, steps).value.producer.Gone? { StuckStays(s, steps); }
    } else {
      CanEnd(s);
    }
  }

  /** Such a state is reachable: two samples arrive after Stop has returned, and then nothing moves. */
  lemma ProducerCanStick(d: Data, e: Data)
    ensures var run := Run(INIT, [CallStop, PickClosing, StopReturns, Decode(d), SendData, Decode(e)]);
            && run.Some? && run.value.stop.Returned? && ProducerStuck(run.value)
            && forall step :: Next(run.value, step).None?
  {
    var s1 := INIT.(stop := Waiting);
    var s2 := s1.(consumer := Finished, wg := 0);
    var s3 := s2.(stop := Returned);
    var s4 := s3.(producer := Sending(d), decoded := s3.decoded + [d.body]);
    var s5 := s4.(producer := Decoding, chanData := s4.chanData + [d]);
    var s6 := s5.(producer := Sending(e), decoded := s5.decoded + [e.body]);
    assert Next(s3, Decode(d)) == Some(s4) && Next(s4, SendData) == Some(s5) && Next(s5, Decode(e)) == Some(s6);
    assert Next(INIT, CallStop) == Some(s1) && Next(s1, PickClosing) == Some(s2) && Next(s2, StopReturns) == Some(s3);
    NothingMoves(s6);
    hide Next;
    var p1 := [Decode(e)];
    RunFirst(s5, Decode(e), []);
    var p2 := RunThen(s4, SendData, p1);
    var p3 := RunThen(s3, Decode(d), p2);
    var p4 := RunThen(s2, StopReturns, p3);
    var p5 := RunThen(s1, PickClosing, p4);
    var p6 := RunThen(INIT, CallStop, p5);
    hide Run;
    assert [Decode(e)] + [] == p1;
    assert p6 == [CallStop, PickClosing, StopReturns, Decode(d), SendData, Decode(e)];
  }

  lemma NothingMoves(s: State)
    requires ProducerStuck(s) && s.stop.Returned? && |s.chanData| == 1
    ensures forall step :: Next(s, step).None?
  {
  }

  lemma RunThen(s: State, step: Step, rest: seq<Step>) returns (all: seq<Step>)
    requires Next(s, step).Some?
    ensures all == [step] + rest && Run(s, all) == Run(Next(s, step).value, rest)
  {
    all := [step] + rest;
    RunFirst(s, step, rest);
  }

  lemma {:induction false} FinishedStays(s: State, steps: seq<Step>)
    requires s.consumer.Finished? && Run(s, steps).Some?
    ensures Run(s, steps).value.delivered == s.delivered
    decreases |steps|
  {
    if steps != [] {
      FinishedStays(Next(s, steps[0]).value, steps[1..]);
    }
  }

  /** Nothing is delivered after Stop has returned, however the run goes on. */
  lemma NothingAfterStop(before: seq<Step>, after: seq<Step>)
    requires Run(INIT, before).Some? && Run(INIT, before).value.stop.Returned?
    requires Run(Run(INIT, before).value, after).Some?
    ensures Run(Run(INIT, before).value, after).value.delivered == Run(INIT, before).value.delivered
  {
    RunKeepsInv(INIT, before);
    FinishedStays(Run(INIT, before).value, after);
  }

  // ---------- Stop ----------

  /** A run in which no reader takes a sample: the program calls Stop from the goroutine that reads. */
  predicate WithoutReader(steps: seq<Step>) {
    forall i :: 0 <= i < |steps| ==> !steps[i].Deliver?
  }

  /** Some run without a reader lets Stop return. */
  ghost predicate StopCanReturn(s: State) {
    exists steps :: WithoutReader(steps) && Run(s, steps).Some? && Run(s, steps).value.stop.Returned?
  }

  lemma StepReturns(s: State, step: Step)
    requires !step.Deliver? && Next(s, step).Some? && StopCanReturn(Next(s, step).value)
    ensures StopCanReturn(s)
  {
    var t := Next(s, step).value;
    var rest :| WithoutReader(rest) && Run(t, rest).Some? && Run(t, rest).value.stop.Returned?;
    RunFirst(s, step, rest);
    assert WithoutReader([step] + rest);
  }

  lemma {:induction false} HolderStaysStuck(s: State, steps: seq<Step>)
    requires Inv(s) && HeldByConsumer(s) != [] && WithoutReader(steps) && Run(s, steps).Some?
    ensures !Run(s, steps).value.stop.Returned?
    decreases |steps|
  {
    if steps != [] {
      StepKeepsInv(s, steps[0]);
      HolderStaysStuck(Next(s, steps[0]).value, steps[1..]);
    }
  }

  lemma HolderCannotReturn(s: State)
    requires Inv(s) && HeldByConsumer(s) != []
    ensures !StopCanReturn(s)
  {
    forall steps | WithoutReader(steps) && Run(s, steps).Some? ensures !Run(s, steps).value.stop.Returned? {
      HolderStaysStuck(s, steps);
    }
  }

  /** Once called, Stop can return as long as the consumer holds no sample. */
  lemma EmptyHandedCanReturn(s: State)
    requires Inv(s) && !s.stop.NotCalled? && HeldByConsumer(s) == []
    ensures StopCanReturn(s)
  {
    if s.stop.Returned? {
      assert Run(s, []) == Some(s) && WithoutReader([]);
    } else {
      var t := if s.consumer.Finished? then s else Next(s, PickClosing).value;
      var u := Next(t, StopReturns).value;
      assert Run(u, []) == Some(u) && WithoutReader([]);
      StepReturns(t, StopReturns);
      if t != s {
        StepReturns(s, PickClosing);
      }
    }
  }

  /** Without a reader, a waiting Stop can return exactly when the consumer holds no sample. */
  lemma StopCanReturnIff(before: seq<Step>)
    requires Run(INIT, before).Some? && Run(INIT, before).value.stop.Waiting?
    ensures StopCanReturn(Run(INIT, before).value) <==> HeldByConsumer(Run(INIT, before).value) == []
  {
    var s := Run(INIT, before).value;
    RunKeepsInv(INIT, before);
    if HeldByConsumer(s) == [] {
      EmptyHandedCanReturn(s);
    } else {
      HolderCannotReturn(s);
    }
  }

  /** The consumer is over, or it selects and no sample can come any more. */
  predicate Quiet(s: State) {
    s.consumer.Finished? || (s.consumer.Selecting? && s.chanData == [] && (s.producer.Failing? || s.producer.Gone?))
  }

  lemma {:induction false} QuietStays(s: State, steps: seq<Step>)
    requires Inv(s) && Quiet(s) && !s.stop.NotCalled? && Run(s, steps).Some?
    ensures var t := Run(s, steps).value; Inv(t) && Quiet(t) && !t.stop.NotCalled?
    decreases |steps|
  {
    if steps != [] {
      StepKeepsInv(s, steps[0]);
      QuietStays(Next(s, steps[0]).value, steps[1..]);
    }
  }

  /** A run without a reader after which Stop cannot return. */
  ghost predicate StopCanBeLost(s: State) {
    exists steps :: WithoutReader(steps) && Run(s, steps).Some? && !StopCanReturn(Run(s, steps).value)
  }

  lemma StepLoses(s: State, step: Step)
    requires !step.Deliver? && Next(s, step).Some? && StopCanBeLost(Next(s, step).value)
    ensures StopCanBeLost(s)
  {
    var t := Next(s, step).value;
    var rest :| WithoutReader(rest) && Run(t, rest).Some? && !StopCanReturn(Run(t, rest).value);
    RunFirst(s, step, rest);
    assert WithoutReader([step] + rest);
  }

  /** Any sample that can still reach the consumer is one that it may pick before the request to close. */
  lemma {:induction false} UnquietCanBeLost(s: State)
    requires Inv(s) && s.stop.Waiting? && !Quiet(s)
    ensures StopCanBeLost(s)
    decreases if HeldByConsumer(s) == [] then 1 else 0, if s.chanData == [] then 1 else 0, if s.producer.Decoding? then 1 else 0
  {
    if HeldByConsumer(s) != [] {
      HolderCannotReturn(s);
      assert !StopCanReturn(s) && Run(s, []) == Some(s) && WithoutReader([]);
    } else {
      var step := if s.chanData != [] then PickData else if s.producer.Sending? then SendData else Decode(Data(0, 0));
      StepKeepsInv(s, step);
      UnquietCanBeLost(Next(s, step).value);
      StepLoses(s, step);
    }
  }

  /** Without a reader, a waiting Stop returns whatever the schedule, in that no run can prevent it any
      more, exactly when the consumer is over, or selects and no sample can come any more. */
  lemma StopReturnsIff(before: seq<Step>)
    requires Run(INIT, before).Some? && Run(INIT, before).value.stop.Waiting?
    ensures var s := Run(INIT, before).value;
            (forall steps :: WithoutReader(steps) && Run(s, steps).Some? ==> StopCanReturn(Run(s, steps).value))
            <==> Quiet(s)
  {
    var s := Run(INIT, before).value;
    RunKeepsInv(INIT, before);
    if Quiet(s) {
      forall steps | WithoutReader(steps) && Run(s, steps).Some? ensures StopCanReturn(Run(s, steps).value) {
        QuietStays(s, steps);
        EmptyHandedCanReturn(Run(s, steps).value);
      }
    } else {
      UnquietCanBeLost(s);
    }
  }

  /** What is left to do without a reader, at most. */
  function Left(s: State): (n: nat)
    ensures n <= 11
  {
    (match s.producer case Decoding => 3 case Sending(_) => 2 case Failing => 2 case Gone => 0)
    + (if s.chanData == [] then 2 else 0)
    + (match s.consumer case Selecting => 4 case Gathering(_) => 1 case _ => 0)
    + (match s.stop case NotCalled => 2 case Waiting => 1 case Returned => 0)
  }

  lemma StepLeaves(s: State, step: Step)
    requires Synchronised(s) && !step.Deliver? && Next(s, step).Some?
    ensures Left(Next(s, step).value) < Left(s)
  {
  }

  /** Without a reader no schedule goes on for more than eleven steps. */
  lemma {:induction false} RunWithoutReaderIsShort(s: State, steps: seq<Step>)
    requires Inv(s) && WithoutReader(steps) && Run(s, steps).Some?
    ensures |steps| + Left(Run(s, steps).value) <= Left(s)
    decreases |steps|
  {
    if steps != [] {
      StepKeepsInv(s, steps[0]);
      StepLeaves(s, steps[0]);
      hide Left, Inv, Next;
      RunWithoutReaderIsShort(Next(s, steps[0]).value, steps[1..]);
    }
  }

  /** So a run without a reader comes to a state in which it cannot go on, and Stop has returned there if
      it waited in a state from which nothing can prevent it. */
  lemma QuietStopReturns(before: seq<Step>, after: seq<Step>)
    requires Run(INIT, before).Some? && WithoutReader(after) && Run(Run(INIT, before).value, after).Some?
    requires var s := Run(INIT, before).value; s.stop.Waiting? && Quiet(s)
    requires forall step: Step :: !step.Deliver? ==> Next(Run(Run(INIT, before).value, after).value, step).None?
    ensures Run(Run(INIT, before).value, after).value.stop.Returned? && |after| <= 11
  {
    var s := Run(INIT, before).value;
    RunKeepsInv(INIT, before);
    RunWithoutReaderIsShort(s, after);
    QuietStays(s, after);
    var t := Run(s, after).value;
    hide *;
    assert Next(t, StopReturns).None? && Next(t, PickClosing).None?;
    OnlyReturnedIsStill(t);
  }

  lemma OnlyReturnedIsStill(t: State)
    requires Inv(t) && Quiet(t) && !t.stop.NotCalled?
    requires Next(t, StopReturns).None? && Next(t, PickClosing).None?
    ensures t.stop.Returned?
  {
  }

  /** With a reader, Stop can return from every state in which it waits. */
  lemma {:induction false} ReaderLetsStopReturn(s: State)
    requires Inv(s) && s.stop.Waiting?
    ensures exists steps :: Run(s, steps).Some? && Run(s, steps).value.stop.Returned?
    decreases match s.consumer case Gathering(_) => 2 case Delivering(_) => 1 case _ => 0
  {
    if HeldByConsumer(s) == [] {
      EmptyHandedCanReturn(s);
    } else {
      var step := if s.consumer.Gathering? then Gather(None) else Deliver;
      var t := Next(s, step).value;
      StepKeepsInv(s, step);
      ReaderLetsStopReturn(t);
      var rest :| Run(t, rest).Some? && Run(t, rest).value.stop.Returned?;
      RunFirst(s, step, rest);
    }
  }

  /** A run that blocks Stop for ever although the consumer held nothing when it was called: the select
      picks the sample. */
  lemma StopCanBlock(d: Data)
    ensures var run := Run(INIT, [Decode(d), SendData, CallStop]);
            && run.Some? && run.value.stop.Waiting? && HeldByConsumer(run.value) == []
            && Next(run.value, PickData).Some? && !StopCanReturn(Next(run.value, PickData).value)
  {
    var s1 := INIT.(producer := Sending(d), decoded := INIT.decoded + [d.body]);
    var s2 := s1.(producer := Decoding, chanData := s1.chanData + [d]);
    var s3 := s2.(stop := Waiting);
    assert Next(INIT, Decode(d)) == Some(s1) && Next(s1, SendData) == Some(s2) && Next(s2, CallStop) == Some(s3);
    RunFirst(s2, CallStop, []);
    var p2 := RunThen(s1, SendData, [CallStop]);
    var p3 := RunThen(INIT, Decode(d), p2);
    assert [CallStop] + [] == [CallStop] && p3 == [Decode(d), SendData, CallStop];
    RunKeepsInv(INIT, p3);
    assert Next(s3, PickData).Some? && HeldByConsumer(Next(s3, PickData).value) != [];
    StepKeepsInv(s3, PickData);
    hide Next, Inv;
    var s4 := Next(s3, PickData).value;
    HolderCannotReturn(s4);
  }

  // ---------- samples that are lost ----------

  /** Once both goroutines are over, exactly what is left in the buffer was decoded and not delivered. */
  lemma LostIsBuffered(steps: seq<Step>)
    requires Run(INIT, steps).Some?
    ensures var s := Run(INIT, steps).value;
            s.producer.Gone? && s.consumer.Finished? ==>
              s.decoded == Bodies(s.delivered) + Bodies(s.chanData) && |s.chanData| <= 1
  {
    RunKeepsInv(INIT, steps);
    var s := Run(INIT, steps).value;
    if s.producer.Gone? && s.consumer.Finished? {
      assert s.decoded == Bodies(s.delivered) + Bodies(s.chanData);
    }
  }

  lemma {:induction false} OverStays(s: State, steps: seq<Step>)
    requires s.producer.Gone? && s.consumer.Finished? && Run(s, steps).Some?
    ensures Run(s, steps).value.(stop := s.stop) == s
    decreases |steps|
  {
    if steps != [] {
      OverStays(Next(s, steps[0]).value, steps[1..]);
    }
  }

  /** When the select picks the error, every decoded sample has been delivered in the end, however the
      run goes on, exactly when the buffer is empty at that moment. */
  lemma ErrorLosesIff(before: seq<Step>, after: seq<Step>)
    requires Run(INIT, before).Some? && Next(Run(INIT, before).value, PickError).Some?
    requires Run(Next(Run(INIT, before).value, PickError).value, after).Some?
    ensures var s := Run(INIT, before).value; var t := Run(Next(s, PickError).value, after).value;
            t.decoded == Bodies(t.delivered) <==> s.chanData == []
  {
    var s := Run(INIT, before).value;
    var m := Next(s, PickError).value;
    RunKeepsInv(INIT, before);
    StepKeepsInv(s, PickError);
    assert m.producer.Gone? && m.consumer.Finished? && m.chanData == s.chanData;
    OverStays(m, after);
    hide Run, Next;
    OverIsDelivered(m);
  }

  lemma OverIsDelivered(s: State)
    requires Inv(s) && s.producer.Gone? && s.consumer.Finished?
    ensures s.decoded == Bodies(s.delivered) <==> s.chanData == []
  {
    assert s.decoded == Bodies(s.delivered) + Bodies(s.chanData);
    assert |Bodies(s.chanData)| == |s.chanData|;
  }

  /** A run that loses a sample: the stream ends after it, and the error is picked first. */
  lemma ErrorCanLose(d: Data)
    ensures var run := Run(INIT, [Decode(d), SendData, DecodeFails, SendError, PickError]);
            && run.Some? && run.value.decoded == [d.body] && run.value.delivered == []
            && run.value.producer.Gone? && run.value.consumer.Finished?
  {
    var s1 := INIT.(producer := Sending(d), decoded := INIT.decoded + [d.body]);
    var s2 := s1.(producer := Decoding, chanData := s1.chanData + [d]);
    var s3 := s2.(producer := Failing);
    var s4 := s3.(producer := Gone, chanErr := 1);
    var s5 := s4.(consumer := Finished, wg := 0, chanErr := 0);
    assert Next(INIT, Decode(d)) == Some(s1) && Next(s1, SendData) == Some(s2) && Next(s2, DecodeFails) == Some(s3);
    assert Next(s3, SendError) == Some(s4) && Next(s4, PickError) == Some(s5);
    hide Next;
    RunFirst(s4, PickError, []);
    var p2 := RunThen(s3, SendError, [PickError]);
    var p3 := RunThen(s2, DecodeFails, p2);
    var p4 := RunThen(s1, SendData, p3);
    var p5 := RunThen(INIT, Decode(d), p4);
    hide Run;
    assert [PickError] + [] == [PickError];
    assert p5 == [Decode(d), SendData, DecodeFails, SendError, PickError];
  }

  // ---------- what is delivered ----------

  /** The samples that have been decoded, and what the gathering of network figures has given, in order. */
  function Decoded(steps: seq<Step>): seq<Data> {
    if steps == [] then []
    else Decoded(steps[..|steps| - 1]) + if steps[|steps| - 1].Decode? then [steps[|steps| - 1].data] else []
  }

  function Gathered(steps: seq<Step>): seq<Option<int>> {
    if steps == [] then []
    else Gathered(steps[..|steps| - 1]) + if steps[|steps| - 1].Gather? then [steps[|steps| - 1].result] else []
  }

  /** A delivered sample is the decoded one, with the gathered figures if there are any, else with its own. */
  predicate IsCompleted(d: Data, decoded: Data, gathered: Option<int>) {
    d.body == decoded.body && d.networks == match gathered case Some(n) => n case None => decoded.networks
  }

  /** Where each decoded sample is, and that those which the consumer has dealt with are completed. */
  ghost predicate Follows(s: State, decoded: seq<Data>, gathered: seq<Option<int>>) {
    var n, c := |s.delivered|, |HeldByConsumer(s)|;
    && |decoded| == n + c + |s.chanData| + |HeldByProducer(s)|
    && |gathered| == n + (if s.consumer.Delivering? then 1 else 0)
    && (forall i :: 0 <= i < n ==> IsCompleted(s.delivered[i], decoded[i], gathered[i]))
    && (s.consumer.Gathering? ==> s.consumer.data == decoded[n])
    && (s.consumer.Delivering? ==> IsCompleted(s.consumer.data, decoded[n], gathered[n]))
    && (forall i :: 0 <= i < |s.chanData| ==> s.chanData[i] == decoded[n + c + i])
    && (s.producer.Sending? ==> s.producer.data == decoded[|decoded| - 1])
  }

  lemma {:induction false} RunLast(s: State, before: seq<Step>, last: Step)
    requires Run(s, before + [last]).Some?
    ensures Run(s, before).Some? && Run(s, before + [last]) == Next(Run(s, before).value, last)
    decreases |before|
  {
    var all := before + [last];
    if before == [] {
      assert all[1..] == [];
    } else {
      assert all[1..] == before[1..] + [last] && all[0] == before[0];
      RunLast(Next(s, before[0]).value, before[1..], last);
    }
  }

  lemma StepFollows(s: State, step: Step, decoded: seq<Data>, gathered: seq<Option<int>>)
    requires Next(s, step).Some? && Follows(s, decoded, gathered) && |s.chanData| <= 1
    ensures Follows(Next(s, step).value, decoded + (if step.Decode? then [step.data] else []),
                    gathered + (if step.Gather? then [step.result] else []))
  {
    if !step.Gather? {
      hide IsCompleted;
    }
  }

  lemma {:induction false} RunFollows(steps: seq<Step>)
    requires Run(INIT, steps).Some?
    ensures Follows(Run(INIT, steps).value, Decoded(steps), Gathered(steps))
    decreases |steps|
  {
    if steps != [] {
      var before, last := steps[..|steps| - 1], steps[|steps| - 1];
      assert before + [last] == steps;
      RunLast(INIT, before, last);
      RunFollows(before);
      RunKeepsInv(INIT, before);
      StepFollows(Run(INIT, before).value, last, Decoded(before), Gathered(before));
    }
  }

  /** In every reachable state the delivered samples are the first of those decoded, each with the network
      figures that were gathered for it, or its own if the gathering failed. */
  lemma DeliveredIsCompleted(steps: seq<Step>)
    requires Run(INIT, steps).Some?
    ensures var delivered := Run(INIT, steps).value.delivered;
            && |delivered| <= |Decoded(steps)| && |delivered| <= |Gathered(steps)|
            && forall i :: 0 <= i < |delivered| ==> IsCompleted(delivered[i], Decoded(steps)[i], Gathered(steps)[i])
  {
    RunFollows(steps);
  }

  /** What makes the consumer end. */
  lemma {:induction false} ConsumerEnds(s: State, steps: seq<Step>)
    requires Inv(s) && Run(s, steps).Some?
    requires s.consumer.Finished? ==> !s.stop.NotCalled? || s.producer.Gone?
    ensures var t := Run(s, steps).value; t.consumer.Finished? ==> !t.stop.NotCalled? || t.producer.Gone?
    decreases |steps|
  {
    if steps != [] {
      StepKeepsInv(s, steps[0]);
      ConsumerEnds(Next(s, steps[0]).value, steps[1..]);
    }
  }

  /** The consumer goes on until Stop is called or the stream has ended. */
  lemma OnlyStopOrErrorEnds(steps: seq<Step>)
    requires Run(INIT, steps).Some? && Run(INIT, steps).value.consumer.Finished?
    ensures var s := Run(INIT, steps).value; !s.stop.NotCalled? || s.producer.Gone?
  {
    ConsumerEnds(INIT, steps);
  }
}
