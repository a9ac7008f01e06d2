/** sim/kubernetes/engine.go: configureContainer and UploadConfig start one worker per pod, collect errors
    in a buffered channel and wait for all of them. The second round starts only after the first. */
module FanOut {
  import opened Prelude

  /** The goroutine of one pod: working, about to send its error, about to call wg.Done, or over. */
  datatype Worker = Working | SendingError(err: int) | Leaving(failed: Option<int>) | Over(failed: Option<int>)

  datatype Main = Waiting | Closing | Receiving | Returned(result: Option<int>)

  /** One round over n pods. The channel holds the sender with each error; its capacity is n. */
  datatype Round = Round(workers: seq<Worker>, wg: nat, errCh: seq<(nat, int)>, closed: bool, main: Main)

  datatype Step =
    | Finish(i: nat, failed: Option<int>)   // the call for pod i returns
    | SendError(i: nat)                     // errCh <- err
    | WgDone(i: nat)                        // the deferred wg.Done
    | WaitPasses                            // wg.Wait()
    | CloseCh                               // close(errCh)
    | Receive                               // err := <-errCh

  function Begin(n: nat): Round {
    Round(seq(n, _ => Working), n, [], false, Waiting)
  }

  /** The effect of a step; None when it is blocked or not the turn of its goroutine. Sending on a closed
      channel would be a panic, so it is not offered. */
  function Next(r: Round, step: Step): Option<Round> {
    match step
    case Finish(i, failed) =>
      if i < |r.workers| && r.workers[i].Working?
      then Some(r.(workers := r.workers[i := if failed.Some? then SendingError(failed.value) else Leaving(None)]))
      else None
    case SendError(i) =>
      if i < |r.workers| && r.workers[i].SendingError? && !r.closed && |r.errCh| < |r.workers|
      then Some(r.(workers := r.workers[i := Leaving(Some(r.workers[i].err))],
                   errCh := r.errCh + [(i, r.workers[i].err)]))
      else None
    case WgDone(i) =>
      if i < |r.workers| && r.workers[i].Leaving? && r.wg > 0
      then Some(r.(workers := r.workers[i := Over(r.workers[i].failed)], wg := r.wg - 1))
      else None
    case WaitPasses =>
      if r.main.Waiting? && r.wg == 0 then Some(r.(main := Closing)) else None
    case CloseCh =>
      if r.main.Closing? && !r.closed then Some(r.(main := Receiving, closed := true)) else None
    case Receive =>
      if !r.main.Receiving? then None
      else if r.errCh != [] then Some(r.(main := Returned(Some(r.errCh[0].1)), errCh := r.errCh[1..]))
      else if r.closed then Some(r.(main := Returned(None)))
      else None
  }

  /** Counts the workers that are not over. */
  function Pending(workers: seq<Worker>): nat {
    if workers == [] then 0 else Pending(workers[1..]) + if workers[0].Over? then 0 else 1
  }

  /** The error that worker i has put in the channel. */
  function SentError(workers: seq<Worker>, i: nat): Option<int> {
    if i < |workers| && (workers[i].Leaving? || workers[i].Over?) then workers[i].failed else None
  }

  /** The channel holds the error of each worker that has sent one, once. */
  ghost predicate Collected(workers: seq<Worker>, errCh: seq<(nat, int)>) {
    && (forall k :: 0 <= k < |errCh| ==> SentError(workers, errCh[k].0) == Some(errCh[k].1))
    && (forall j, k :: 0 <= j < k < |errCh| ==> errCh[j].0 != errCh[k].0)
    && (forall i :: 0 <= i < |workers| && SentError(workers, i).Some? ==> IsSender(errCh, i))
  }

  ghost predicate IsSender(errCh: seq<(nat, int)>, i: nat) {
    exists k :: 0 <= k < |errCh| && errCh[k].0 == i
  }

  ghost predicate Inv(r: Round) {
    && r.wg == Pending(r.workers)
    && (!r.main.Waiting? ==> r.wg == 0)
    && (r.closed <==> r.main.Receiving? || r.main.Returned?)
    && (!r.main.Returned? ==> Collected(r.workers, r.errCh))
    && (r.main.Returned? ==>
          (match r.main.result
           case None => forall i :: 0 <= i < |r.workers| ==> r.workers[i] == Over(None)
           case Some(e) => exists i :: 0 <= i < |r.workers| && r.workers[i] == Over(Some(e))))
  }

  lemma {:induction false} PendingUpdate(workers: seq<Worker>, i: nat, w: Worker)
    requires i < |workers|
    ensures Pending(workers[i := w])
            == Pending(workers) - (if workers[i].Over? then 0 else 1) + if w.Over? then 0 else 1
  {
    if i > 0 {
      PendingUpdate(workers[1..], i - 1, w);
      assert workers[i := w][1..] == workers[1..][i - 1 := w];
    } else {
      assert workers[0 := w][1..] == workers[1..];
    }
  }

  lemma {:induction false} NonePending(workers: seq<Worker>)
    ensures Pending(workers) == 0 <==> forall i :: 0 <= i < |workers| ==> workers[i].Over?
  {
    if workers != [] {
      NonePending(workers[1..]);
      assert forall i :: 0 < i < |workers| ==> workers[i] == workers[1..][i - 1];
      assert forall i :: 0 <= i < |workers| - 1 ==> workers[1..][i] == workers[i + 1];
    }
  }

  lemma {:induction false} PendingAtStart(workers: seq<Worker>)
    requires forall i :: 0 <= i < |workers| ==> workers[i] == Working
    ensures Pending(workers) == |workers|
  {
    if workers != [] { PendingAtStart(workers[1..]); }
  }

  lemma BeginInv(n: nat)
    ensures Inv(Begin(n))
  {
    PendingAtStart(Begin(n).workers);
  }

  /** A step of worker i that sends nothing. */
  lemma CollectedSame(workers: seq<Worker>, errCh: seq<(nat, int)>, i: nat, w: Worker)
    requires Collected(workers, errCh) && i < |workers|
    requires SentError([w], 0) == SentError(workers, i)
    ensures Collected(workers[i := w], errCh)
  {
  }

  lemma CollectedMore(workers: seq<Worker>, errCh: seq<(nat, int)>, i: nat)
    requires Collected(workers, errCh) && i < |workers| && workers[i].SendingError?
    ensures Collected(workers[i := Leaving(Some(workers[i].err))], errCh + [(i, workers[i].err)])
  {
    var now, more := workers[i := Leaving(Some(workers[i].err))], errCh + [(i, workers[i].err)];
    forall j: nat | j != i ensures SentError(now, j) == SentError(workers, j) {}
    assert more[|errCh|].0 == i;
    forall j | 0 <= j < |now| && SentError(now, j).Some? ensures IsSender(more, j) {
      if j != i {
        assert IsSender(errCh, j);
        var k :| 0 <= k < |errCh| && errCh[k].0 == j;
        assert more[k].0 == j;
      }
    }
    forall k | 0 <= k < |errCh| ensures errCh[k].0 != i { assert SentError(workers, errCh[k].0).Some?; }
  }

  lemma StepKeepsInv(r: Round, step: Step)
    requires Inv(r) && Next(r, step).Some?
    ensures Inv(Next(r, step).value) && |Next(r, step).value.workers| == |r.workers|
  {
    hide Collected;
    var t := Next(r, step).value;
    NonePending(r.workers);
    match step {
      case Finish(i, failed) =>
        PendingUpdate(r.workers, i, t.workers[i]);
        if !r.main.Returned? { CollectedSame(r.workers, r.errCh, i, t.workers[i]); }
      case SendError(i) =>
        PendingUpdate(r.workers, i, t.workers[i]);
        if !r.main.Returned? { CollectedMore(r.workers, r.errCh, i); }
      case WgDone(i) =>
        PendingUpdate(r.workers, i, t.workers[i]);
        if !r.main.Returned? { CollectedSame(r.workers, r.errCh, i, t.workers[i]); }
      case Receive => ReceiveResult(r.workers, r.errCh);
      case _ =>
    }
  }

  /** With all workers over, an empty channel means success and the first error is one of theirs. */
  lemma ReceiveResult(workers: seq<Worker>, errCh: seq<(nat, int)>)
    requires Collected(workers, errCh) && forall i :: 0 <= i < |workers| ==> workers[i].Over?
    ensures errCh == [] ==> forall i :: 0 <= i < |workers| ==> workers[i] == Over(None)
    ensures errCh != [] ==> exists i :: 0 <= i < |workers| && workers[i] == Over(Some(errCh[0].1))
  {
    if errCh == [] {
      forall i | 0 <= i < |workers| ensures workers[i] == Over(None) { assert !IsSender(errCh, i); }
    } else {
      assert SentError(workers, errCh[0].0) == Some(errCh[0].1);
    }
  }

  // ---------- any schedule of one round ----------

  function Run(r: Round, steps: seq<Step>): Option<Round>
    decreases |steps|
  {
    if steps == [] then Some(r)
    else
      match Next(r, steps[0])
      case Some(r') => Run(r', steps[1..])
      case None => None
  }

  lemma {:induction false} RunKeepsInv(r: Round, steps: seq<Step>)
    requires Inv(r) && Run(r, steps).Some?
    ensures Inv(Run(r, steps).value) && |Run(r, steps).value.workers| == |r.workers|
    decreases |steps|
  {
    if steps != [] {
      StepKeepsInv(r, steps[0]);
      RunKeepsInv(Next(r, steps[0]).value, steps[1..]);
    }
  }

  function Below(n: nat): set<nat> {
    if n == 0 then {} else Below(n - 1) + {n - 1}
  }

  lemma {:induction false} BelowHas(n: nat, i: nat)
    ensures i in Below(n) <==> i < n
  {
    if n > 0 { BelowHas(n - 1, i); }
  }

  lemma {:induction false} BelowSize(n: nat)
    ensures |Below(n)| == n
  {
    if n > 0 {
      BelowSize(n - 1);
      BelowHas(n - 1, n - 1);
    }
  }

  function Elements(s: seq<nat>): set<nat> {
    if s == [] then {} else Elements(s[1..]) + {s[0]}
  }

  lemma {:induction false} ElementsHas(s: seq<nat>, x: nat)
    ensures x in Elements(s) <==> x in s
  {
    if s != [] {
      ElementsHas(s[1..], x);
      assert s == [s[0]] + s[1..];
    }
  }

  lemma {:induction false} ElementsSize(s: seq<nat>)
    requires forall j, k :: 0 <= j < k < |s| ==> s[j] != s[k]
    ensures |Elements(s)| == |s|
  {
    if s != [] {
      ElementsSize(s[1..]);
      ElementsHas(s[1..], s[0]);
    }
  }

  /** Distinct senders below n are fewer than n if one index is missing. */
  lemma SendersFit(senders: seq<nat>, n: nat, missing: nat)
    requires missing < n && missing !in senders
    requires forall k :: 0 <= k < |senders| ==> senders[k] < n
    requires forall j, k :: 0 <= j < k < |senders| ==> senders[j] != senders[k]
    ensures |senders| < n
  {
    ElementsSize(senders);
    BelowSize(n);
    forall x | x in Elements(senders) ensures x in Below(n) - {missing} {
      ElementsHas(senders, x);
      BelowHas(n, x);
    }
    BelowHas(n, missing);
    SubsetSize(Elements(senders), Below(n) - {missing});
  }

  lemma RoomForError(r: Round, i: nat)
    requires Inv(r) && i < |r.workers| && r.workers[i].SendingError?
    ensures Next(r, SendError(i)).Some?
  {
    NonePending(r.workers);
    assert r.main.Waiting?;
    var senders := seq(|r.errCh|, k requires 0 <= k < |r.errCh| => r.errCh[k].0);
    forall k | 0 <= k < |senders| ensures senders[k] < |r.workers| && senders[k] != i {
      assert SentError(r.workers, r.errCh[k].0).Some?;
    }
    SendersFit(senders, |r.workers|, i);
  }

  /** Under any schedule, a worker that has an error can send it: the channel is open and has room. */
  lemma NoWorkerBlocks(n: nat, steps: seq<Step>, i: nat)
    requires Run(Begin(n), steps).Some? && i < |Run(Begin(n), steps).value.workers|
    requires Run(Begin(n), steps).value.workers[i].SendingError?
    ensures Next(Run(Begin(n), steps).value, SendError(i)).Some?
  {
    BeginInv(n);
    RunKeepsInv(Begin(n), steps);
    RoomForError(Run(Begin(n), steps).value, i);
  }

  /** Wait passes only once all workers are over, and the call returns nil exactly when all succeeded;
      otherwise it returns the error of one of them. */
  lemma RoundResult(n: nat, steps: seq<Step>)
    requires Run(Begin(n), steps).Some?
    ensures var r := Run(Begin(n), steps).value;
            && |r.workers| == n
            && (!r.main.Waiting? ==> forall i :: 0 <= i < n ==> r.workers[i].Over?)
            && (r.main.Returned? ==>
                  && (r.main.result == None <==> forall i :: 0 <= i < n ==> r.workers[i] == Over(None))
                  && (r.main.result.Some? ==> exists i :: 0 <= i < n && r.workers[i] == Over(r.main.result)))
  {
    BeginInv(n);
    RunKeepsInv(Begin(n), steps);
    NonePending(Run(Begin(n), steps).value.workers);
  }

  lemma CanGoOn(r: Round)
    requires Inv(r) && !r.main.Returned?
    ensures exists step :: Next(r, step).Some?
  {
    NonePending(r.workers);
    if i :| 0 <= i < |r.workers| && !r.workers[i].Over? {
      match r.workers[i]
      case Working => assert Next(r, Finish(i, None)).Some?;
      case SendingError(_) => RoomForError(r, i);
      case Leaving(_) => assert Next(r, WgDone(i)).Some?;
    } else {
      match r.main
      case Waiting => assert Next(r, WaitPasses).Some?;
      case Closing => assert Next(r, CloseCh).Some?;
      case Receiving => assert Next(r, Receive).Some?;
    }
  }

  /** No schedule gets stuck before the call returns. */
  lemma AlwaysProgress(n: nat, steps: seq<Step>)
    requires Run(Begin(n), steps).Some? && !Run(Begin(n), steps).value.main.Returned?
    ensures exists step :: Next(Run(Begin(n), steps).value, step).Some?
  {
    BeginInv(n);
    RunKeepsInv(Begin(n), steps);
    CanGoOn(Run(Begin(n), steps).value);
  }

  /** How many steps a worker and the caller have left at most. */
  function LeftOf(w: Worker): nat {
    match w
    case Working => 3
    case SendingError(_) => 2
    case Leaving(_) => 1
    case Over(_) => 0
  }

  function LeftIn(workers: seq<Worker>): nat {
    if workers == [] then 0 else LeftOf(workers[0]) + LeftIn(workers[1..])
  }

  function Left(r: Round): nat {
    LeftIn(r.workers) + match r.main case Waiting => 3 case Closing => 2 case Receiving => 1 case Returned(_) => 0
  }

  lemma {:induction false} LeftInUpdate(workers: seq<Worker>, i: nat, w: Worker)
    requires i < |workers|
    ensures LeftIn(workers[i := w]) == LeftIn(workers) - LeftOf(workers[i]) + LeftOf(w)
  {
    if i > 0 {
      LeftInUpdate(workers[1..], i - 1, w);
      assert workers[i := w][1..] == workers[1..][i - 1 := w];
    } else {
      assert workers[0 := w][1..] == workers[1..];
    }
  }

  lemma StepLeaves(r: Round, step: Step)
    requires Next(r, step).Some?
    ensures Left(Next(r, step).value) < Left(r)
  {
    hide LeftIn;
    var t := Next(r, step).value;
    match step {
      case Finish(i, failed) => LeftInUpdate(r.workers, i, t.workers[i]);
      case SendError(i) => LeftInUpdate(r.workers, i, t.workers[i]);
      case WgDone(i) => LeftInUpdate(r.workers, i, t.workers[i]);
      case _ =>
    }
  }

  lemma {:induction false} RunLeaves(r: Round, steps: seq<Step>)
    requires Run(r, steps).Some?
    ensures |steps| + Left(Run(r, steps).value) <= Left(r)
    decreases |steps|
  {
    if steps != [] {
      StepLeaves(r, steps[0]);
      RunLeaves(Next(r, steps[0]).value, steps[1..]);
    }
  }

  lemma {:induction false} LeftAtStart(workers: seq<Worker>)
    requires forall i :: 0 <= i < |workers| ==> workers[i] == Working
    ensures LeftIn(workers) == 3 * |workers|
  {
    if workers != [] { LeftAtStart(workers[1..]); }
  }

  /** Every schedule is short, so one that cannot be continued has come to the return of the call. */
  lemma ScheduleEnds(n: nat, steps: seq<Step>)
    requires Run(Begin(n), steps).Some?
    ensures |steps| <= 3 * n + 3
    ensures (forall step :: Next(Run(Begin(n), steps).value, step).None?) ==> Run(Begin(n), steps).value.main.Returned?
  {
    LeftAtStart(Begin(n).workers);
    RunLeaves(Begin(n), steps);
    if !Run(Begin(n), steps).value.main.Returned? {
      AlwaysProgress(n, steps);
    }
  }

  // ---------- the two rounds of UploadConfig ----------

  /** The hosts files first; the netem workers exist once that call has returned nil. */
  datatype Upload = Upload(hosts: Round, netem: Option<Round>)

  datatype UploadStep = Hosts(step: Step) | StartNetem | Netem(step: Step)

  function NextUpload(u: Upload, step: UploadStep): Option<Upload> {
    match step
    case Hosts(s) =>
      (match Next(u.hosts, s) case Some(r) => Some(u.(hosts := r)) case None => None)
    case StartNetem =>
      if u.netem.None? && u.hosts.main == Returned(None) then Some(u.(netem := Some(Begin(|u.hosts.workers|)))) else None
    case Netem(s) =>
      if u.netem.None? then None
      else (match Next(u.netem.value, s) case Some(r) => Some(u.(netem := Some(r))) case None => None)
  }

  function RunUpload(u: Upload, steps: seq<UploadStep>): Option<Upload>
    decreases |steps|
  {
    if steps == [] then Some(u)
    else
      match NextUpload(u, steps[0])
      case Some(u') => RunUpload(u', steps[1..])
      case None => None
  }

  ghost predicate UploadInv(u: Upload) {
    && Inv(u.hosts)
    && (u.netem.Some? ==> Inv(u.netem.value) && u.hosts.main == Returned(None) && |u.netem.value.workers| == |u.hosts.workers|)
  }

  lemma {:induction false} RunUploadKeepsInv(u: Upload, steps: seq<UploadStep>)
    requires UploadInv(u) && RunUpload(u, steps).Some?
    ensures UploadInv(RunUpload(u, steps).value) && |RunUpload(u, steps).value.hosts.workers| == |u.hosts.workers|
    decreases |steps|
  {
    if steps != [] {
      var t := NextUpload(u, steps[0]).value;
      match steps[0] {
        case Hosts(s) =>
          StepKeepsInv(u.hosts, s);
          if u.netem.Some? { OverIsFinal(u.hosts, s); }
        case StartNetem => BeginInv(|u.hosts.workers|);
        case Netem(s) => StepKeepsInv(u.netem.value, s);
      }
      RunUploadKeepsInv(t, steps[1..]);
    }
  }

  /** A round that has returned nil takes no further step. */
  lemma OverIsFinal(r: Round, step: Step)
    requires Inv(r) && r.main == Returned(None)
    ensures Next(r, step) == None
  {
  }

  /** Under any schedule, a netem worker exists only if every hosts file was written, and the whole
      upload has returned nil exactly when all workers of both rounds succeeded. */
  lemma UploadResult(n: nat, steps: seq<UploadStep>)
    requires RunUpload(Upload(Begin(n), None), steps).Some?
    ensures var u := RunUpload(Upload(Begin(n), None), steps).value;
            && |u.hosts.workers| == n
            && (u.netem.Some? ==> |u.netem.value.workers| == n && forall i :: 0 <= i < n ==> u.hosts.workers[i] == Over(None))
            && (u.netem.Some? && u.netem.value.main.Returned? ==>
                  (u.netem.value.main.result == None <==> forall i :: 0 <= i < n ==> u.netem.value.workers[i] == Over(None)))
  {
    BeginInv(n);
    RunUploadKeepsInv(Upload(Begin(n), None), steps);
  }

  /** How many steps an upload has left at most. */
  function LeftOfUpload(u: Upload): nat {
    Left(u.hosts) + match u.netem case None => 3 * |u.hosts.workers| + 4 case Some(r) => Left(r)
  }

  /** The call has returned, from the first round with an error or from the second one. */
  predicate UploadReturned(u: Upload) {
    (u.hosts.main.Returned? && u.hosts.main.result.Some?) || (u.netem.Some? && u.netem.value.main.Returned?)
  }

  lemma StepLeavesUpload(u: Upload, step: UploadStep)
    requires NextUpload(u, step).Some?
    ensures LeftOfUpload(NextUpload(u, step).value) < LeftOfUpload(u)
    ensures |NextUpload(u, step).value.hosts.workers| == |u.hosts.workers|
  {
    hide Left;
    match step {
      case Hosts(s) => StepLeaves(u.hosts, s);
      case StartNetem => LeftAtBegin(|u.hosts.workers|);
      case Netem(s) => StepLeaves(u.netem.value, s);
    }
  }

  lemma LeftAtBegin(n: nat)
    ensures Left(Begin(n)) == 3 * n + 3
  {
    LeftAtStart(Begin(n).workers);
  }

  lemma {:induction false} RunLeavesUpload(u: Upload, steps: seq<UploadStep>)
    requires RunUpload(u, steps).Some?
    ensures |steps| + LeftOfUpload(RunUpload(u, steps).value) <= LeftOfUpload(u)
    decreases |steps|
  {
    if steps != [] {
      StepLeavesUpload(u, steps[0]);
      RunLeavesUpload(NextUpload(u, steps[0]).value, steps[1..]);
    }
  }

  lemma UploadCanGoOn(u: Upload)
    requires UploadInv(u) && !UploadReturned(u)
    ensures exists step :: NextUpload(u, step).Some?
  {
    if u.netem.Some? {
      CanGoOn(u.netem.value);
      var s :| Next(u.netem.value, s).Some?;
      assert NextUpload(u, Netem(s)).Some?;
    } else if u.hosts.main.Returned? {
      assert NextUpload(u, StartNetem).Some?;
    } else {
      CanGoOn(u.hosts);
      var s :| Next(u.hosts, s).Some?;
      assert NextUpload(u, Hosts(s)).Some?;
    }
  }

  /** Every schedule of the upload is short, and one that cannot be continued has come to its return. */
  lemma UploadEnds(n: nat, steps: seq<UploadStep>)
    requires RunUpload(Upload(Begin(n), None), steps).Some?
    ensures |steps| <= 6 * n + 7
    ensures (forall step :: NextUpload(RunUpload(Upload(Begin(n), None), steps).value, step).None?) ==>
              UploadReturned(RunUpload(Upload(Begin(n), None), steps).value)
  {
    var u := Upload(Begin(n), None);
    LeftAtBegin(n);
    RunLeavesUpload(u, steps);
    BeginInv(n);
    RunUploadKeepsInv(u, steps);
    if !UploadReturned(RunUpload(u, steps).value) {
      UploadCanGoOn(RunUpload(u, steps).value);
    }
  }

  // ---------- what the calls of the workers returned ----------

  /** What the call of a worker has returned, if it has. */
  function CallResult(w: Worker): Option<Option<int>> {
    match w
    case Working => None
    case SendingError(err) => Some(Some(err))
    case Leaving(failed) => Some(failed)
    case Over(failed) => Some(failed)
  }

  lemma StepReturns(r: Round, step: Step, i: nat)
    requires Next(r, step).Some? && i < |r.workers|
    ensures |Next(r, step).value.workers| == |r.workers|
    ensures var w, now := r.workers[i], Next(r, step).value.workers[i];
            if CallResult(w).Some? then CallResult(now) == CallResult(w) && !(step.Finish? && step.i == i)
            else if step.Finish? && step.i == i then CallResult(now) == Some(step.failed)
            else CallResult(now) == None
  {
  }

  /** What a worker carries is what its call has returned in the run, which is at most once. */
  lemma {:induction false} RunReturns(r: Round, steps: seq<Step>, i: nat)
    requires Run(r, steps).Some? && i < |r.workers|
    ensures |Run(r, steps).value.workers| == |r.workers|
    ensures var now := CallResult(Run(r, steps).value.workers[i]);
            && (CallResult(r.workers[i]).Some? ==> now == CallResult(r.workers[i]))
            && (forall k :: 0 <= k < |steps| && steps[k].Finish? && steps[k].i == i ==> now == Some(steps[k].failed))
            && (CallResult(r.workers[i]).None? && now.Some? ==> exists k :: 0 <= k < |steps| && steps[k] == Finish(i, now.value))
    decreases |steps|
  {
    if steps != [] {
      var t, rest := Next(r, steps[0]).value, steps[1..];
      StepReturns(r, steps[0], i);
      RunReturns(t, rest, i);
      hide Next, Run, CallResult;
      assert forall k :: 0 < k < |steps| ==> steps[k] == rest[k - 1];
      assert forall k :: 0 <= k < |rest| ==> rest[k] == steps[k + 1];
    }
  }

  lemma {:induction false} FinishersExist(r: Round, steps: seq<Step>)
    requires Run(r, steps).Some?
    ensures forall k :: 0 <= k < |steps| && steps[k].Finish? ==> steps[k].i < |r.workers|
    decreases |steps|
  {
    if steps != [] {
      StepKeepsSize(r, steps[0]);
      FinishersExist(Next(r, steps[0]).value, steps[1..]);
      assert forall k :: 0 < k < |steps| ==> steps[k] == steps[1..][k - 1];
    }
  }

  lemma StepKeepsSize(r: Round, step: Step)
    requires Next(r, step).Some?
    ensures |Next(r, step).value.workers| == |r.workers| && (step.Finish? ==> step.i < |r.workers|)
  {
  }

  /** Some worker's call has returned an error in the run. */
  predicate SomeFailed(steps: seq<Step>) {
    exists k :: 0 <= k < |steps| && steps[k].Finish? && steps[k].failed.Some?
  }

  /** The call for pod i has returned that. */
  predicate HasFinished(steps: seq<Step>, i: nat, failed: Option<int>) {
    Finish(i, failed) in steps
  }

  lemma WorkerFinished(n: nat, steps: seq<Step>, i: nat)
    requires Run(Begin(n), steps).Some? && i < n
    requires |Run(Begin(n), steps).value.workers| == n && Run(Begin(n), steps).value.workers[i].Over?
    ensures var failed := Run(Begin(n), steps).value.workers[i].failed;
            && HasFinished(steps, i, failed)
            && forall k :: 0 <= k < |steps| && steps[k].Finish? && steps[k].i == i ==> steps[k].failed == failed
  {
    RunReturns(Begin(n), steps, i);
    hide Run;
  }

  /** The call returns nil exactly if no worker's call has returned an error, and otherwise an error that
      one of them has returned; all of them have returned by then. */
  lemma RoundReturns(n: nat, steps: seq<Step>)
    requires Run(Begin(n), steps).Some? && Run(Begin(n), steps).value.main.Returned?
    ensures var result := Run(Begin(n), steps).value.main.result;
            && (result.None? <==> !SomeFailed(steps))
            && (result.None? ==> forall i: nat :: i < n ==> HasFinished(steps, i, None))
            && (result.Some? ==> exists i: nat :: i < n && HasFinished(steps, i, result))
  {
    var r := Run(Begin(n), steps).value;
    RoundResult(n, steps);
    FinishersExist(Begin(n), steps);
    forall i: nat | i < n
      ensures HasFinished(steps, i, r.workers[i].failed)
      ensures forall k :: 0 <= k < |steps| && steps[k].Finish? && steps[k].i == i ==> steps[k].failed == r.workers[i].failed
    {
      WorkerFinished(n, steps, i);
    }
    if r.main.result.Some? {
      var i :| 0 <= i < n && r.workers[i] == Over(r.main.result);
      assert HasFinished(steps, i, r.main.result);
      var k :| 0 <= k < |steps| && steps[k] == Finish(i, r.main.result);
      assert SomeFailed(steps);
    } else {
      forall i: nat | i < n ensures HasFinished(steps, i, None) { assert HasFinished(steps, i, r.workers[i].failed); }
      forall k | 0 <= k < |steps| && steps[k].Finish? ensures steps[k].failed.None? {
        assert r.workers[steps[k].i] == Over(None);
      }
    }
  }

  function HostSteps(steps: seq<UploadStep>): seq<Step> {
    if steps == [] then []
    else (if steps[0].Hosts? then [steps[0].step] else []) + HostSteps(steps[1..])
  }

  function NetemSteps(steps: seq<UploadStep>): seq<Step> {
    if steps == [] then []
    else (if steps[0].Netem? then [steps[0].step] else []) + NetemSteps(steps[1..])
  }

  lemma RunOneMore(r: Round, step: Step, rest: seq<Step>)
    requires Next(r, step).Some?
    ensures Run(r, [step] + rest) == Run(Next(r, step).value, rest)
  {
    assert ([step] + rest)[1..] == rest;
  }

  /** The steps of each round are a run of that round alone. */
  lemma {:induction false} UploadIsTwoRounds(u: Upload, steps: seq<UploadStep>)
    requires RunUpload(u, steps).Some?
    ensures var t := RunUpload(u, steps).value;
            && Run(u.hosts, HostSteps(steps)) == Some(t.hosts)
            && (u.netem.Some? ==> t.netem.Some? && Run(u.netem.value, NetemSteps(steps)) == t.netem)
            && (u.netem.None? && t.netem.Some? ==> exists n :: Run(Begin(n), NetemSteps(steps)) == t.netem)
            && (t.netem.None? ==> NetemSteps(steps) == [])
    decreases |steps|
  {
    if steps != [] {
      var t, rest := NextUpload(u, steps[0]).value, steps[1..];
      UploadIsTwoRounds(t, rest);
      match steps[0] {
        case Hosts(s) =>
          RunOneMore(u.hosts, s, HostSteps(rest));
          assert [] + NetemSteps(rest) == NetemSteps(rest);
        case StartNetem =>
          assert [] + HostSteps(rest) == HostSteps(rest) && [] + NetemSteps(rest) == NetemSteps(rest);
          assert t.netem == Some(Begin(|u.hosts.workers|));
        case Netem(s) =>
          assert [] + HostSteps(rest) == HostSteps(rest);
          RunOneMore(u.netem.value, s, NetemSteps(rest));
      }
    }
  }

  /** What the upload returns. */
  function ResultOf(u: Upload): Option<int>
    requires UploadReturned(u)
  {
    if u.hosts.main.Returned? && u.hosts.main.result.Some? then u.hosts.main.result else u.netem.value.main.result
  }

  /** The second round starts only if no write of the first one has failed, and the upload returns nil
      exactly if no worker's call in either round has returned an error, else such an error. */
  lemma UploadReturns(n: nat, steps: seq<UploadStep>)
    requires RunUpload(Upload(Begin(n), None), steps).Some?
    ensures var u := RunUpload(Upload(Begin(n), None), steps).value;
            && (u.netem.Some? ==> !SomeFailed(HostSteps(steps)) && forall i: nat :: i < n ==> HasFinished(HostSteps(steps), i, None))
            && (UploadReturned(u) ==>
                  && (ResultOf(u).None? <==> !SomeFailed(HostSteps(steps)) && !SomeFailed(NetemSteps(steps)))
                  && (ResultOf(u).Some? ==>
                        (exists i: nat :: i < n && HasFinished(HostSteps(steps), i, ResultOf(u)))
                        || (exists i: nat :: i < n && HasFinished(NetemSteps(steps), i, ResultOf(u)))))
  {
    var u := RunUpload(Upload(Begin(n), None), steps).value;
    UploadIsTwoRounds(Upload(Begin(n), None), steps);
    BeginInv(n);
    RunUploadKeepsInv(Upload(Begin(n), None), steps);
    hide RunUpload, Run, HostSteps, NetemSteps, SomeFailed, HasFinished;
    if u.hosts.main.Returned? { RoundReturns(n, HostSteps(steps)); }
    if u.netem.Some? {
      var m :| Run(Begin(m), NetemSteps(steps)) == u.netem;
      RoundSize(m, NetemSteps(steps));
      if u.netem.value.main.Returned? { RoundReturns(m, NetemSteps(steps)); }
    } else if UploadReturned(u) {
      NoneFailed();
    }
  }

  /** The same of the second round alone. */
  lemma NetemReturns(n: nat, steps: seq<UploadStep>)
    requires var u := RunUpload(Upload(Begin(n), None), steps);
             u.Some? && u.value.netem.Some? && u.value.netem.value.main.Returned?
    ensures var result := RunUpload(Upload(Begin(n), None), steps).value.netem.value.main.result;
            && (result.None? ==> forall i: nat :: i < n ==> HasFinished(NetemSteps(steps), i, None))
            && (result.Some? ==> exists i: nat :: i < n && HasFinished(NetemSteps(steps), i, result))
  {
    UploadIsTwoRounds(Upload(Begin(n), None), steps);
    BeginInv(n);
    RunUploadKeepsInv(Upload(Begin(n), None), steps);
    hide RunUpload, Run, HostSteps, NetemSteps, SomeFailed, HasFinished;
    var m :| Run(Begin(m), NetemSteps(steps)) == RunUpload(Upload(Begin(n), None), steps).value.netem;
    RoundSize(m, NetemSteps(steps));
    RoundReturns(m, NetemSteps(steps));
  }

  lemma NoneFailed()
    ensures !SomeFailed([])
  {
  }

  lemma RoundSize(n: nat, steps: seq<Step>)
    requires Run(Begin(n), steps).Some?
    ensures |Run(Begin(n), steps).value.workers| == n
  {
    BeginInv(n);
    RunKeepsInv(Begin(n), steps);
  }
}
