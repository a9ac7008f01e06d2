/** sim/kubernetes/engine.go: the loops that wait for deployments to be ready or to disappear, seen over
    the events that the cluster sends. */
module WaitLoops {
  import opened Prelude

  datatype Status = True | False | Unknown
  datatype ConditionKind = PodScheduled | PodReady | OtherKind
  datatype Condition = Condition(kind: ConditionKind, status: Status, reason: string)
  datatype Waiting = Waiting(reason: string, message: string)
  datatype Pod = Pod(name: string, conditions: seq<Condition>, containers: seq<Option<Waiting>>)

  datatype PodStatus = Ready | NotReady | Failing(message: string)

  /** `strings.Contains` */
  predicate Contains(s: string, part: string) {
    part <= s || (s != "" && Contains(s[1..], part))
  }

  predicate NotScheduled(c: Condition) {
    c.kind == PodScheduled && c.status == False
  }

  predicate SaysReady(c: Condition) {
    c.kind == PodReady && c.status == True
  }

  predicate InError(w: Option<Waiting>) {
    w.Some? && Contains(w.value.reason, "Error")
  }

  /** The index of the first condition that decides, or the number of conditions. */
  function FirstDeciding(conditions: seq<Condition>): (i: nat)
    ensures i <= |conditions|
    ensures forall j :: 0 <= j < i ==> !NotScheduled(conditions[j]) && !SaysReady(conditions[j])
    ensures i < |conditions| ==> NotScheduled(conditions[i]) || SaysReady(conditions[i])
  {
    if conditions == [] || NotScheduled(conditions[0]) || SaysReady(conditions[0]) then 0
    else FirstDeciding(conditions[1..]) + 1
  }

  function FirstInError(containers: seq<Option<Waiting>>): (i: nat)
    ensures i <= |containers|
    ensures forall j :: 0 <= j < i ==> !InError(containers[j])
    ensures i < |containers| ==> InError(containers[i])
  {
    if containers == [] || InError(containers[0]) then 0 else FirstInError(containers[1..]) + 1
  }

  /** The first deciding condition wins over later ones and over the containers. */
  function StatusOf(pod: Pod): PodStatus {
    var i, k := FirstDeciding(pod.conditions), FirstInError(pod.containers);
    if i < |pod.conditions| then
      if SaysReady(pod.conditions[i]) then Ready else Failing("scheduled failed: " + pod.conditions[i].reason)
    else if k < |pod.containers| then Failing(pod.containers[k].value.message)
    else NotReady
  }

  predicate OccursAt(s: string, part: string, k: nat) {
    k + |part| <= |s| && s[k..k + |part|] == part
  }

  /** `Contains` finds the part wherever it stands. */
  lemma {:induction false} ContainsIff(s: string, part: string)
    ensures Contains(s, part) <==> exists k: nat :: OccursAt(s, part, k)
  {
    if part <= s {
      assert OccursAt(s, part, 0);
    } else if s != "" {
      ContainsIff(s[1..], part);
      if k: nat :| OccursAt(s[1..], part, k) { assert OccursAt(s, part, k + 1); }
      if k: nat :| OccursAt(s, part, k) {
        assert k > 0;
        assert OccursAt(s[1..], part, k - 1);
      }
    }
  }

  /** The i-th condition says that the pod could not be scheduled, and none before it says that or that the
      pod is ready. */
  predicate SchedulingFailedAt(conditions: seq<Condition>, i: nat) {
    && i < |conditions| && conditions[i].kind == PodScheduled && conditions[i].status == False
    && (forall j :: 0 <= j < i ==>
          !(conditions[j].kind == PodReady && conditions[j].status == True)
          && !(conditions[j].kind == PodScheduled && conditions[j].status == False))
  }

  /** The i-th condition says that the pod is ready, and none before it that it could not be scheduled. */
  predicate ReadyAt(conditions: seq<Condition>, i: nat) {
    && i < |conditions| && conditions[i].kind == PodReady && conditions[i].status == True
    && (forall j :: 0 <= j < i ==> !(conditions[j].kind == PodScheduled && conditions[j].status == False))
  }

  /** The k-th container is the first that waits for a reason with "Error" in it. */
  predicate WaitsInErrorAt(containers: seq<Option<Waiting>>, k: nat) {
    && k < |containers| && containers[k].Some? && Contains(containers[k].value.reason, "Error")
    && (forall j :: 0 <= j < k ==> containers[j].None? || !Contains(containers[j].value.reason, "Error"))
  }

  /** Which conditions and containers decide, and with which message. */
  lemma StatusIff(pod: Pod)
    ensures StatusOf(pod) == Ready <==> exists i: nat :: ReadyAt(pod.conditions, i)
    ensures forall i: nat :: SchedulingFailedAt(pod.conditions, i) ==>
              StatusOf(pod) == Failing("scheduled failed: " + pod.conditions[i].reason)
    ensures forall k: nat :: WaitsInErrorAt(pod.containers, k) && Undecided(pod.conditions) ==>
              StatusOf(pod) == Failing(pod.containers[k].value.message)
    ensures StatusOf(pod).Failing? <==>
              || (exists i: nat :: SchedulingFailedAt(pod.conditions, i))
              || (Undecided(pod.conditions) && exists k: nat :: WaitsInErrorAt(pod.containers, k))
    ensures StatusOf(pod) == NotReady <==>
              Undecided(pod.conditions) && forall k: nat :: !WaitsInErrorAt(pod.containers, k)
  {
    hide Contains;
    var i, k := FirstDeciding(pod.conditions), FirstInError(pod.containers);
    if i < |pod.conditions| {
      assert ReadyAt(pod.conditions, i) || SchedulingFailedAt(pod.conditions, i);
    }
    if k < |pod.containers| {
      assert WaitsInErrorAt(pod.containers, k);
    }
  }

  /** No condition says that the pod is ready or could not be scheduled. */
  predicate Undecided(conditions: seq<Condition>) {
    forall j :: 0 <= j < |conditions| ==>
      !(conditions[j].kind == PodReady && conditions[j].status == True)
      && !(conditions[j].kind == PodScheduled && conditions[j].status == False)
  }

  method CheckPodStatus(pod: Pod) returns (status: PodStatus)
    ensures status == StatusOf(pod)
    ensures status == Ready <==> exists i: nat :: ReadyAt(pod.conditions, i)
    ensures status == NotReady <==> Undecided(pod.conditions) && forall k: nat :: !WaitsInErrorAt(pod.containers, k)
    ensures forall i: nat :: SchedulingFailedAt(pod.conditions, i) ==>
              status == Failing("scheduled failed: " + pod.conditions[i].reason)
    ensures forall k: nat :: WaitsInErrorAt(pod.containers, k) && Undecided(pod.conditions) ==>
              status == Failing(pod.containers[k].value.message)
  {
    StatusIff(pod);
    for i := 0 to |pod.conditions|
      invariant forall j :: 0 <= j < i ==> !NotScheduled(pod.conditions[j]) && !SaysReady(pod.conditions[j])
    {
      var cond := pod.conditions[i];
      if NotScheduled(cond) {
        return Failing("scheduled failed: " + cond.reason);
      }
      if SaysReady(cond) {
        return Ready;
      }
    }
    for k := 0 to |pod.containers|
      invariant forall j :: 0 <= j < k ==> !InError(pod.containers[j])
    {
      if InError(pod.containers[k]) {
        return Failing(pod.containers[k].value.message);
      }
    }
    return NotReady;
  }

  // ---------- waiting for pods to be ready ----------

  datatype Outcome = Done(at: nat) | Failed(at: nat, message: string) | Blocked

  /** The distinct pods that have been seen ready in the first k events. */
  function ReadyPods(events: seq<Pod>, k: nat): set<string>
    requires k <= |events|
  {
    set i | 0 <= i < k && StatusOf(events[i]) == Ready :: events[i].name
  }

  /** How many there are after event i. */
  function CountAfter(events: seq<Pod>, i: nat): nat
    requires i < |events|
  {
    |ReadyPods(events, i + 1)|
  }

  /** Neither failing nor complete. */
  predicate GoesOn(events: seq<Pod>, len: nat, i: nat)
    requires i < |events|
  {
    !StatusOf(events[i]).Failing? && CountAfter(events, i) != len
  }

  /** Returns at the first event that brings the number of ready pods to `len`, or fails at the first
      failing pod, whichever comes first; with neither it stays blocked on the channel. */
  method WaitDeployment(events: seq<Pod>, len: nat) returns (outcome: Outcome)
    ensures match outcome
            case Done(at) =>
              at < |events| && !StatusOf(events[at]).Failing? && CountAfter(events, at) == len
              && forall i :: 0 <= i < at ==> GoesOn(events, len, i)
            case Failed(at, message) =>
              at < |events| && StatusOf(events[at]) == Failing(message)
              && forall i :: 0 <= i < at ==> GoesOn(events, len, i)
            case Blocked =>
              forall i :: 0 <= i < |events| ==> GoesOn(events, len, i)
  {
    hide StatusOf, ReadyPods;
    var readyMap: set<string> := {};
    NoneReady(events);
    for k := 0 to |events|
      invariant readyMap == ReadyPods(events, k)
      invariant forall i :: 0 <= i < k ==> GoesOn(events, len, i)
    {
      var status := CheckPodStatus(events[k]);
      if status.Failing? {
        return Failed(k, status.message);
      }
      ReadyNext(events, k);
      if status == Ready {
        readyMap := readyMap + {events[k].name};
      }
      if |readyMap| == len {
        return Done(k);
      }
    }
    return Blocked;
  }

  lemma NoneReady(events: seq<Pod>)
    ensures ReadyPods(events, 0) == {}
  {
  }

  lemma ReadyNext(events: seq<Pod>, k: nat)
    requires k < |events|
    ensures ReadyPods(events, k + 1)
            == if StatusOf(events[k]) == Ready then ReadyPods(events, k) + {events[k].name} else ReadyPods(events, k)
    ensures |ReadyPods(events, k)| <= CountAfter(events, k) <= |ReadyPods(events, k)| + 1
  {
    hide StatusOf;
    var before := ReadyPods(events, k);
    if StatusOf(events[k]) == Ready {
      var name := events[k].name;
      assert ReadyPods(events, k + 1) == before + {name};
      assert name in before ==> before + {name} == before;
    } else {
      assert ReadyPods(events, k + 1) == before;
    }
  }

  lemma {:induction false} CountMonotone(events: seq<Pod>, i: nat, j: nat)
    requires i <= j < |events|
    ensures CountAfter(events, i) <= CountAfter(events, j)
  {
    hide ReadyPods;
    if i < j {
      CountMonotone(events, i, j - 1);
      ReadyNext(events, j);
    }
  }

  /** The count misses no value on its way up. */
  lemma {:induction false} CountPasses(events: seq<Pod>, k: nat, len: nat) returns (j: nat)
    requires k < |events| && 1 <= len <= CountAfter(events, k)
    ensures j <= k && CountAfter(events, j) == len
  {
    hide ReadyPods, StatusOf;
    ReadyNext(events, k);
    if CountAfter(events, k) == len {
      j := k;
    } else if k == 0 {
      NoneReady(events);
    } else {
      j := CountPasses(events, k - 1, len);
    }
  }

  /** The test for equality has held at some event up to k. */
  ghost predicate Passed(events: seq<Pod>, len: nat, k: nat)
    requires k < |events|
  {
    exists j :: 0 <= j <= k && CountAfter(events, j) == len
  }

  /** The test for equality misses nothing, that is, it has held by event k exactly when at least `len`
      pods are ready, if and only if pods are awaited or the first event is not a ready pod. */
  lemma EqualityIsThreshold(events: seq<Pod>, len: nat)
    requires events != []
    ensures (forall k :: 0 <= k < |events| ==> (Passed(events, len, k) <==> CountAfter(events, k) >= len))
            <==> (len >= 1 || StatusOf(events[0]) != Ready)
  {
    hide StatusOf, ReadyPods;
    ReadyNext(events, 0);
    NoneReady(events);
    if len >= 1 || StatusOf(events[0]) != Ready {
      forall k | 0 <= k < |events| ensures Passed(events, len, k) <==> CountAfter(events, k) >= len {
        if Passed(events, len, k) {
          var j :| 0 <= j <= k && CountAfter(events, j) == len;
          CountMonotone(events, j, k);
        }
        if CountAfter(events, k) >= len {
          var j := 0;
          if len > 0 { j := CountPasses(events, k, len); }
          assert CountAfter(events, j) == len;
        }
      }
    } else {
      assert CountAfter(events, 0) == 1;
      assert !Passed(events, len, 0) && CountAfter(events, 0) >= len;
    }
  }

  // ---------- waiting for deployments to disappear ----------

  datatype WatchEvent = Tick | Deployment(name: string, available: int, unavailable: int) | Other

  predicate IsGone(e: WatchEvent) {
    e.Deployment? && e.available == 0 && e.unavailable == 0
  }

  /** The deployments named in the first k events, and those seen there without replicas. */
  function Seen(events: seq<WatchEvent>, k: nat): set<string>
    requires k <= |events|
  {
    set i | 0 <= i < k && events[i].Deployment? :: events[i].name
  }

  function SeenGone(events: seq<WatchEvent>, k: nat): set<string>
    requires k <= |events|
  {
    set i | 0 <= i < k && IsGone(events[i]) :: events[i].name
  }

  /** After event i, every deployment named so far has been seen without replicas at some point. */
  predicate AllGone(events: seq<WatchEvent>, i: nat)
    requires i < |events|
  {
    Seen(events, i + 1) == SeenGone(events, i + 1)
  }

  predicate KeepsWaiting(events: seq<WatchEvent>, i: nat)
    requires i < |events|
  {
    !events[i].Tick? && (events[i].Deployment? ==> !AllGone(events, i))
  }

  /** Nil at the first deployment event after which all named deployments have been seen gone, or a timeout
      at the first tick, whichever comes first. */
  ghost predicate IsDeletion(events: seq<WatchEvent>, outcome: Outcome) {
    match outcome
    case Done(at) =>
      at < |events| && events[at].Deployment? && AllGone(events, at)
      && forall i :: 0 <= i < at ==> KeepsWaiting(events, i)
    case Failed(at, message) =>
      at < |events| && events[at].Tick? && message == "timeout"
      && forall i :: 0 <= i < at ==> KeepsWaiting(events, i)
    case Blocked =>
      forall i :: 0 <= i < |events| ==> KeepsWaiting(events, i)
  }

  method WaitDeletion(events: seq<WatchEvent>) returns (outcome: Outcome)
    ensures IsDeletion(events, outcome)
  {
    hide Seen, SeenGone;
    var count: set<string> := {};
    var countDeleted: set<string> := {};
    NothingSeen(events);
    for k := 0 to |events|
      invariant count == Seen(events, k) && countDeleted == SeenGone(events, k)
      invariant forall i :: 0 <= i < k ==> KeepsWaiting(events, i)
    {
      SeenNext(events, k);
      match events[k]
      case Tick => return Failed(k, "timeout");
      case Other =>
      case Deployment(name, available, unavailable) =>
        count := count + {name};
        if available == 0 && unavailable == 0 {
          countDeleted := countDeleted + {name};
        }
        GoneBySize(events, k);
        if |countDeleted| >= |count| {
          return Done(k);
        }
    }
    return Blocked;
  }

  lemma NothingSeen(events: seq<WatchEvent>)
    ensures Seen(events, 0) == {} == SeenGone(events, 0)
  {
  }

  lemma SeenNext(events: seq<WatchEvent>, k: nat)
    requires k < |events|
    ensures Seen(events, k + 1)
            == if events[k].Deployment? then Seen(events, k) + {events[k].name} else Seen(events, k)
    ensures SeenGone(events, k + 1)
            == if IsGone(events[k]) then SeenGone(events, k) + {events[k].name} else SeenGone(events, k)
  {
  }

  /** What was seen gone was seen, so comparing the sizes compares the sets. */
  lemma GoneBySize(events: seq<WatchEvent>, i: nat)
    requires i < |events|
    ensures SeenGone(events, i + 1) <= Seen(events, i + 1)
    ensures |SeenGone(events, i + 1)| >= |Seen(events, i + 1)| <==> AllGone(events, i)
  {
    SubsetSize(SeenGone(events, i + 1), Seen(events, i + 1));
  }

  /** After event k, some deployment that has been named has not been reported without replicas. */
  predicate SomeLeft(events: seq<WatchEvent>, k: nat)
    requires k < |events|
  {
    exists i :: 0 <= i <= k && events[i].Deployment? && forall j :: 0 <= j <= k ==> events[j] != Deployment(events[i].name, 0, 0)
  }

  lemma SomeLeftIff(events: seq<WatchEvent>, k: nat)
    requires k < |events|
    ensures SomeLeft(events, k) <==> !AllGone(events, k)
  {
    GoneBySize(events, k);
    if SomeLeft(events, k) {
      var i :| 0 <= i <= k && events[i].Deployment? && forall j :: 0 <= j <= k ==> events[j] != Deployment(events[i].name, 0, 0);
      assert events[i].name in Seen(events, k + 1);
      NamedGone(events, k + 1, events[i].name);
    } else if !AllGone(events, k) {
      var name :| name in Seen(events, k + 1) && name !in SeenGone(events, k + 1);
      var i :| 0 <= i < k + 1 && events[i].Deployment? && events[i].name == name;
      NamedGone(events, k + 1, name);
    }
  }

  /** A nil return means that each deployment named so far has been reported with no replica at all, neither
      available nor unavailable, and that at every deployment event before one had yet to be. */
  lemma NilMeansNoReplicas(events: seq<WatchEvent>, outcome: Outcome)
    requires IsDeletion(events, outcome) && outcome.Done?
    ensures !SomeLeft(events, outcome.at)
    ensures forall k :: 0 <= k < outcome.at && events[k].Deployment? ==> SomeLeft(events, k)
  {
    SomeLeftIff(events, outcome.at);
    forall k | 0 <= k < outcome.at && events[k].Deployment? ensures SomeLeft(events, k) {
      assert KeepsWaiting(events, k);
      SomeLeftIff(events, k);
    }
  }

  lemma NamedGone(events: seq<WatchEvent>, n: nat, name: string)
    requires n <= |events|
    ensures name in SeenGone(events, n) <==> exists j :: 0 <= j < n && events[j] == Deployment(name, 0, 0)
  {
    if j :| 0 <= j < n && events[j] == Deployment(name, 0, 0) { assert IsGone(events[j]) && events[j].name == name; }
  }

  /** The events leave no choice. */
  lemma DeletionIsUnique(events: seq<WatchEvent>, a: Outcome, b: Outcome)
    requires IsDeletion(events, a) && IsDeletion(events, b)
    ensures a == b
  {
    hide AllGone;
    var n := |events|;
    var i := match a case Done(at) => at case Failed(at, _) => at case Blocked => n;
    var j := match b case Done(at) => at case Failed(at, _) => at case Blocked => n;
    assert i < n ==> !KeepsWaiting(events, i);
    assert j < n ==> !KeepsWaiting(events, j);
  }

  /** The events up to i let the loop return although one of the wanted deployments has not been named. */
  predicate IsEarly(events: seq<WatchEvent>, wanted: set<string>, i: nat)
    requires i < |events|
  {
    && (forall j :: 0 <= j < i ==> !events[j].Tick?)
    && events[i].Deployment? && AllGone(events, i) && !(wanted <= Seen(events, i + 1))
  }

  lemma SeenGrows(events: seq<WatchEvent>, i: nat, j: nat)
    requires i <= j <= |events|
    ensures Seen(events, i) <= Seen(events, j)
  {
  }

  /** A nil return means that given deployments have been seen gone if and only if the events never show
      all named deployments gone, before the timeout, while one of the given ones has yet to be named:
      the loop waits only for the deployments that it has heard of. */
  lemma NilCoversIff(events: seq<WatchEvent>, outcome: Outcome, wanted: set<string>)
    requires IsDeletion(events, outcome)
    ensures (outcome.Done? ==> wanted <= SeenGone(events, outcome.at + 1))
            <==> forall i :: 0 <= i < |events| ==> !IsEarly(events, wanted, i)
  {
    hide Seen, SeenGone;
    if outcome.Done? && !(wanted <= SeenGone(events, outcome.at + 1)) {
      forall j | 0 <= j < outcome.at ensures !events[j].Tick? { assert KeepsWaiting(events, j); }
      assert IsEarly(events, wanted, outcome.at);
    }
    if i :| 0 <= i < |events| && IsEarly(events, wanted, i) {
      assert !KeepsWaiting(events, i);
      assert outcome.Done? && outcome.at <= i;
      SeenGrows(events, outcome.at + 1, i + 1);
    }
  }

  /** So it can return before a deployment is gone: the first event is of another one. */
  lemma NilCanComeEarly(a: string, b: string, outcome: Outcome)
    requires a != b && IsDeletion([Deployment(a, 0, 0), Deployment(b, 1, 0)], outcome)
    ensures outcome == Done(0) && b !in Seen([Deployment(a, 0, 0), Deployment(b, 1, 0)], 1)
  {
    var events := [Deployment(a, 0, 0), Deployment(b, 1, 0)];
    NothingSeen(events);
    SeenNext(events, 0);
    assert AllGone(events, 0);
    DeletionIsUnique(events, outcome, Done(0));
  }
}
