/** sim/docker/io.go: the goroutines of monitorContainer and the readers of the statistics as a state
    machine, without the memory that they share. */
module DockerProtocol {

  const COLUMNS := 5

  /** Where a goroutine is: waiting for a sample, appending its values one column after the other,
      before the lock, or holding the lock before and after publishing. */
  datatype Pc = Idle | Appending(sample: seq<int>, next: nat) | WantsLock | Locked | Published | Gone

  datatype Holder = Nobody | Goroutine(g: nat) | Reader

  /** What the schedule lets happen next. `room` is the spare capacity that the runtime may choose. */
  datatype Action =
    | Start(name: string)
    | Decode(g: nat, sample: seq<int>)
    | DecodeFails(g: nat)
    | AppendNext(g: nat, room: nat)
    | Lock(g: nat)
    | Publish(g: nat)
    | Unlock(g: nat)
    | ReaderLock
    | ReaderUnlock

  /** Goroutine g published when it had `count` complete samples. */
  datatype Taken = Taken(g: nat, count: nat)

  /** `records` are the samples each goroutine has decoded; `entries` tells for each name in the shared
      map which publication put it there. */
  datatype View = View(names: seq<string>, pcs: seq<Pc>, records: seq<seq<seq<int>>>, holder: Holder,
                       published: seq<Taken>, entries: map<string, nat>)

  const START := View([], [], [], Nobody, [], map[])

  predicate Sized(v: View) {
    |v.names| == |v.pcs| == |v.records|
  }

  function At(v: View, g: nat, pc: Pc): View
    requires g < |v.pcs|
  {
    v.(pcs := v.pcs[g := pc])
  }

  /** The effect of an action; one whose turn it is not changes nothing. */
  function Next(v: View, action: Action): (w: View)
    requires Sized(v)
    ensures Sized(w) && |v.names| <= |w.names|
  {
    match action
    case Start(name) => v.(names := v.names + [name], pcs := v.pcs + [Idle], records := v.records + [[]])
    case Decode(g, sample) =>
      if g < |v.pcs| && v.pcs[g].Idle? && |sample| == COLUMNS
      then At(v, g, Appending(sample, 0)).(records := v.records[g := v.records[g] + [sample]]) else v
    case DecodeFails(g) =>
      if g < |v.pcs| && v.pcs[g].Idle? then At(v, g, Gone) else v
    case AppendNext(g, _) =>
      if g < |v.pcs| && v.pcs[g].Appending? then
        var next := v.pcs[g].next + 1;
        At(v, g, if next < COLUMNS then Appending(v.pcs[g].sample, next) else WantsLock)
      else v
    case Lock(g) =>
      if g < |v.pcs| && v.pcs[g].WantsLock? && v.holder.Nobody? then At(v, g, Locked).(holder := Goroutine(g)) else v
    case Publish(g) =>
      if g < |v.pcs| && v.pcs[g].Locked?
      then At(v, g, Published).(published := v.published + [Taken(g, |v.records[g]|)],
                                entries := v.entries[v.names[g] := |v.published|])
      else v
    case Unlock(g) =>
      if g < |v.pcs| && v.pcs[g].Published? then At(v, g, Idle).(holder := Nobody) else v
    case ReaderLock => if v.holder.Nobody? then v.(holder := Reader) else v
    case ReaderUnlock => if v.holder.Reader? then v.(holder := Nobody) else v
  }

  function Run(v: View, schedule: seq<Action>): (w: View)
    requires Sized(v)
    ensures Sized(w)
  {
    if schedule == [] then v
    else Next(Run(v, schedule[..|schedule| - 1]), schedule[|schedule| - 1])
  }

  lemma RunLast(v: View, before: seq<Action>, last: Action)
    requires Sized(v)
    ensures Run(v, before + [last]) == Next(Run(v, before), last)
  {
    hide Next;
    assert (before + [last])[..|before|] == before;
  }

  lemma RunConcatStep(v: View, a: seq<Action>, b: seq<Action>, last: Action)
    requires Sized(v) && Run(v, a + b) == Run(Run(v, a), b)
    ensures Run(v, a + (b + [last])) == Run(Run(v, a), b + [last])
  {
    hide *;
    assert a + (b + [last]) == a + b + [last];
    RunLast(v, a + b, last);
    RunLast(Run(v, a), b, last);
  }

  lemma {:induction false} RunConcat(v: View, a: seq<Action>, b: seq<Action>)
    requires Sized(v)
    ensures Run(v, a + b) == Run(Run(v, a), b)
  {
    if b == [] {
      assert a + b == a;
    } else {
      var before, last := b[..|b| - 1], b[|b| - 1];
      RunConcat(v, a, before);
      RunConcatStep(v, a, before, last);
      hide Run;
      assert before + [last] == b;
    }
  }

  lemma RunOne(v: View, action: Action)
    requires Sized(v)
    ensures Run(v, [action]) == Next(v, action)
  {
    assert [action][..0] == [];
  }

  // ---------- what only grows, and what the lock keeps still ----------

  /** Goroutines keep their names and the samples they have, and publications stay. */
  ghost predicate Grown(v: View, w: View) {
    && Sized(v) && Sized(w) && v.names <= w.names && v.published <= w.published
    && forall g :: 0 <= g < |v.records| ==> v.records[g] <= w.records[g]
  }

  lemma {:induction false} RunGrows(v: View, schedule: seq<Action>)
    requires Sized(v)
    ensures Grown(v, Run(v, schedule))
  {
    if schedule != [] {
      RunGrows(v, schedule[..|schedule| - 1]);
      StepGrows(Run(v, schedule[..|schedule| - 1]), schedule[|schedule| - 1]);
    }
  }

  lemma StepGrows(v: View, action: Action)
    requires Sized(v)
    ensures Grown(v, Next(v, action))
  {
  }

  /** Only the goroutine that holds the lock is between locking and unlocking. */
  ghost predicate Exclusive(v: View) {
    forall g :: 0 <= g < |v.pcs| ==> (v.pcs[g].Locked? || v.pcs[g].Published? <==> v.holder == Goroutine(g))
  }

  /** While the reader has the lock and does not give it back, the shared map does not change. */
  lemma {:induction false} UnderReader(v: View, schedule: seq<Action>)
    requires Sized(v) && Exclusive(v) && v.holder.Reader? && ReaderUnlock !in schedule
    ensures var w := Run(v, schedule);
            Exclusive(w) && w.holder.Reader? && w.published == v.published && w.entries == v.entries
  {
    if schedule != [] {
      var before, last := schedule[..|schedule| - 1], schedule[|schedule| - 1];
      UnderReader(v, before);
      StepUnderReader(Run(v, before), last);
    }
  }

  lemma StepUnderReader(v: View, action: Action)
    requires Sized(v) && Exclusive(v) && v.holder.Reader? && action != ReaderUnlock
    ensures var w := Next(v, action);
            Exclusive(w) && w.holder.Reader? && w.published == v.published && w.entries == v.entries
  {
  }

  // ---------- what every interleaving keeps ----------

  /** How often goroutine g has published. */
  function Times(published: seq<Taken>, g: nat): nat {
    if published == [] then 0
    else Times(published[..|published| - 1], g) + if published[|published| - 1].g == g then 1 else 0
  }

  /** The samples decoded and not yet published. */
  function Outstanding(pc: Pc): nat {
    if pc.Appending? || pc.WantsLock? || pc.Locked? then 1 else 0
  }

  /** Goroutine g publishes after each sample, and the k-th time with its first k samples. */
  ghost predicate InStep(v: View, g: nat)
    requires Sized(v) && g < |v.pcs|
  {
    && Times(v.published, g) + Outstanding(v.pcs[g]) == |v.records[g]|
    && (v.pcs[g].Locked? || v.pcs[g].Published? <==> v.holder == Goroutine(g))
  }

  /** A publication holds as many samples as its goroutine had published by then, and its name has an entry. */
  ghost predicate IsCounted(v: View, p: nat)
    requires p < |v.published|
  {
    var t := v.published[p];
    t.g < |v.names| && t.count == Times(v.published[..p + 1], t.g) && v.names[t.g] in v.entries
  }

  /** The entry of a name is the last publication under that name. */
  ghost predicate IsLast(v: View, name: string, p: nat) {
    && p < |v.published| && v.published[p].g < |v.names| && v.names[v.published[p].g] == name
    && forall q :: p < q < |v.published| ==> v.published[q].g < |v.names| && v.names[v.published[q].g] != name
  }

  ghost predicate Inv(v: View) {
    && Sized(v)
    && (forall g :: 0 <= g < |v.pcs| ==> InStep(v, g))
    && (forall p :: 0 <= p < |v.published| ==> IsCounted(v, p))
    && (forall name :: name in v.entries ==> IsLast(v, name, v.entries[name]))
    && (v.holder.Goroutine? ==> v.holder.g < |v.pcs|)
  }

  lemma TimesNext(published: seq<Taken>, t: Taken, g: nat)
    ensures Times(published + [t], g) == Times(published, g) + if t.g == g then 1 else 0
  {
  }

  lemma {:induction false} NeverPublished(published: seq<Taken>, g: nat)
    requires forall p :: 0 <= p < |published| ==> published[p].g != g
    ensures Times(published, g) == 0
  {
    if published != [] {
      NeverPublished(published[..|published| - 1], g);
    }
  }

  lemma StepKeepsInv(v: View, action: Action)
    requires Inv(v)
    ensures Inv(Next(v, action))
  {
    if Next(v, action) != v {
      match action
      case Start(name) => StartKeepsInv(v, name);
      case Decode(g, sample) =>
        assert InStep(v, g);
        MoveKeepsInv(v, g, Appending(sample, 0), v.records[g] + [sample], v.holder);
      case DecodeFails(g) =>
        assert InStep(v, g);
        MoveKeepsInv(v, g, Gone, v.records[g], v.holder);
      case AppendNext(g, _) =>
        assert InStep(v, g);
        MoveKeepsInv(v, g, Next(v, action).pcs[g], v.records[g], v.holder);
      case Lock(g) => MoveKeepsInv(v, g, Locked, v.records[g], Goroutine(g));
      case Publish(g) => PublishKeepsInv(v, g);
      case Unlock(g) =>
        assert InStep(v, g);
        MoveKeepsInv(v, g, Idle, v.records[g], Nobody);
      case ReaderLock => HolderKeepsInv(v, Reader);
      case ReaderUnlock => HolderKeepsInv(v, Nobody);
    }
  }

  lemma StartKeepsInv(v: View, name: string)
    requires Inv(v)
    ensures Inv(Next(v, Start(name)))
  {
    hide Times;
    var w := Next(v, Start(name));
    forall p | 0 <= p < |v.published| ensures v.published[p].g < |v.names| && IsCounted(w, p) { assert IsCounted(v, p); }
    NeverPublished(v.published, |v.names|);
    forall g | 0 <= g < |w.pcs| ensures InStep(w, g) {
      if g < |v.pcs| { assert InStep(v, g); }
    }
    forall n | n in w.entries ensures IsLast(w, n, w.entries[n]) { assert IsLast(v, n, v.entries[n]); }
  }

  /** A goroutine that does not publish: it decodes at most one sample, and takes or leaves the lock. */
  lemma MoveKeepsInv(v: View, g: nat, pc: Pc, samples: seq<seq<int>>, next: Holder)
    requires Inv(v) && g < |v.pcs|
    requires |samples| - Outstanding(pc) == |v.records[g]| - Outstanding(v.pcs[g])
    requires pc.Locked? || pc.Published? <==> next == Goroutine(g)
    requires next == v.holder || (next == Goroutine(g) && v.holder.Nobody?) || (next.Nobody? && v.holder == Goroutine(g))
    ensures Inv(View(v.names, v.pcs[g := pc], v.records[g := samples], next, v.published, v.entries))
    ensures v.records[g := v.records[g]] == v.records
  {
    hide Times;
    var w := View(v.names, v.pcs[g := pc], v.records[g := samples], next, v.published, v.entries);
    forall h | 0 <= h < |w.pcs| ensures InStep(w, h) { assert InStep(v, h) && InStep(v, g); }
    forall p | 0 <= p < |w.published| ensures IsCounted(w, p) { assert IsCounted(v, p); }
    forall n | n in w.entries ensures IsLast(w, n, w.entries[n]) { assert IsLast(v, n, v.entries[n]); }
  }

  lemma HolderKeepsInv(v: View, next: Holder)
    requires Inv(v) && !v.holder.Goroutine? && !next.Goroutine?
    ensures Inv(v.(holder := next))
  {
    hide Times;
    var w := v.(holder := next);
    forall h | 0 <= h < |w.pcs| ensures InStep(w, h) { assert InStep(v, h); }
    forall p | 0 <= p < |w.published| ensures IsCounted(w, p) { assert IsCounted(v, p); }
    forall n | n in w.entries ensures IsLast(w, n, w.entries[n]) { assert IsLast(v, n, v.entries[n]); }
  }

  lemma PublishKeepsInv(v: View, g: nat)
    requires Inv(v) && g < |v.pcs| && v.pcs[g].Locked?
    ensures Inv(Next(v, Publish(g)))
  {
    hide Times;
    var w := Next(v, Publish(g));
    var t := Taken(g, |v.records[g]|);
    assert InStep(v, g);
    TimesNext(v.published, t, g);
    forall h | 0 <= h < |w.pcs| ensures InStep(w, h) {
      assert InStep(v, h);
      TimesNext(v.published, t, h);
    }
    forall p | 0 <= p < |w.published| ensures IsCounted(w, p) {
      if p < |v.published| {
        assert IsCounted(v, p);
        assert w.published[..p + 1] == v.published[..p + 1];
      } else {
        assert w.published[..p + 1] == w.published;
      }
    }
    forall n | n in w.entries ensures IsLast(w, n, w.entries[n]) {
      if n != v.names[g] { assert IsLast(v, n, v.entries[n]); }
    }
  }

  lemma {:induction false} RunKeepsInv(v: View, schedule: seq<Action>)
    requires Inv(v)
    ensures Inv(Run(v, schedule))
  {
    if schedule != [] {
      var before := schedule[..|schedule| - 1];
      RunKeepsInv(v, before);
      StepKeepsInv(Run(v, before), schedule[|schedule| - 1]);
    }
  }

  /** No update is lost and none is published twice: under any schedule, the k-th publication of a
      goroutine holds its first k samples, and all its samples are published but the one that it is
      still working on. At most one goroutine holds the lock, and none while a reader does. */
  lemma PublishedInStep(schedule: seq<Action>, g: nat)
    requires g < |Run(START, schedule).pcs|
    ensures var v := Run(START, schedule);
            && Times(v.published, g) == |v.records[g]| - Outstanding(v.pcs[g])
            && (forall p :: 0 <= p < |v.published| && v.published[p].g == g ==>
                  v.published[p].count == Times(v.published[..p + 1], g))
            && (v.pcs[g].Locked? || v.pcs[g].Published? <==> v.holder == Goroutine(g))
  {
    RunKeepsInv(START, schedule);
    var v := Run(START, schedule);
    assert InStep(v, g);
    forall p | 0 <= p < |v.published| && v.published[p].g == g
      ensures v.published[p].count == Times(v.published[..p + 1], g)
    {
      assert IsCounted(v, p);
    }
  }

  lemma {:induction false} LastTime(published: seq<Taken>, g: nat, p: nat)
    requires p < |published| && published[p].g == g
    requires forall q :: p < q < |published| ==> published[q].g != g
    ensures Times(published[..p + 1], g) == Times(published, g)
    decreases |published|
  {
    var n := |published| - 1;
    if p < n {
      LastTime(published[..n], g, p);
      assert published[..n][..p + 1] == published[..p + 1];
    } else {
      assert published[..p + 1] == published;
    }
  }

  /** The entry of a name that only one goroutine has is as fresh as it can be: it holds all the samples
      that the goroutine has decoded, except the one that it is still working on. The entry exists as
      soon as there is such a sample. */
  lemma EntryIsFresh(schedule: seq<Action>, g: nat)
    requires g < |Run(START, schedule).names|
    requires var v := Run(START, schedule); forall h :: 0 <= h < |v.names| && h != g ==> v.names[h] != v.names[g]
    ensures var v := Run(START, schedule); var complete := |v.records[g]| - Outstanding(v.pcs[g]);
            && (v.names[g] in v.entries <==> complete > 0)
            && (v.names[g] in v.entries ==>
                  v.entries[v.names[g]] < |v.published| && v.published[v.entries[v.names[g]]] == Taken(g, complete))
  {
    RunKeepsInv(START, schedule);
    var v := Run(START, schedule);
    hide *;
    FreshIn(v, g, v.names[g]);
  }

  lemma FreshIn(v: View, g: nat, name: string)
    requires Inv(v) && g < |v.names| && name == v.names[g]
    requires forall h :: 0 <= h < |v.names| && h != g ==> v.names[h] != name
    ensures var complete := |v.records[g]| - Outstanding(v.pcs[g]);
            && (name in v.entries <==> complete > 0)
            && (name in v.entries ==>
                  v.entries[name] < |v.published| && v.published[v.entries[name]] == Taken(g, complete))
  {
    hide Times;
    assert InStep(v, g);
    if name in v.entries {
      var p := v.entries[name];
      assert IsLast(v, name, p) && IsCounted(v, p);
      LastTime(v.published, g, p);
      PositiveTimes(v.published[..p + 1], g);
    } else {
      forall p | 0 <= p < |v.published| ensures v.published[p].g != g { assert IsCounted(v, p); }
      NeverPublished(v.published, g);
    }
  }

  lemma PositiveTimes(published: seq<Taken>, g: nat)
    requires published != [] && published[|published| - 1].g == g
    ensures Times(published, g) > 0
  {
  }

  // ---------- closing ----------

  /** The closer of a goroutine waits until it is over; closing the stream makes its next read fail. */
  predicate CloserReturns(v: View, g: nat) {
    g < |v.pcs| && v.pcs[g].Gone?
  }

  lemma StepAfterCloser(v: View, g: nat, action: Action)
    requires Sized(v) && CloserReturns(v, g)
    ensures var w := Next(v, action);
            && CloserReturns(w, g) && w.records[g] == v.records[g] && w.names[g] == v.names[g] && v.published <= w.published
            && forall p :: |v.published| <= p < |w.published| ==> w.published[p].g != g
  {
  }

  /** Once the closer of a goroutine has returned, it publishes nothing any more, however the run goes on. */
  lemma {:induction false} NothingAfterCloser(v: View, g: nat, schedule: seq<Action>)
    requires Sized(v) && CloserReturns(v, g)
    ensures var w := Run(v, schedule);
            && CloserReturns(w, g) && w.records[g] == v.records[g] && w.names[g] == v.names[g] && v.published <= w.published
            && forall p :: |v.published| <= p < |w.published| ==> w.published[p].g != g
  {
    if schedule != [] {
      NothingAfterCloser(v, g, schedule[..|schedule| - 1]);
      StepAfterCloser(Run(v, schedule[..|schedule| - 1]), g, schedule[|schedule| - 1]);
    }
  }

  /** What the closer of all goroutines leaves is final: without a new goroutine, neither the shared map nor
      a record changes any more. */
  lemma {:induction false} NothingAfterClosers(v: View, schedule: seq<Action>)
    requires Sized(v) && forall g :: 0 <= g < |v.pcs| ==> CloserReturns(v, g)
    requires forall i :: 0 <= i < |schedule| ==> !schedule[i].Start?
    ensures Run(v, schedule) == v.(holder := Run(v, schedule).holder)
  {
    if schedule != [] {
      var before, last := schedule[..|schedule| - 1], schedule[|schedule| - 1];
      NothingAfterClosers(v, before);
      var w := Run(v, before);
      forall g | 0 <= g < |w.pcs| ensures w.pcs[g].Gone? { assert CloserReturns(v, g); }
      assert !last.Start?;
    }
  }

  /** The entry of a closed container then holds all of its samples, and keeps them. */
  lemma ClosedEntryIsComplete(before: seq<Action>, after: seq<Action>, g: nat)
    requires CloserReturns(Run(START, before), g)
    requires var w := Run(START, before + after);
             g < |w.names| && forall h :: 0 <= h < |w.names| && h != g ==> w.names[h] != w.names[g]
    ensures var v, w := Run(START, before), Run(START, before + after);
            && w.records[g] == v.records[g] && w.names[g] == v.names[g]
            && (w.names[g] in w.entries <==> v.records[g] != [])
            && (w.names[g] in w.entries ==>
                  w.entries[w.names[g]] < |w.published| && w.published[w.entries[w.names[g]]] == Taken(g, |v.records[g]|))
  {
    var v := Run(START, before);
    RunConcat(START, before, after);
    NothingAfterCloser(v, g, after);
    EntryIsFresh(before + after, g);
  }

  // ---------- the records are what was decoded ----------

  /** The samples that the schedule lets goroutine g decode, in order: those that come while it waits for
      one, and have five values. */
  function DecodedBy(schedule: seq<Action>, g: nat): seq<seq<int>> {
    if schedule == [] then []
    else
      var before, last := schedule[..|schedule| - 1], schedule[|schedule| - 1];
      var v := Run(START, before);
      DecodedBy(before, g)
      + if last.Decode? && last.g == g && g < |v.pcs| && v.pcs[g] == Idle && |last.sample| == 5 then [last.sample] else []
  }

  lemma StepRecords(v: View, action: Action, g: nat)
    requires Sized(v)
    ensures var was, now := RecordOf(v, g), RecordOf(Next(v, action), g);
            now == if action.Decode? && action.g == g && g < |v.pcs| && v.pcs[g] == Idle && |action.sample| == 5
                   then was + [action.sample] else was
  {
  }

  function RecordOf(v: View, g: nat): seq<seq<int>> {
    if g < |v.records| then v.records[g] else []
  }

  /** Under any schedule, the record of a goroutine is the samples that it has decoded, as they came. */
  lemma {:induction false} RecordsAreDecoded(schedule: seq<Action>, g: nat)
    ensures RecordOf(Run(START, schedule), g) == DecodedBy(schedule, g)
  {
    if schedule != [] {
      var before, last := schedule[..|schedule| - 1], schedule[|schedule| - 1];
      RecordsAreDecoded(before, g);
      StepRecords(Run(START, before), last, g);
      hide Next, RecordOf;
    }
  }
}
