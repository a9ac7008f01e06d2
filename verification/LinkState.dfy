/** sim/kubernetes/engine.go: cutting and restoring links with iptables rules in the pods. */
module LinkState {
  import opened Prelude
  import opened Text

  datatype Pod = Pod(name: string, node: string, ip: string)

  /** The first pod with the label, as an index. */
  function FindPod(pods: seq<Pod>, node: string): (found: Option<nat>)
    ensures found.Some? ==> found.value < |pods| && pods[found.value].node == node
    ensures found.Some? ==> forall i :: 0 <= i < found.value ==> pods[i].node != node
    ensures found.None? ==> forall i :: 0 <= i < |pods| ==> pods[i].node != node
  {
    if pods == [] then None
    else if pods[0].node == node then Some(0)
    else match FindPod(pods[1..], node) case Some(i) => Some(i + 1) case None => None
  }

  // ---------- the command line and the shell ----------

  function DropCommand(ip: string): string {
    Join(["iptables", "-I", "OUTPUT", "-d", ip, "-j", "DROP"], " ")
  }

  function DropCommands(ips: seq<string>): seq<string> {
    seq(|ips|, i requires 0 <= i < |ips| => DropCommand(ips[i]))
  }

  /** What is given to `sh -c`. */
  function DropLine(ips: seq<string>): string {
    Join(DropCommands(ips), " && ")
  }

  /** How the shell reads a line of insertions joined by `&&`: the addresses to drop, in order. */
  function ReadDrops(ws: seq<string>): Option<seq<string>>
    decreases |ws|
  {
    if ws == [] then Some([])
    else if |ws| < 7 || ws[..4] != ["iptables", "-I", "OUTPUT", "-d"] || ws[5..7] != ["-j", "DROP"] then None
    else if |ws| == 7 then Some([ws[4]])
    else if ws[7] != "&&" || |ws| == 8 then None
    else match ReadDrops(ws[8..]) case Some(rest) => Some([ws[4]] + rest) case None => None
  }

  lemma DropWords(ip: string)
    requires IsWord(ip)
    ensures Split(DropCommand(ip), ' ') == ["iptables", "-I", "OUTPUT", "-d", ip, "-j", "DROP"]
  {
    SplitJoin(["iptables", "-I", "OUTPUT", "-d", ip, "-j", "DROP"], ' ');
  }

  /** The words of two commands joined by `&&`. */
  lemma SplitAnd(a: string, b: string)
    ensures Split(a + " && " + b, ' ') == Split(a, ' ') + ["&&"] + Split(b, ' ')
  {
    assert a + " && " + b == a + " " + ("&&" + " " + b);
    SplitConcat(a, "&&" + " " + b, ' ');
    SplitConcat("&&", b, ' ');
    SplitSingle("&&", ' ');
  }

  /** The shell reads back the addresses that were printed. */
  lemma {:induction false} ReadDropLine(ips: seq<string>)
    requires forall i :: 0 <= i < |ips| ==> IsWord(ips[i])
    ensures ReadDrops(Words(Split(DropLine(ips), ' '))) == Some(ips)
    ensures ips != [] ==> |Words(Split(DropLine(ips), ' '))| >= 7
  {
    if |ips| == 1 {
      OneDrop(ips[0]);
      assert DropLine(ips) == DropCommand(ips[0]) && ips == [ips[0]];
    } else if ips != [] {
      ReadDropLine(ips[1..]);
      assert DropCommands(ips)[1..] == DropCommands(ips[1..]);
      assert DropLine(ips) == DropCommand(ips[0]) + " && " + DropLine(ips[1..]);
      hide *;
      MoreDrops(ips[0], DropLine(ips[1..]));
      assert ips == [ips[0]] + ips[1..];
    }
  }

  lemma OneDrop(ip: string)
    requires IsWord(ip)
    ensures Words(Split(DropCommand(ip), ' ')) == ["iptables", "-I", "OUTPUT", "-d", ip, "-j", "DROP"]
    ensures ReadDrops(Words(Split(DropCommand(ip), ' '))) == Some([ip])
  {
    var first := ["iptables", "-I", "OUTPUT", "-d", ip, "-j", "DROP"];
    DropWords(ip);
    WordsAll(first);
    hide Words, Split, DropCommand;
    ReadOne(first, ip);
  }

  /** One more command in front of a line that is read. */
  lemma MoreDrops(ip: string, rest: string)
    requires IsWord(ip) && Words(Split(rest, ' ')) != [] && ReadDrops(Words(Split(rest, ' '))).Some?
    ensures var ws := Words(Split(DropCommand(ip) + " && " + rest, ' '));
            |ws| >= 7 && ReadDrops(ws) == Some([ip] + ReadDrops(Words(Split(rest, ' '))).value)
  {
    var first := ["iptables", "-I", "OUTPUT", "-d", ip, "-j", "DROP"];
    DropWords(ip);
    SplitAnd(DropCommand(ip), rest);
    WordsConcat(first + ["&&"], Split(rest, ' '));
    WordsAll(first + ["&&"]);
    hide Words, Split, DropCommand, ReadDrops;
    ReadMore(first, ip, Words(Split(rest, ' ')));
  }

  lemma ReadOne(first: seq<string>, ip: string)
    requires first == ["iptables", "-I", "OUTPUT", "-d", ip, "-j", "DROP"]
    ensures ReadDrops(first) == Some([ip])
  {
  }

  lemma ReadMore(first: seq<string>, ip: string, rest: seq<string>)
    requires first == ["iptables", "-I", "OUTPUT", "-d", ip, "-j", "DROP"] && rest != [] && ReadDrops(rest).Some?
    ensures ReadDrops(first + ["&&"] + rest) == Some([ip] + ReadDrops(rest).value)
  {
  }

  // ---------- the engine ----------

  /** What the cluster makes of an Exec: how many of the commands it ran, and whether it reported success.
      Success means that all of them ran; a failure may come after any number. */
  datatype Outcome = Outcome(ran: nat, ok: bool)

  datatype Result = Success | UnknownDistant(node: string) | UnknownSource(node: string) | UnknownNode(node: string) | ExecFailed

  datatype Call = Disconnect(src: string, targets: seq<string>, outcome: Outcome) | Reconnect(node: string, outcome: Outcome)

  /** The addresses of the targets, or the first one that is unknown. */
  function TargetIps(pods: seq<Pod>, targets: seq<string>): (seq<string>, Option<string>) {
    if targets == [] then ([], None)
    else
      var (before, unknown) := TargetIps(pods, targets[..|targets| - 1]);
      var last := targets[|targets| - 1];
      if unknown.Some? then (before, unknown)
      else match FindPod(pods, last) case Some(i) => (before + [pods[i].ip], None) case None => (before, Some(last))
  }

  /** `-I` puts each address before the earlier ones. */
  function Inserted(chain: seq<string>, ips: seq<string>): seq<string>
    decreases |ips|
  {
    if ips == [] then chain else Inserted([ips[0]] + chain, ips[1..])
  }

  function ChainOf(chains: map<string, seq<string>>, name: string): seq<string> {
    if name in chains then chains[name] else []
  }

  /** How many of the commands of a call take effect. */
  function Applied(outcome: Outcome, commands: nat): (n: nat)
    ensures n <= commands
  {
    if outcome.ok || outcome.ran > commands then commands else outcome.ran
  }

  /** A call changes the chain of its source, provided that all its nodes are known. */
  function Effect(pods: seq<Pod>, chains: map<string, seq<string>>, call: Call): map<string, seq<string>> {
    match call
    case Disconnect(src, targets, outcome) =>
      (var (ips, unknown) := TargetIps(pods, targets);
       match FindPod(pods, src)
       case None => chains
       case Some(i) =>
         if unknown.Some? then chains
         else chains[pods[i].name := Inserted(ChainOf(chains, pods[i].name), ips[..Applied(outcome, |ips|)])])
    case Reconnect(node, outcome) =>
      (match FindPod(pods, node)
       case None => chains
       case Some(i) => if Applied(outcome, 1) == 1 then chains[pods[i].name := []] else chains)
  }

  /** Some pod has the label. */
  predicate Known(pods: seq<Pod>, node: string) {
    exists i :: 0 <= i < |pods| && pods[i].node == node
  }

  predicate AllKnown(pods: seq<Pod>, targets: seq<string>) {
    forall k :: 0 <= k < |targets| ==> Known(pods, targets[k])
  }

  /** The node is the first of the targets that no pod has as its label. */
  predicate IsFirstUnknown(pods: seq<Pod>, targets: seq<string>, node: string) {
    exists k :: (0 <= k < |targets| && targets[k] == node && !Known(pods, node) && AllKnown(pods, targets[..k]))
  }

  /** What the caller is told: the first unknown target, or else an unknown source, or else how the
      cluster fared. */
  predicate IsReported(pods: seq<Pod>, call: Call, r: Result) {
    match call
    case Disconnect(src, targets, outcome) =>
      (match r
       case UnknownDistant(node) => IsFirstUnknown(pods, targets, node)
       case UnknownSource(node) => AllKnown(pods, targets) && node == src && !Known(pods, src)
       case Success => AllKnown(pods, targets) && Known(pods, src) && outcome.ok
       case ExecFailed => AllKnown(pods, targets) && Known(pods, src) && !outcome.ok
       case UnknownNode(_) => false)
    case Reconnect(node, outcome) =>
      (match r
       case UnknownNode(n) => n == node && !Known(pods, node)
       case Success => Known(pods, node) && outcome.ok
       case ExecFailed => Known(pods, node) && !outcome.ok
       case _ => false)
  }

  /** Only one result can be reported. */
  lemma ReportIsUnique(pods: seq<Pod>, call: Call, a: Result, b: Result)
    requires IsReported(pods, call, a) && IsReported(pods, call, b)
    ensures a == b
  {
    forall x, y | a == UnknownDistant(x) && b == UnknownDistant(y) ensures x == y {
      FirstUnknownIsUnique(pods, call.targets, x, y);
    }
  }

  lemma FirstUnknownIsUnique(pods: seq<Pod>, targets: seq<string>, a: string, b: string)
    requires IsFirstUnknown(pods, targets, a) && IsFirstUnknown(pods, targets, b)
    ensures a == b
  {
    var k :| 0 <= k < |targets| && targets[k] == a && !Known(pods, a) && AllKnown(pods, targets[..k]);
    var l :| 0 <= l < |targets| && targets[l] == b && !Known(pods, b) && AllKnown(pods, targets[..l]);
    hide AllKnown, Known;
    if k < l { KnownBefore(pods, targets, k, l); }
    if l < k { KnownBefore(pods, targets, l, k); }
  }

  lemma KnownBefore(pods: seq<Pod>, targets: seq<string>, k: nat, l: nat)
    requires k < l <= |targets| && AllKnown(pods, targets[..l])
    ensures Known(pods, targets[k])
  {
    assert targets[..l][k] == targets[k];
  }

  /** No pod drops anything. */
  function Empty(pods: seq<Pod>): map<string, seq<string>> {
    map i | 0 <= i < |pods| :: pods[i].name := []
  }

  class KubeEngine {
    var pods: seq<Pod>
    /** The OUTPUT chain of each pod: the destinations that it drops. */
    var chains: map<string, seq<string>>

    predicate Valid()
      reads this
    {
      && (forall i, j :: 0 <= i < j < |pods| ==> pods[i].name != pods[j].name)
      && (forall i :: 0 <= i < |pods| ==> pods[i].name in chains && IsWord(pods[i].ip))
    }

    /** The engine once the pods of a deployment are known; their chains are empty. */
    constructor (pods: seq<Pod>)
      requires forall i, j :: 0 <= i < j < |pods| ==> pods[i].name != pods[j].name
      requires forall i :: 0 <= i < |pods| ==> IsWord(pods[i].ip)
      ensures Valid() && this.pods == pods && chains == Empty(pods)
    {
      this.pods := pods;
      chains := Empty(pods);
    }

    /** Performs calls one after the other, going on after the ones that fail. */
    method Perform(calls: seq<Call>) returns (results: seq<Result>)
      requires Valid()
      modifies this`chains
      ensures Valid() && chains == RunCalls(pods, old(chains), calls)
      ensures |results| == |calls| && forall k :: 0 <= k < |calls| ==> IsReported(pods, calls[k], results[k])
    {
      hide IsReported, Effect;
      results := [];
      for k := 0 to |calls|
        invariant Valid() && chains == RunCalls(pods, old(chains), calls[..k])
        invariant |results| == k && forall l :: 0 <= l < k ==> IsReported(pods, calls[l], results[l])
      {
        assert calls[..k + 1][..k] == calls[..k];
        var r;
        match calls[k] {
          case Disconnect(src, targets, outcome) => r := Disconnect(src, targets, outcome);
          case Reconnect(node, outcome) => r := Reconnect(node, outcome);
        }
        results := results + [r];
      }
      assert calls[..|calls|] == calls;
    }

    /** Runs insertions in a pod: the shell stops after `outcome.ran` of the commands on its line. */
    method ExecDrops(pod: Pod, line: string, outcome: Outcome) returns (ok: bool)
      requires Valid() && pod in pods && ReadDrops(Words(Split(line, ' '))).Some?
      modifies this`chains
      ensures var ips := ReadDrops(Words(Split(line, ' '))).value;
              ok == outcome.ok
              && chains == old(chains)[pod.name := Inserted(old(chains)[pod.name], ips[..Applied(outcome, |ips|)])]
      ensures Valid()
    {
      var ips := ReadDrops(Words(Split(line, ' '))).value;
      chains := chains[pod.name := Inserted(chains[pod.name], ips[..Applied(outcome, |ips|)])];
      ok := outcome.ok;
    }

    /** Runs one command in a pod, which flushes its chain if it is run at all. */
    method ExecFlush(pod: Pod, cmd: seq<string>, outcome: Outcome) returns (ok: bool)
      requires Valid() && pod in pods && cmd == ["iptables", "-F"]
      modifies this`chains
      ensures ok == outcome.ok
              && chains == if Applied(outcome, 1) == 1 then old(chains)[pod.name := []] else old(chains)
      ensures Valid()
    {
      if Applied(outcome, 1) == 1 {
        chains := chains[pod.name := []];
      }
      ok := outcome.ok;
    }

    method Disconnect(src: string, targets: seq<string>, outcome: Outcome) returns (r: Result)
      requires Valid()
      modifies this`chains
      ensures Valid() && chains == Effect(pods, old(chains), Call.Disconnect(src, targets, outcome))
      ensures IsReported(pods, Call.Disconnect(src, targets, outcome), r)
    {
      hide TargetIps, Effect, IsReported, Inserted, Applied, DropCommands, DropCommand;
      assert TargetIps(pods, targets[..0]) == ([], None) && DropCommands([]) == [] by { FirstTargets(pods, targets); }
      var cmds: seq<string> := [];
      ghost var ips: seq<string> := [];
      for i := 0 to |targets|
        invariant Valid() && chains == old(chains)
        invariant TargetIps(pods, targets[..i]) == (ips, None) && cmds == DropCommands(ips)
        invariant forall k :: 0 <= k < |ips| ==> IsWord(ips[k])
      {
        var dst := FindPod(pods, targets[i]);
        if dst.None? {
          UnknownDecides(pods, chains, src, targets, outcome, i);
          return UnknownDistant(targets[i]);
        }
        var ip := pods[dst.value].ip;
        NextTarget(pods, targets, i, ips);
        cmds := cmds + [DropCommand(ip)];
        ips := ips + [ip];
      }
      assert targets[..|targets|] == targets;
      var srcPod := FindPod(pods, src);
      if srcPod.None? {
        SourceDecides(pods, chains, src, targets, outcome, ips);
        return UnknownSource(src);
      }
      SourceDecides(pods, chains, src, targets, outcome, ips);
      ReadDropLine(ips);
      var ok := ExecDrops(pods[srcPod.value], Join(cmds, " && "), outcome);
      return if ok then Success else ExecFailed;
    }

    method Reconnect(node: string, outcome: Outcome) returns (r: Result)
      requires Valid()
      modifies this`chains
      ensures Valid() && chains == Effect(pods, old(chains), Call.Reconnect(node, outcome))
      ensures IsReported(pods, Call.Reconnect(node, outcome), r)
    {
      var pod := FindPod(pods, node);
      if pod.None? {
        return UnknownNode(node);
      }
      var ok := ExecFlush(pods[pod.value], ["iptables", "-F"], outcome);
      return if ok then Success else ExecFailed;
    }
  }

  lemma {:induction false} UnknownStays(pods: seq<Pod>, targets: seq<string>, i: nat)
    requires i <= |targets| && TargetIps(pods, targets[..i]).1.Some?
    ensures TargetIps(pods, targets) == TargetIps(pods, targets[..i])
    decreases |targets| - i
  {
    if i < |targets| {
      assert targets[..i + 1][..i] == targets[..i];
      UnknownStays(pods, targets, i + 1);
    } else {
      assert targets[..i] == targets;
    }
  }

  lemma FirstTargets(pods: seq<Pod>, targets: seq<string>)
    ensures TargetIps(pods, targets[..0]) == ([], None) && DropCommands([]) == []
  {
  }

  lemma NextTarget(pods: seq<Pod>, targets: seq<string>, i: nat, ips: seq<string>)
    requires i < |targets| && TargetIps(pods, targets[..i]) == (ips, None) && FindPod(pods, targets[i]).Some?
    ensures var ip := pods[FindPod(pods, targets[i]).value].ip;
            TargetIps(pods, targets[..i + 1]) == (ips + [ip], None)
            && DropCommands(ips + [ip]) == DropCommands(ips) + [DropCommand(ip)]
  {
    hide DropCommand;
    assert targets[..i + 1][..i] == targets[..i];
  }

  /** The first unknown target decides what is reported, and nothing is done. */
  lemma UnknownDecides(pods: seq<Pod>, chains: map<string, seq<string>>, src: string, targets: seq<string>,
                       outcome: Outcome, i: nat)
    requires i < |targets| && TargetIps(pods, targets[..i]).1.None? && FindPod(pods, targets[i]).None?
    ensures IsReported(pods, Disconnect(src, targets, outcome), UnknownDistant(targets[i]))
    ensures Effect(pods, chains, Disconnect(src, targets, outcome)) == chains
  {
    TargetIpsOf(pods, targets[..i]);
    assert targets[..i + 1][..i] == targets[..i];
    UnknownStays(pods, targets, i + 1);
    assert IsFirstUnknown(pods, targets, targets[i]);
  }

  /** If all targets are known, the source and the cluster decide. */
  lemma SourceDecides(pods: seq<Pod>, chains: map<string, seq<string>>, src: string, targets: seq<string>,
                      outcome: Outcome, ips: seq<string>)
    requires TargetIps(pods, targets) == (ips, None)
    ensures var call := Call.Disconnect(src, targets, outcome);
            match FindPod(pods, src)
            case None => IsReported(pods, call, UnknownSource(src)) && Effect(pods, chains, call) == chains
            case Some(i) =>
              && IsReported(pods, call, if outcome.ok then Success else ExecFailed)
              && Effect(pods, chains, call)
                 == chains[pods[i].name := Inserted(ChainOf(chains, pods[i].name), ips[..Applied(outcome, |ips|)])]
  {
    TargetIpsOf(pods, targets);
    hide TargetIps, AllKnown, Applied, Inserted;
  }

  // ---------- whole sequences of calls ----------

  function RunCalls(pods: seq<Pod>, chains: map<string, seq<string>>, calls: seq<Call>): map<string, seq<string>> {
    if calls == [] then chains
    else Effect(pods, RunCalls(pods, chains, calls[..|calls| - 1]), calls[|calls| - 1])
  }

  /** The pods that the properties are about: no two share a name, a label or an address. */
  ghost predicate Separate(pods: seq<Pod>) {
    forall i, j :: 0 <= i < j < |pods| ==>
      pods[i].name != pods[j].name && pods[i].node != pods[j].node && pods[i].ip != pods[j].ip
  }

  /** The call inserts a rule in the pod of s that drops t: the shell comes as far as t. */
  predicate Cuts(pods: seq<Pod>, call: Call, s: string, t: string) {
    call.Disconnect? && call.src == s && AllKnown(pods, call.targets)
    && exists k :: (0 <= k < |call.targets| && call.targets[k] == t && (call.outcome.ok || k < call.outcome.ran))
  }

  /** The call flushes the rules of the pod of s. */
  predicate Restores(call: Call, s: string) {
    call.Reconnect? && call.node == s && (call.outcome.ok || call.outcome.ran >= 1)
  }

  /** Some call cuts the link and none after it restores it. */
  ghost predicate IsCut(pods: seq<Pod>, calls: seq<Call>, s: string, t: string) {
    exists c :: 0 <= c < |calls| && Cuts(pods, calls[c], s, t) && forall d :: c < d < |calls| ==> !Restores(calls[d], s)
  }

  /** No call restores the links of s. */
  predicate NeverRestored(calls: seq<Call>, s: string) {
    forall c :: 0 <= c < |calls| ==> !Restores(calls[c], s)
  }

  /** What pod i sends to pod j is dropped. */
  predicate Drops(pods: seq<Pod>, chains: map<string, seq<string>>, i: nat, j: nat)
    requires i < |pods| && j < |pods|
  {
    pods[j].ip in ChainOf(chains, pods[i].name)
  }

  lemma {:induction false} InsertedHas(chain: seq<string>, ips: seq<string>, ip: string)
    ensures ip in Inserted(chain, ips) <==> ip in chain || ip in ips
    decreases |ips|
  {
    if ips != [] {
      InsertedHas([ips[0]] + chain, ips[1..], ip);
      assert ips == [ips[0]] + ips[1..];
    }
  }

  lemma {:induction false} TargetIpsOf(pods: seq<Pod>, targets: seq<string>)
    ensures var (ips, unknown) := TargetIps(pods, targets);
            && (unknown.None? <==> AllKnown(pods, targets))
            && (unknown.None? ==> |ips| == |targets|)
            && (unknown.None? ==>
                  forall k :: 0 <= k < |targets| ==>
                    FindPod(pods, targets[k]).Some? && ips[k] == pods[FindPod(pods, targets[k]).value].ip)
  {
    if targets != [] {
      var before := targets[..|targets| - 1];
      TargetIpsOf(pods, before);
      assert AllKnown(pods, targets) <==> AllKnown(pods, before) && Known(pods, targets[|targets| - 1]) by {
        assert forall k :: 0 <= k < |before| ==> before[k] == targets[k];
      }
    }
  }

  /** A node is found at its own index. */
  lemma FindOwn(pods: seq<Pod>, i: nat)
    requires Separate(pods) && i < |pods|
    ensures FindPod(pods, pods[i].node) == Some(i)
  {
  }

  /** The source's own chain gets the addresses of the targets. */
  lemma OwnDisconnect(pods: seq<Pod>, chains: map<string, seq<string>>, call: Call, i: nat, j: nat)
    requires Separate(pods) && i < |pods| && j < |pods|
    requires call.Disconnect? && call.src == pods[i].node && AllKnown(pods, call.targets)
    ensures Drops(pods, Effect(pods, chains, call), i, j)
            <==> Cuts(pods, call, pods[i].node, pods[j].node) || Drops(pods, chains, i, j)
  {
    var chain := ChainOf(chains, pods[i].name);
    var (ips, unknown) := TargetIps(pods, call.targets);
    FindOwn(pods, i);
    TargetIpsOf(pods, call.targets);
    hide TargetIps, AllKnown, Inserted, Separate, FindPod;
    var n := Applied(call.outcome, |ips|);
    InsertedHas(chain, ips[..n], pods[j].ip);
    TargetsAndIps(pods, call.targets, n, j);
    assert Effect(pods, chains, call) == chains[pods[i].name := Inserted(chain, ips[..n])];
  }

  /** A cut of another source, or with an unknown node, leaves the chain alone. */
  lemma OtherDisconnect(pods: seq<Pod>, chains: map<string, seq<string>>, call: Call, i: nat, j: nat)
    requires Separate(pods) && i < |pods| && j < |pods|
    requires call.Disconnect? && (call.src != pods[i].node || !AllKnown(pods, call.targets))
    ensures Drops(pods, Effect(pods, chains, call), i, j) <==> Drops(pods, chains, i, j)
    ensures !Cuts(pods, call, pods[i].node, pods[j].node)
  {
    FindOwn(pods, i);
    TargetIpsOf(pods, call.targets);
    hide TargetIps, AllKnown, Inserted;
  }

  /** One call, seen from the chain of one pod. */
  lemma EffectOnChain(pods: seq<Pod>, chains: map<string, seq<string>>, call: Call, i: nat, j: nat)
    requires Separate(pods) && i < |pods| && j < |pods|
    ensures var s, t := pods[i].node, pods[j].node;
            Drops(pods, Effect(pods, chains, call), i, j)
            <==> if Restores(call, s) then false else Cuts(pods, call, s, t) || Drops(pods, chains, i, j)
  {
    if call.Reconnect? {
      FindOwn(pods, i);
    } else if call.src == pods[i].node && AllKnown(pods, call.targets) {
      hide Effect, Drops, Separate, AllKnown;
      OwnDisconnect(pods, chains, call, i, j);
    } else {
      hide Effect, Drops, Separate, AllKnown;
      OtherDisconnect(pods, chains, call, i, j);
    }
  }

  lemma TargetsAndIps(pods: seq<Pod>, targets: seq<string>, n: nat, j: nat)
    requires Separate(pods) && j < |pods| && AllKnown(pods, targets) && n <= |targets|
    requires |TargetIps(pods, targets).0| == |targets|
    ensures pods[j].ip in TargetIps(pods, targets).0[..n] <==> exists k :: 0 <= k < n && targets[k] == pods[j].node
  {
    var ips := TargetIps(pods, targets).0;
    TargetIpsOf(pods, targets);
    FindOwn(pods, j);
    forall k | 0 <= k < n ensures ips[..n][k] == pods[j].ip <==> targets[k] == pods[j].node {
      var f := FindPod(pods, targets[k]).value;
      assert pods[f].node == targets[k] && ips[k] == pods[f].ip;
    }
  }

  /** After any sequence of calls, from any chains and whatever the cluster made of the calls, s drops what
      it sends to t exactly if some call has cut the link since it was last restored, or it was dropped
      at the start and never restored. */
  lemma {:induction false} LinkState(pods: seq<Pod>, chains: map<string, seq<string>>, calls: seq<Call>, i: nat, j: nat)
    requires Separate(pods) && i < |pods| && j < |pods|
    ensures Drops(pods, RunCalls(pods, chains, calls), i, j)
            <==> IsCut(pods, calls, pods[i].node, pods[j].node)
                 || (Drops(pods, chains, i, j) && NeverRestored(calls, pods[i].node))
  {
    if calls != [] {
      var before, last := calls[..|calls| - 1], calls[|calls| - 1];
      LinkState(pods, chains, before, i, j);
      EffectOnChain(pods, RunCalls(pods, chains, before), last, i, j);
      CutNext(pods, before, last, pods[i].node, pods[j].node);
      assert calls == before + [last];
    }
  }

  /** The same, of an engine that has just been made for a cluster: exactly the cut links are dropped. */
  method PerformOnCluster(pods: seq<Pod>, calls: seq<Call>) returns (engine: KubeEngine)
    requires Separate(pods) && forall i :: 0 <= i < |pods| ==> IsWord(pods[i].ip)
    ensures fresh(engine) && engine.Valid() && engine.pods == pods
    ensures forall i, j :: 0 <= i < |pods| && 0 <= j < |pods| ==>
              (Drops(pods, engine.chains, i, j) <==> IsCut(pods, calls, pods[i].node, pods[j].node))
  {
    engine := new KubeEngine(pods);
    var _ := engine.Perform(calls);
    forall i, j | 0 <= i < |pods| && 0 <= j < |pods|
      ensures Drops(pods, engine.chains, i, j) <==> IsCut(pods, calls, pods[i].node, pods[j].node)
    {
      LinkState(pods, Empty(pods), calls, i, j);
    }
  }

  lemma CutNext(pods: seq<Pod>, calls: seq<Call>, last: Call, s: string, t: string)
    ensures IsCut(pods, calls + [last], s, t)
            <==> if Restores(last, s) then false else Cuts(pods, last, s, t) || IsCut(pods, calls, s, t)
    ensures NeverRestored(calls + [last], s) <==> NeverRestored(calls, s) && !Restores(last, s)
  {
    var all := calls + [last];
    assert all[|calls|] == last && forall c :: 0 <= c < |calls| ==> all[c] == calls[c];
    if IsCut(pods, all, s, t) && !Cuts(pods, last, s, t) {
      var c :| 0 <= c < |all| && Cuts(pods, all[c], s, t) && forall d :: c < d < |all| ==> !Restores(all[d], s);
      assert c < |calls| && calls[c] == all[c];
      assert forall d :: c < d < |calls| ==> calls[d] == all[d];
    }
    if IsCut(pods, calls, s, t) && !Restores(last, s) {
      var c :| 0 <= c < |calls| && Cuts(pods, calls[c], s, t) && forall d :: c < d < |calls| ==> !Restores(calls[d], s);
      assert Cuts(pods, all[c], s, t);
    }
  }

  /** A call that names an unknown node is refused and changes nothing; any call leaves the chains of
      pods other than its source alone. */
  lemma OthersUntouched(pods: seq<Pod>, chains: map<string, seq<string>>, call: Call, i: nat)
    requires Separate(pods) && i < |pods|
    ensures call.Disconnect? && !AllKnown(pods, call.targets + [call.src]) ==> Effect(pods, chains, call) == chains
    ensures call.Reconnect? && !Known(pods, call.node) ==> Effect(pods, chains, call) == chains
    ensures pods[i].node != (match call case Disconnect(src, _, _) => src case Reconnect(node, _) => node) ==>
              ChainOf(Effect(pods, chains, call), pods[i].name) == ChainOf(chains, pods[i].name)
  {
    if call.Disconnect? {
      TargetIpsOf(pods, call.targets);
      hide TargetIps, Inserted, Applied, AllKnown, Known;
      UnknownAmong(pods, call.targets, call.src);
    }
  }

  lemma UnknownAmong(pods: seq<Pod>, targets: seq<string>, src: string)
    ensures AllKnown(pods, targets + [src]) <==> AllKnown(pods, targets) && FindPod(pods, src).Some?
  {
    var all := targets + [src];
    assert all[|targets|] == src && forall k :: 0 <= k < |targets| ==> all[k] == targets[k];
  }
}
