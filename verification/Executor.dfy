/** daemon/monitor/netem/executor.go: compiling rules into commands and running them on the device. */
module Executor {
  import opened Prelude
  import opened Text
  import opened Decimal
  import opened Rule
  import opened Tc
  import opened Commands

  /** The first rule for an address decides what is emulated toward it. */
  function FirstRule(rules: seq<Rule>, ip: string): Option<Rule> {
    if rules == [] then None
    else if rules[0].ip == ip then Some(rules[0])
    else FirstRule(rules[1..], ip)
  }

  function Expected(rules: seq<Rule>, ip: string): Option<NetEm> {
    match FirstRule(rules, ip)
    case Some(r) => Some(ParamsOf(r))
    case None => None
  }

  function Addresses(rules: seq<Rule>): set<string> {
    set r | r in rules :: r.ip
  }

  /** The rules that produce commands: the first one of each address. */
  function Firsts(rules: seq<Rule>): seq<Rule> {
    if rules == [] then []
    else
      var before, last := Firsts(rules[..|rules| - 1]), rules[|rules| - 1];
      if last.ip in Addresses(before) then before else before + [last]
  }

  /** The class of an address, the filter that leads to it and the discipline attached to it. */
  function PathCommands(dev: string, minor: nat, major: nat, rule: Rule): seq<seq<string>> {
    [MakeClass(dev, minor), MakeFilter(dev, rule.MatchAddr(), minor), MakeQDisc(dev, minor, major, rule)]
  }

  /** The commands for the k-th distinct address, counted from one. */
  function KthPath(dev: string, k: nat, rule: Rule): seq<seq<string>> {
    PathCommands(dev, k * 10, k * 10 + 1, rule)
  }

  function PathsCommands(dev: string, firsts: seq<Rule>): seq<seq<string>> {
    if firsts == [] then []
    else PathsCommands(dev, firsts[..|firsts| - 1]) + KthPath(dev, |firsts|, firsts[|firsts| - 1])
  }

  function CommandsFor(dev: string, firsts: seq<Rule>): seq<seq<string>> {
    [MakeRoot(dev), MakeParent(dev)] + PathsCommands(dev, firsts)
  }

  function Compile(dev: string, rules: seq<Rule>): seq<seq<string>> {
    CommandsFor(dev, Firsts(rules))
  }

  /** The device seen by the executor: the external `tc` tool changes its tree. */
  class NetDevice {
    var tc: Device

    constructor ()
      ensures tc == EMPTY
    {
      tc := EMPTY;
    }

    method ExecTc(dev: string, args: seq<string>) returns (ok: bool)
      modifies this
      ensures match Apply(dev, old(tc), args)
              case Some(d) => ok && tc == d
              case None => !ok && tc == old(tc)
    {
      match Apply(dev, tc, args)
      case Some(d) => tc := d; ok := true;
      case None => ok := false;
    }
  }

  datatype Executor = Executor(dev: string) {

    /** The commands for the rules, built while remembering which addresses have a class already. */
    method MakeCommands(rules: seq<Rule>) returns (commands: seq<seq<string>>)
      ensures commands == Compile(dev, rules)
    {
      hide *;
      NoCommands(dev);
      commands := [MakeRoot(dev), MakeParent(dev)];
      var classes: map<string, nat> := map[];
      ghost var firsts := [];
      for i := 0 to |rules|
        invariant firsts == Firsts(rules[..i])
        invariant commands == CommandsFor(dev, firsts)
        invariant classes.Keys == MatchAddrs(firsts) && |classes| == |firsts|
      {
        var m := rules[i].MatchAddr();
        FirstsNext(rules, i);
        if m !in classes {
          var minor := (|classes| + 1) * 10;
          classes := classes[m := minor + 1];
          MoreCommands(dev, firsts, rules[i], minor, classes[m]);
          commands := commands + PathCommands(dev, minor, classes[m], rules[i]);
          firsts := firsts + [rules[i]];
        }
      }
      assert rules[..|rules|] == rules;
      CompileIsCommandsFor(dev, rules);
    }

    /** Runs the commands in order, stopping at the first refused one. */
    method RunCommands(commands: seq<seq<string>>, net: NetDevice) returns (ok: bool)
      modifies net
      ensures (net.tc, ok) == Run(dev, old(net.tc), commands)
    {
      ghost var was := net.tc;
      for i := 0 to |commands|
        invariant Run(dev, was, commands) == Run(dev, net.tc, commands[i..])
      {
        var done := net.ExecTc(dev, commands[i]);
        assert commands[i..][1..] == commands[i + 1..];
        if !done {
          return false;
        }
      }
      return true;
    }

    /** Configures the device. On an empty one this succeeds exactly for compilable rules, and the
        rules are then emulated. A device that has a root refuses, and keeps its tree. */
    method Execute(rules: seq<Rule>, net: NetDevice) returns (ok: bool)
      modifies net
      ensures (net.tc, ok) == Run(dev, old(net.tc), Compile(dev, rules))
      ensures IsWord(dev) && AddressesAreWords(rules) && old(net.tc) == EMPTY ==>
                (ok <==> Compilable(rules)) && (ok ==> Emulates(net.tc, rules))
      ensures IsWord(dev) && old(net.tc).root.Some? ==> !ok && net.tc == old(net.tc)
    {
      RunFacts(dev, net.tc, rules);
      var commands := MakeCommands(rules);
      ok := RunCommands(commands, net);
    }
  }

  function MatchAddrs(rules: seq<Rule>): set<string> {
    set r | r in rules :: r.MatchAddr()
  }

  lemma NoCommands(dev: string)
    ensures CommandsFor(dev, []) == [MakeRoot(dev), MakeParent(dev)]
    ensures Firsts([]) == [] && MatchAddrs([]) == {}
  {
  }

  lemma MorePaths(dev: string, firsts: seq<Rule>, rule: Rule, minor: nat, major: nat)
    requires minor == (|firsts| + 1) * 10 && major == minor + 1
    ensures PathsCommands(dev, firsts + [rule]) == PathsCommands(dev, firsts) + PathCommands(dev, minor, major, rule)
  {
    hide PathCommands;
    assert (firsts + [rule])[..|firsts|] == firsts;
  }

  lemma MoreCommands(dev: string, firsts: seq<Rule>, rule: Rule, minor: nat, major: nat)
    requires minor == (|firsts| + 1) * 10 && major == minor + 1
    ensures CommandsFor(dev, firsts + [rule]) == CommandsFor(dev, firsts) + PathCommands(dev, minor, major, rule)
  {
    MorePaths(dev, firsts, rule, minor, major);
    hide MakeRoot, MakeParent, PathCommands, PathsCommands;
  }

  lemma CompileIsCommandsFor(dev: string, rules: seq<Rule>)
    ensures Compile(dev, rules) == CommandsFor(dev, Firsts(rules))
  {
  }

  /** What one more rule adds to the addresses seen. */
  lemma FirstsNext(rules: seq<Rule>, i: nat)
    requires i < |rules|
    ensures var before, after := Firsts(rules[..i]), Firsts(rules[..i + 1]);
            if rules[i].MatchAddr() in MatchAddrs(before) then after == before
            else after == before + [rules[i]] && MatchAddrs(after) == MatchAddrs(before) + {rules[i].MatchAddr()}
  {
    var before, rule := Firsts(rules[..i]), rules[i];
    assert rules[..i + 1][..i] == rules[..i];
    forall r | r in before ensures r.MatchAddr() == rule.MatchAddr() <==> r.ip == rule.ip {
      MatchAddrInjective(r, rule);
    }
    assert rule.ip in Addresses(before) <==> rule.MatchAddr() in MatchAddrs(before);
  }

  lemma RunFacts(dev: string, d: Device, rules: seq<Rule>)
    ensures IsWord(dev) && AddressesAreWords(rules) && d == EMPTY ==>
              var (d', ok) := Run(dev, d, Compile(dev, rules));
              (ok <==> Compilable(rules)) && (ok ==> Emulates(d', rules))
    ensures IsWord(dev) && d.root.Some? ==> Run(dev, d, Compile(dev, rules)) == (d, false)
  {
    if IsWord(dev) && d.root.Some? {
      CompileRefusedWithRoot(dev, d, rules);
    }
    if IsWord(dev) && AddressesAreWords(rules) && d == EMPTY {
      CompilerCorrect(dev, rules);
    }
  }

  predicate AddressesAreWords(rules: seq<Rule>) {
    forall r :: r in rules ==> ' ' !in r.ip
  }

  /** At most 999 distinct addresses, each of them a host. */
  predicate Compilable(rules: seq<Rule>) {
    |Addresses(rules)| <= 999 && forall r :: r in rules ==> IsHost(r.ip)
  }

  /** Every destination gets the parameters of its first rule, and nothing without a rule. */
  ghost predicate Emulates(d: Device, rules: seq<Rule>) {
    forall ip :: Classify(d, ip) == Expected(rules, ip) && IsRuled(Classify(d, ip), FirstRule(rules, ip))
  }

  /** What a packet meets is what a rule says of nanoseconds and loss, or nothing without a rule. */
  predicate IsRuled(got: Option<NetEm>, rule: Option<Rule>) {
    match rule
    case Some(r) => got.Some? && IsOnWire(got.value, r.delay.value, r.loss.value)
    case None => got.None?
  }

  lemma ExpectedIsRuled(rules: seq<Rule>, ip: string)
    ensures IsRuled(Expected(rules, ip), FirstRule(rules, ip))
  {
    if FirstRule(rules, ip).Some? { ParamsOnWire(FirstRule(rules, ip).value); }
  }

  // ---------- the rules that count ----------

  ghost predicate Distinct(firsts: seq<Rule>) {
    forall i, j :: 0 <= i < j < |firsts| ==> firsts[i].ip != firsts[j].ip
  }

  /** The first rule for an address is one of its rules, and there is one if there is any. */
  lemma {:induction false} FirstRuleIsRule(rules: seq<Rule>, ip: string)
    ensures FirstRule(rules, ip).None? ==> forall i :: 0 <= i < |rules| ==> rules[i].ip != ip
    ensures FirstRule(rules, ip).Some? ==>
              exists i :: 0 <= i < |rules| && rules[i] == FirstRule(rules, ip).value && rules[i].ip == ip
  {
    if rules != [] {
      FirstRuleIsRule(rules[1..], ip);
      assert forall i :: 0 < i < |rules| ==> rules[i] == rules[1..][i - 1];
      assert forall i :: 0 <= i < |rules| - 1 ==> rules[1..][i] == rules[i + 1];
    }
  }

  lemma {:induction false} FirstRuleAppend(rules: seq<Rule>, r: Rule, ip: string)
    ensures FirstRule(rules + [r], ip)
            == if FirstRule(rules, ip).Some? then FirstRule(rules, ip) else if r.ip == ip then Some(r) else None
    ensures FirstRule(rules, ip).Some? <==> ip in Addresses(rules)
  {
    if rules != [] {
      FirstRuleAppend(rules[1..], r, ip);
      assert (rules + [r])[1..] == rules[1..] + [r];
      assert rules == [rules[0]] + rules[1..];
    }
  }

  /** Dropping the repeated addresses keeps what is expected of every destination. */
  lemma {:induction false} FirstsKeepFirstRule(rules: seq<Rule>, ip: string)
    ensures FirstRule(Firsts(rules), ip) == FirstRule(rules, ip)
  {
    if rules != [] {
      var before, last := rules[..|rules| - 1], rules[|rules| - 1];
      FirstsKeepFirstRule(before, ip);
      FirstRuleAppend(before, last, ip);
      FirstRuleAppend(Firsts(before), last, ip);
      assert rules == before + [last];
    }
  }

  lemma {:induction false} FirstsAreDistinct(rules: seq<Rule>)
    ensures Distinct(Firsts(rules))
    ensures Addresses(Firsts(rules)) == Addresses(rules)
    ensures |Firsts(rules)| == |Addresses(rules)|
  {
    if rules != [] {
      var before, last := rules[..|rules| - 1], rules[|rules| - 1];
      FirstsAreDistinct(before);
      assert rules == before + [last];
      AddressesAppend(before, last);
      var fs := Firsts(before);
      AddressesAppend(fs, last);
      if last.ip in Addresses(fs) {
        assert Firsts(rules) == fs;
      } else {
        assert Firsts(rules) == fs + [last];
        hide *;
        DistinctNext(fs, last);
      }
    }
  }

  lemma DistinctNext(firsts: seq<Rule>, last: Rule)
    requires Distinct(firsts) && forall i :: 0 <= i < |firsts| ==> firsts[i].ip != last.ip
    ensures Distinct(firsts + [last])
  {
  }

  lemma AddressesAppend(rules: seq<Rule>, last: Rule)
    ensures Addresses(rules + [last]) == Addresses(rules) + {last.ip}
    ensures forall i :: 0 <= i < |rules| && rules[i].ip == last.ip ==> last.ip in Addresses(rules)
  {
  }

  lemma DistinctPrefix(before: seq<Rule>, last: Rule)
    requires Distinct(before + [last])
    ensures Distinct(before) && last.ip !in Addresses(before)
  {
    var all := before + [last];
    assert forall i :: 0 <= i < |before| ==> all[i] == before[i] && all[i].ip != all[|before|].ip;
  }

  lemma FirstsLast(before: seq<Rule>, last: Rule)
    ensures Firsts(before + [last])
            == if last.ip in Addresses(Firsts(before)) then Firsts(before) else Firsts(before) + [last]
  {
    hide Addresses;
    assert (before + [last])[..|before|] == before;
  }

  lemma {:induction false} FirstsOfDistinct(rules: seq<Rule>)
    requires Distinct(rules)
    ensures Firsts(rules) == rules
  {
    if rules != [] {
      var before, last := rules[..|rules| - 1], rules[|rules| - 1];
      assert before + [last] == rules;
      DistinctPrefix(before, last);
      FirstsOfDistinct(before);
      FirstsLast(before, last);
    }
  }

  lemma {:induction false} PathsLength(dev: string, firsts: seq<Rule>)
    ensures |PathsCommands(dev, firsts)| == 3 * |firsts|
  {
    hide MakeClass, MakeFilter, MakeQDisc;
    if firsts != [] {
      PathsLength(dev, firsts[..|firsts| - 1]);
    }
  }

  /** Where the filter of an address is among the commands. */
  lemma {:induction false} FilterAt(dev: string, firsts: seq<Rule>, i: nat, at: nat, minor: nat)
    requires i < |firsts| && at == 3 * i + 1 && minor == (i + 1) * 10
    ensures at < |PathsCommands(dev, firsts)|
    ensures PathsCommands(dev, firsts)[at] == MakeFilter(dev, firsts[i].MatchAddr(), minor)
  {
    hide MakeClass, MakeFilter, MakeQDisc;
    var k := |firsts| - 1;
    PathsLength(dev, firsts[..k]);
    if i < k {
      FilterAt(dev, firsts[..k], i, at, minor);
    }
  }

  /** The words of the three commands of an address, with the number of its class written out. */
  ghost predicate ArePathWords(path: seq<seq<string>>, dev: string, id: string, handle: string, rule: Rule) {
    && |path| == 3
    && path[0] == ["class", "add", "dev", dev, "parent", "1:1", "classid", id, "htb", "rate", "1000Mbps"]
    && path[1] == ["filter", "add", "dev", dev, "protocol", "ip", "parent", "1:0", "prio", "1", "u32",
                   "match", "ip", "dst", rule.ip + "/32", "flowid", id]
    && exists netem :: (IsNetEmOf(netem, rule)
                        && Words(path[2]) == ["qdisc", "add", "dev", dev] + (["parent", id, "handle", handle] + netem))
  }

  /** The words name the netem discipline, and its parameters are the ones of the rule. */
  predicate IsNetEmOf(words: seq<string>, rule: Rule) {
    && |words| >= 1 && words[0] == "netem" && ReadNetEm(words[1..]).Some?
    && IsOnWire(ReadNetEm(words[1..]).value, rule.delay.value, rule.loss.value)
  }

  /** The commands in the order in which they are run: those of the root, and three for each address. */
  lemma CommandWords(dev: string, rules: seq<Rule>)
    requires IsWord(dev)
    ensures |Compile(dev, rules)| == 3 * |Firsts(rules)| + 2
    ensures Compile(dev, rules)[0] == ["qdisc", "add", "dev", dev, "root", "handle", "1:", "htb"]
    ensures Compile(dev, rules)[1]
            == ["class", "add", "dev", dev, "parent", "1:", "classid", "1:1", "htb", "rate", "1000Mbps"]
  {
    HeadWords(dev);
    PathsOfCompile(dev, rules);
    PathsLength(dev, Firsts(rules));
    hide MakeRoot, MakeParent, Firsts;
  }

  /** The commands of the i-th distinct address, counted from zero: the minor of its class is ten times
      its place, and the handle of its discipline is one more. */
  lemma AddressWords(dev: string, rules: seq<Rule>, i: nat)
    requires IsWord(dev) && AddressesAreWords(rules) && i < |Firsts(rules)|
    ensures 3 * i + 5 <= |Compile(dev, rules)|
    ensures ArePathWords(Compile(dev, rules)[3 * i + 2..3 * i + 5], dev, "1:" + Dec(10 * (i + 1)), Dec(10 * (i + 1) + 1) + ":",
                         Firsts(rules)[i])
  {
    hide *;
    PathsOfCompile(dev, rules);
    PathAt(dev, Firsts(rules), i);
    RulesOfFirsts(rules, i);
    NumberedWords(dev, i, Firsts(rules)[i]);
    assert Compile(dev, rules)[2..][3 * i..3 * i + 3] == Compile(dev, rules)[3 * i + 2..3 * i + 5];
  }

  lemma NumberedWords(dev: string, i: nat, rule: Rule)
    requires IsWord(dev) && ' ' !in rule.ip
    ensures ArePathWords(KthPath(dev, i + 1, rule), dev, "1:" + Dec(10 * (i + 1)), Dec(10 * (i + 1) + 1) + ":", rule)
  {
    PathWords(dev, 10 * (i + 1), 10 * (i + 1) + 1, rule);
    hide ArePathWords, PathCommands, Dec;
  }

  lemma RulesOfFirsts(rules: seq<Rule>, i: nat)
    requires AddressesAreWords(rules) && i < |Firsts(rules)|
    ensures ' ' !in Firsts(rules)[i].ip
  {
    FirstsAreDistinct(rules);
    assert Firsts(rules)[i].ip in Addresses(rules);
  }

  lemma HeadWords(dev: string)
    requires IsWord(dev)
    ensures MakeRoot(dev) == ["qdisc", "add", "dev", dev, "root", "handle", "1:", "htb"]
    ensures MakeParent(dev) == ["class", "add", "dev", dev, "parent", "1:", "classid", "1:1", "htb", "rate", "1000Mbps"]
  {
    SplitJoin(["qdisc", "add", "dev", dev, "root", "handle", "1:", "htb"], ' ');
    SplitJoin(["class", "add", "dev", dev, "parent", "1:", "classid", "1:1", "htb", "rate", "1000Mbps"], ' ');
  }

  /** Where the commands of an address are. */
  lemma {:induction false} PathAt(dev: string, firsts: seq<Rule>, i: nat)
    requires i < |firsts|
    ensures 3 * i + 3 <= |PathsCommands(dev, firsts)|
    ensures PathsCommands(dev, firsts)[3 * i..3 * i + 3] == KthPath(dev, i + 1, firsts[i])
  {
    hide MakeClass, MakeFilter, MakeQDisc;
    var k := |firsts| - 1;
    PathsLength(dev, firsts[..k]);
    if i < k {
      PathAt(dev, firsts[..k], i);
    }
  }

  lemma PathWords(dev: string, minor: nat, major: nat, rule: Rule)
    requires IsWord(dev) && ' ' !in rule.ip
    ensures ArePathWords(PathCommands(dev, minor, major, rule), dev, "1:" + Dec(minor), Dec(major) + ":", rule)
  {
    var id, handle, netem := "1:" + Dec(minor), Dec(major) + ":", Words(Split(MakeNetEm(rule), ' '));
    hide Read, Dec, IsOnWire, ReadNetEm, MakeNetEm, Words, Split, Join;
    ReadPrintedId(minor);
    ReadPrintedHandle(major);
    ReadPrintedNetEm(rule);
    assert IsNetEmOf(netem, rule);
    QDiscWords(dev, id, handle, MakeNetEm(rule));
    SplitJoin(["class", "add", "dev", dev, "parent", "1:1", "classid", id, "htb", "rate", "1000Mbps"], ' ');
    SplitJoin(["filter", "add", "dev", dev, "protocol", "ip", "parent", "1:0", "prio", "1", "u32",
               "match", "ip", "dst", rule.ip + "/32", "flowid", id], ' ');
  }

  /** The commands tell which addresses the rules have, and in which order. */
  lemma CommandsTellOrder(dev: string, a: seq<Rule>, b: seq<Rule>)
    requires IsWord(dev) && AddressesAreWords(a) && AddressesAreWords(b) && Distinct(a) && Distinct(b)
    requires Compile(dev, a) == Compile(dev, b)
    ensures |a| == |b| && forall i :: 0 <= i < |a| ==> a[i].ip == b[i].ip
  {
    FirstsOfDistinct(a);
    FirstsOfDistinct(b);
    PathsOfCompile(dev, a);
    PathsOfCompile(dev, b);
    hide *;
    SamePathsSameOrder(dev, a, b);
  }

  lemma PathsOfCompile(dev: string, rules: seq<Rule>)
    ensures |Compile(dev, rules)| >= 2 && PathsCommands(dev, Firsts(rules)) == Compile(dev, rules)[2..]
  {
    hide MakeRoot, MakeParent, PathsCommands, Firsts;
  }

  lemma SamePathsSameOrder(dev: string, a: seq<Rule>, b: seq<Rule>)
    requires IsWord(dev) && AddressesAreWords(a) && AddressesAreWords(b)
    requires PathsCommands(dev, a) == PathsCommands(dev, b)
    ensures |a| == |b| && forall i :: 0 <= i < |a| ==> a[i].ip == b[i].ip
  {
    PathsLength(dev, a);
    PathsLength(dev, b);
    hide PathsCommands, AddressesAreWords, IsWord;
    forall i | 0 <= i < |a| ensures a[i].ip == b[i].ip {
      SamePathsSameIp(dev, a, b, i, 3 * i + 1, (i + 1) * 10);
    }
  }

  lemma SamePathsSameIp(dev: string, a: seq<Rule>, b: seq<Rule>, i: nat, at: nat, minor: nat)
    requires i < |a| == |b| && at == 3 * i + 1 && minor == (i + 1) * 10
    requires IsWord(dev) && AddressesAreWords(a) && AddressesAreWords(b)
    requires PathsCommands(dev, a) == PathsCommands(dev, b)
    ensures a[i].ip == b[i].ip
  {
    hide PathsCommands, MakeFilter;
    FilterAt(dev, a, i, at, minor);
    FilterAt(dev, b, i, at, minor);
    assert a[i] in a && b[i] in b;
    FilterTellsAddress(dev, a[i].MatchAddr(), b[i].MatchAddr(), minor, minor);
    MatchAddrInjective(a[i], b[i]);
  }

  // ---------- the tree that the commands build ----------

  function FlowId(k: nat): Id {
    Id(1, HexRead(k * 10))
  }

  function LeafHandle(k: nat): nat {
    HexRead(k * 10 + 1)
  }

  function AddPath(d: Device, k: nat, rule: Rule): Device {
    Device(d.root, d.qdiscs[LeafHandle(k) := Netem(ParamsOf(rule))], d.classes + {FlowId(k)},
           d.leaves[FlowId(k) := LeafHandle(k)], d.filters + [Filter(Id(1, 0), rule.ip, FlowId(k))])
  }

  function Tree(firsts: seq<Rule>): Device {
    if firsts == [] then Device(Some(1), map[1 := Htb], {Id(1, 1)}, map[], [])
    else AddPath(Tree(firsts[..|firsts| - 1]), |firsts|, firsts[|firsts| - 1])
  }

  /** Every reference exists, and all ids lie below those of the k-th address. */
  ghost predicate IsTreeBelow(d: Device, k: nat) {
    && d.root == Some(1) && 1 in d.qdiscs && d.qdiscs[1] == Htb && Id(1, 1) in d.classes
    && (forall c :: c in d.classes ==> c.major == 1 && 0 < c.minor < FlowId(k).minor)
    && (forall h :: h in d.qdiscs ==> 0 < h < LeafHandle(k))
    && (forall c :: c in d.leaves ==> c in d.classes && d.leaves[c] in d.qdiscs)
    && (forall f :: f in d.filters ==> f.flow in d.classes)
  }

  lemma IdsGrow(k: nat)
    requires k > 0
    ensures 0 < FlowId(k).minor < FlowId(k + 1).minor && 0 < LeafHandle(k) < LeafHandle(k + 1)
  {
    HexReadPositive(k * 10);
    HexReadPositive(k * 10 + 1);
    HexReadMonotone(k * 10, k * 10 + 10);
    HexReadMonotone(k * 10 + 1, k * 10 + 11);
  }

  lemma PathKeepsTree(d: Device, k: nat, rule: Rule)
    requires k > 0 && IsTreeBelow(d, k)
    ensures IsTreeBelow(AddPath(d, k, rule), k + 1)
  {
    IdsGrow(k);
    assert FlowId(k).major == 1;
    hide FlowId, LeafHandle, ParamsOf;
  }

  /** Minors are 1 or multiples of ten, majors are 1 or one more than a multiple of ten, and all of them
      stay below the next ones to be given out. */
  lemma {:induction false} TreeInvariant(firsts: seq<Rule>)
    ensures IsTreeBelow(Tree(firsts), |firsts| + 1)
  {
    var k := |firsts|;
    if k == 0 {
      assert HexRead(1) == 1 && HexRead(10) == 16 && HexRead(11) == 17;
    } else {
      TreeInvariant(firsts[..k - 1]);
      PathKeepsTree(Tree(firsts[..k - 1]), k, firsts[k - 1]);
    }
  }

  lemma {:induction false} FlowOfAppend(filters: seq<Filter>, f: Filter, root: nat, dst: string)
    ensures FlowOf(filters + [f], root, dst)
            == if FlowOf(filters, root, dst).Some? then FlowOf(filters, root, dst)
               else if f.at == Id(root, 0) && f.dst == dst then Some(f.flow) else None
    ensures FlowOf(filters, root, dst).Some? ==> exists g :: g in filters && g.flow == FlowOf(filters, root, dst).value
  {
    if filters != [] {
      FlowOfAppend(filters[1..], f, root, dst);
      assert (filters + [f])[1..] == filters[1..] + [f];
      assert filters == [filters[0]] + filters[1..];
    }
  }

  /** What one more path changes: only the destination of its rule, if that had no filter. */
  lemma PathClassifies(d: Device, k: nat, rule: Rule, ip: string)
    requires k > 0 && IsTreeBelow(d, k)
    ensures var was, now := FlowOf(d.filters, 1, ip), FlowOf(AddPath(d, k, rule).filters, 1, ip);
            if was.Some? then now == was && Classify(AddPath(d, k, rule), ip) == Classify(d, ip)
            else if rule.ip == ip then now.Some? && Classify(AddPath(d, k, rule), ip) == Some(ParamsOf(rule))
            else now.None? && Classify(AddPath(d, k, rule), ip) == None
  {
    FlowOfAppend(d.filters, Filter(Id(1, 0), rule.ip, FlowId(k)), 1, ip);
    assert FlowId(k) !in d.classes && LeafHandle(k) !in d.qdiscs;
    hide FlowOf, FlowId, LeafHandle, ParamsOf;
  }

  /** The tree sends every destination through the leaf of its rule. */
  lemma {:induction false} TreeClassifies(firsts: seq<Rule>, ip: string)
    requires Distinct(firsts)
    ensures Classify(Tree(firsts), ip) == Expected(firsts, ip)
    ensures FlowOf(Tree(firsts).filters, 1, ip).Some? <==> FirstRule(firsts, ip).Some?
  {
    var k := |firsts|;
    if k > 0 {
      var before, last := firsts[..k - 1], firsts[k - 1];
      assert firsts == before + [last];
      TreeClassifies(before, ip);
      TreeInvariant(before);
      hide Classify, FlowOf, AddPath, FirstRule, IsTreeBelow, ParamsOf;
      FirstRuleAppend(before, last, ip);
      PathClassifies(Tree(before), k, last, ip);
    }
  }

  // ---------- running the commands ----------

  /** The rules whose three commands are accepted: up to the first that does not fit. */
  function Accepted(firsts: seq<Rule>): seq<Rule> {
    if firsts == [] then []
    else
      var k := |firsts|;
      var before := Accepted(firsts[..k - 1]);
      if |before| == k - 1 && k <= 999 && IsHost(firsts[k - 1].ip) then firsts else before
  }

  lemma {:induction false} AcceptedIsPrefix(firsts: seq<Rule>)
    ensures Accepted(firsts) <= firsts
    ensures Accepted(firsts) == firsts <==> |firsts| <= 999 && forall r :: r in firsts ==> IsHost(r.ip)
  {
    if firsts != [] {
      var k := |firsts|;
      AcceptedIsPrefix(firsts[..k - 1]);
      assert firsts == firsts[..k - 1] + [firsts[k - 1]];
    }
  }

  /** As many elements as fit a device. */
  function Fitting<T>(s: seq<T>): seq<T> {
    if |s| <= 999 then s else s[..999]
  }

  /** Of hosts, the first 999 are accepted. */
  lemma {:induction false} AcceptedOfHosts(firsts: seq<Rule>)
    requires forall i :: 0 <= i < |firsts| ==> IsHost(firsts[i].ip)
    ensures Accepted(firsts) == Fitting(firsts)
  {
    hide IsHost;
    if firsts != [] {
      AcceptedOfHosts(firsts[..|firsts| - 1]);
    }
  }

  /** The tree, or the tree with one more class that no filter leads to. */
  ghost predicate Leftover(d: Device, firsts: seq<Rule>) {
    d == Tree(firsts) || exists c :: d == Tree(firsts).(classes := Tree(firsts).classes + {c})
  }

  lemma LeftoverClassifies(d: Device, firsts: seq<Rule>, ip: string)
    requires Leftover(d, firsts)
    ensures Classify(d, ip) == Classify(Tree(firsts), ip)
  {
    TreeInvariant(firsts);
    FlowOfAppend(Tree(firsts).filters, Filter(Id(0, 0), "", Id(0, 0)), 1, ip);
  }

  /** How the device reads the three commands of an address. */
  function PathOps(k: nat, rule: Rule): seq<Option<Op>> {
    [if k <= 999 then Some(AddClass(Id(1, 1), FlowId(k))) else None,
     if k <= 999 && IsHost(rule.ip) then Some(AddFilter(Id(1, 0), rule.ip, FlowId(k))) else None,
     if k <= 999 then Some(AddLeaf(FlowId(k), LeafHandle(k), ParamsOf(rule))) else None]
  }

  lemma PathOpsOf(k: nat, rule: Rule)
    requires k <= 999
    ensures var flow := FlowId(k);
            var add, leaf := Some(AddClass(Id(1, 1), flow)), Some(AddLeaf(flow, LeafHandle(k), ParamsOf(rule)));
            PathOps(k, rule)
            == if IsHost(rule.ip) then [add, Some(AddFilter(Id(1, 0), rule.ip, flow)), leaf] else [add, None] + [leaf]
  {
  }

  lemma PathIsRead(dev: string, k: nat, rule: Rule)
    requires IsWord(dev) && ' ' !in rule.ip && k <= 999
    ensures ReadAll(dev, KthPath(dev, k, rule)) == PathOps(k, rule)
  {
    HexReadFits(k * 10);
    HexReadFits(k * 10 + 1);
    ReadClassCommand(dev, k * 10);
    ReadFilterCommand(dev, rule, k * 10);
    ReadQDiscCommand(dev, k * 10, k * 10 + 1, rule);
  }

  /** From the thousandth address on, the class is refused because its minor does not fit. */
  lemma LatePathIsRefused(dev: string, d: Device, k: nat, rule: Rule)
    requires IsWord(dev) && k > 999
    ensures Run(dev, d, KthPath(dev, k, rule)) == (d, false)
  {
    HexReadFits(k * 10);
    ReadClassCommand(dev, k * 10);
  }

  /** A class, a filter and a leaf with fresh names are accepted below the parent class. */
  lemma PathAccepted(d: Device, flow: Id, handle: nat, ip: string, params: NetEm)
    requires 1 in d.qdiscs && d.qdiscs[1] == Htb && Id(1, 1) in d.classes
    requires flow.major == 1 && flow.minor > 0 && flow !in d.classes && flow !in d.leaves
    requires handle > 0 && handle !in d.qdiscs
    ensures RunOps(d, [Some(AddClass(Id(1, 1), flow)), Some(AddFilter(Id(1, 0), ip, flow)), Some(AddLeaf(flow, handle, params))])
            == (Device(d.root, d.qdiscs[handle := Netem(params)], d.classes + {flow},
                       d.leaves[flow := handle], d.filters + [Filter(Id(1, 0), ip, flow)]), true)
  {
    var a, b, c := Some(AddClass(Id(1, 1), flow)), Some(AddFilter(Id(1, 0), ip, flow)), Some(AddLeaf(flow, handle, params));
    var d1 := d.(classes := d.classes + {flow});
    var d2 := d1.(filters := d1.filters + [Filter(Id(1, 0), ip, flow)]);
    assert [a, b, c][1..] == [b, c] && [b, c][1..] == [c];
    assert RunOps(d, [a, b, c]) == RunOps(d1, [b, c]);
    assert RunOps(d1, [b, c]) == RunOps(d2, [c]);
    var d3 := Device(d.root, d.qdiscs[handle := Netem(params)], d.classes + {flow},
                     d.leaves[flow := handle], d.filters + [Filter(Id(1, 0), ip, flow)]);
    assert Step(d2, c.value) == Some(d3);
    assert [c][1..] == [];
    assert RunOps(d2, [c]) == RunOps(d3, []);
  }

  /** The class of an address that is not a host stays behind, without filter or leaf. */
  lemma PathRefused(d: Device, flow: Id, rest: seq<Option<Op>>)
    requires 1 in d.qdiscs && d.qdiscs[1] == Htb && Id(1, 1) in d.classes
    requires flow.major == 1 && flow.minor > 0 && flow !in d.classes
    ensures RunOps(d, [Some(AddClass(Id(1, 1), flow)), None] + rest) == (d.(classes := d.classes + {flow}), false)
  {
  }

  /** The ids of the next address are not in use. */
  lemma FreshIds(before: seq<Rule>)
    ensures var d := Tree(before); var k := |before| + 1; var flow, handle := FlowId(k), LeafHandle(k);
            && 1 in d.qdiscs && d.qdiscs[1] == Htb && Id(1, 1) in d.classes
            && flow.major == 1 && flow.minor > 0 && flow !in d.classes && flow !in d.leaves
            && handle > 0 && handle !in d.qdiscs
  {
    TreeInvariant(before);
    HexReadPositive((|before| + 1) * 10);
    HexReadPositive((|before| + 1) * 10 + 1);
  }

  /** The three operations of one address on the tree of the previous ones. */
  lemma PathOpsRun(before: seq<Rule>, rule: Rule)
    requires |before| < 999
    ensures var k := |before| + 1;
            var (d, ok) := RunOps(Tree(before), PathOps(k, rule));
            if IsHost(rule.ip) then ok && d == AddPath(Tree(before), k, rule)
            else !ok && Leftover(d, before)
  {
    var k := |before| + 1;
    FreshIds(before);
    PathOpsOf(k, rule);
    hide Tree, FlowId, LeafHandle, ParamsOf, RunOps, PathOps;
    if IsHost(rule.ip) {
      PathAccepted(Tree(before), FlowId(k), LeafHandle(k), rule.ip, ParamsOf(rule));
    } else {
      PathRefused(Tree(before), FlowId(k), [Some(AddLeaf(FlowId(k), LeafHandle(k), ParamsOf(rule)))]);
    }
  }

  lemma PathRuns(dev: string, before: seq<Rule>, rule: Rule)
    requires IsWord(dev) && ' ' !in rule.ip
    ensures var k := |before| + 1;
            var r := Run(dev, Tree(before), KthPath(dev, k, rule));
            if k <= 999 && IsHost(rule.ip) then r == (AddPath(Tree(before), k, rule), true)
            else !r.1 && Leftover(r.0, before)
  {
    var k := |before| + 1;
    if k <= 999 {
      PathIsRead(dev, k, rule);
      RunIsRunOps(dev, Tree(before), KthPath(dev, k, rule));
      PathOpsRun(before, rule);
    } else {
      LatePathIsRefused(dev, Tree(before), k, rule);
    }
  }

  lemma {:induction false} PathsRun(dev: string, firsts: seq<Rule>)
    requires IsWord(dev) && AddressesAreWords(firsts)
    ensures PathsOutcome(firsts, Run(dev, Tree([]), PathsCommands(dev, firsts)))
  {
    if firsts == [] {
      hide MakeRoot, MakeParent, MakeClass, MakeFilter, MakeQDisc;
    } else {
      PathsRun(dev, firsts[..|firsts| - 1]);
      assert ' ' !in firsts[|firsts| - 1].ip;
      assert PathsCommands(dev, firsts)
             == PathsCommands(dev, firsts[..|firsts| - 1]) + KthPath(dev, |firsts|, firsts[|firsts| - 1]);
      hide *;
      PathsRunStep(dev, firsts, |firsts|, firsts[..|firsts| - 1], firsts[|firsts| - 1]);
    }
  }

  lemma PathsRunStep(dev: string, firsts: seq<Rule>, k: nat, before: seq<Rule>, last: Rule)
    requires IsWord(dev) && |firsts| == k > 0 && before == firsts[..k - 1] && last == firsts[k - 1] && ' ' !in last.ip
    requires PathsOutcome(before, Run(dev, Tree([]), PathsCommands(dev, before)))
    ensures PathsOutcome(firsts, Run(dev, Tree([]), PathsCommands(dev, before) + KthPath(dev, k, last)))
  {
    hide *;
    var was, now := Run(dev, Tree([]), PathsCommands(dev, before)), Run(dev, Tree(before), KthPath(dev, k, last));
    assert |before| + 1 == k;
    PathRuns(dev, before, last);
    LastPath(firsts);
    OutcomeStep(firsts, was, now);
    RunBoth(dev, Tree([]), PathsCommands(dev, before), KthPath(dev, k, last));
    TreeOf(before, was);
  }

  lemma RunBoth(dev: string, d: Device, a: seq<seq<string>>, b: seq<seq<string>>)
    ensures Run(dev, d, a + b) == if Run(dev, d, a).1 then Run(dev, Run(dev, d, a).0, b) else Run(dev, d, a)
  {
    RunConcat(dev, d, a, b);
    hide Run;
  }

  lemma TreeOf(firsts: seq<Rule>, result: (Device, bool))
    requires PathsOutcome(firsts, result)
    ensures result.1 ==> result.0 == Tree(firsts)
  {
    hide Accepted, Leftover, Tree;
  }

  lemma LastPath(firsts: seq<Rule>)
    requires firsts != []
    ensures Tree(firsts) == AddPath(Tree(firsts[..|firsts| - 1]), |firsts|, firsts[|firsts| - 1])
  {
  }

  /** What running the commands of the paths leaves behind. */
  ghost predicate PathsOutcome(firsts: seq<Rule>, result: (Device, bool)) {
    var (d, ok) := result;
    && (ok <==> Accepted(firsts) == firsts)
    && Leftover(d, Accepted(firsts))
    && (ok ==> d == Tree(firsts))
  }

  lemma OutcomeStep(firsts: seq<Rule>, before: (Device, bool), last: (Device, bool))
    requires |firsts| > 0
    requires PathsOutcome(firsts[..|firsts| - 1], before)
    requires if |firsts| <= 999 && IsHost(firsts[|firsts| - 1].ip)
             then last == (Tree(firsts), true)
             else !last.1 && Leftover(last.0, firsts[..|firsts| - 1])
    ensures PathsOutcome(firsts, if before.1 then last else before)
  {
    AcceptedIsPrefix(firsts[..|firsts| - 1]);
    assert Accepted(firsts) == var b := Accepted(firsts[..|firsts| - 1]);
      if |b| == |firsts| - 1 && |firsts| <= 999 && IsHost(firsts[|firsts| - 1].ip) then firsts else b;
    hide Accepted, Tree, IsHost;
  }

  /** Running any compiled rules on an empty device. It succeeds exactly for compilable rules. Whether
      or not it does, the network behaves as the accepted rules say, and toward other addresses
      nothing is emulated. */
  lemma CompilerRun(dev: string, rules: seq<Rule>)
    requires IsWord(dev) && AddressesAreWords(rules)
    ensures var (d, ok) := Run(dev, EMPTY, Compile(dev, rules));
            (ok <==> Compilable(rules)) && Emulates(d, Accepted(Firsts(rules)))
            && (ok ==> Accepted(Firsts(rules)) == Firsts(rules))
  {
    hide MakeRoot, MakeParent, PathsCommands;
    var fs := Firsts(rules);
    FirstsAreDistinct(rules);
    AcceptedIsPrefix(fs);
    assert forall r :: r in fs ==> r.ip in Addresses(rules);
    PathsRun(dev, fs);
    RootRuns(dev);
    var head := [MakeRoot(dev), MakeParent(dev)];
    RunConcat(dev, EMPTY, head, PathsCommands(dev, fs));
    var (d, ok) := Run(dev, EMPTY, Compile(dev, rules));
    forall ip ensures Classify(d, ip) == Expected(Accepted(fs), ip) && IsRuled(Classify(d, ip), FirstRule(Accepted(fs), ip)) {
      LeftoverClassifies(d, Accepted(fs), ip);
      TreeClassifies(Accepted(fs), ip);
      ExpectedIsRuled(Accepted(fs), ip);
    }
    assert Compilable(rules) <==> (|fs| <= 999 && forall r :: r in fs ==> IsHost(r.ip)) by {
      assert forall r :: r in rules ==> r.ip in Addresses(fs);
    }
  }

  lemma RootRuns(dev: string)
    requires IsWord(dev)
    ensures Run(dev, EMPTY, [MakeRoot(dev), MakeParent(dev)]) == (Tree([]), true)
  {
    var commands := [MakeRoot(dev), MakeParent(dev)];
    var ops := [Some(AddRoot(1)), Some(AddClass(Id(1, 0), Id(1, 1)))];
    ReadRoot(dev);
    ReadParent(dev);
    assert ReadAll(dev, commands) == ops;
    RunIsRunOps(dev, EMPTY, commands);
    RootOpsRun(ops);
  }

  lemma RootOpsRun(ops: seq<Option<Op>>)
    requires ops == [Some(AddRoot(1)), Some(AddClass(Id(1, 0), Id(1, 1)))]
    ensures RunOps(EMPTY, ops) == (Tree([]), true)
  {
    var d := EMPTY.(root := Some(1), qdiscs := map[1 := Htb]);
    assert Step(EMPTY, ops[0].value) == Some(d);
    assert {} + {Id(1, 1)} == {Id(1, 1)};
    assert Step(d, ops[1].value) == Some(Tree([]));
    assert ops[1..] == [ops[1]] && [ops[1]][1..] == [];
    assert RunOps(EMPTY, ops) == RunOps(d, [ops[1]]);
    assert RunOps(d, [ops[1]]) == RunOps(Tree([]), []);
  }

  lemma CompileRefusedWithRoot(dev: string, d: Device, rules: seq<Rule>)
    requires IsWord(dev) && d.root.Some?
    ensures Run(dev, d, Compile(dev, rules)) == (d, false)
  {
    ReadRoot(dev);
    assert Compile(dev, rules)[0] == MakeRoot(dev);
  }

  /** The compiler is correct: on an empty device the commands are all accepted exactly for compilable
      rules, and then each packet meets the first rule for its destination and no other. */
  lemma CompilerCorrect(dev: string, rules: seq<Rule>)
    requires IsWord(dev) && AddressesAreWords(rules)
    ensures var (d, ok) := Run(dev, EMPTY, Compile(dev, rules));
            (ok <==> Compilable(rules)) && (ok ==> Emulates(d, rules))
  {
    CompilerRun(dev, rules);
    forall ip ensures FirstRule(Firsts(rules), ip) == FirstRule(rules, ip) {
      FirstsKeepFirstRule(rules, ip);
    }
  }

  /** Every prefix of the commands for compilable rules is accepted: no command names a parent or a
      flow before it exists, or a handle twice. */
  lemma EveryPrefixAccepted(dev: string, rules: seq<Rule>, n: nat)
    requires IsWord(dev) && AddressesAreWords(rules) && Compilable(rules)
    requires n <= |Compile(dev, rules)|
    ensures Run(dev, EMPTY, Compile(dev, rules)[..n]).1
  {
    hide Compile, MakeRoot, MakeParent;
    CompilerRun(dev, rules);
    var all := Compile(dev, rules);
    RunConcat(dev, EMPTY, all[..n], all[n..]);
    assert all[..n] + all[n..] == all;
  }

  /** The root command adds and does not replace, so a second configuration of a device is refused at
      once and changes nothing, whether or not the first one succeeded. */
  lemma SecondRunRefused(dev: string, first: seq<Rule>, second: seq<Rule>)
    requires IsWord(dev) && AddressesAreWords(first)
    ensures var d := Run(dev, EMPTY, Compile(dev, first)).0;
            Run(dev, d, Compile(dev, second)) == (d, false)
  {
    FirstsAreDistinct(first);
    assert forall r :: r in Firsts(first) ==> r.ip in Addresses(first);
    RootRuns(dev);
    PathsRun(dev, Firsts(first));
    TreeInvariant(Accepted(Firsts(first)));
    RunConcat(dev, EMPTY, [MakeRoot(dev), MakeParent(dev)], PathsCommands(dev, Firsts(first)));
    CompileRefusedWithRoot(dev, Run(dev, EMPTY, Compile(dev, first)).0, second);
  }
}
