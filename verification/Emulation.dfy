/** From a topology to the network that its nodes see: the rules of a node, sent to the node's device
    and compiled there (sim/kubernetes/engine.go, daemon/monitor/netem/main.go). */
module Emulation {
  import opened Prelude
  import opened Text
  import opened Rule
  import opened Topology
  import opened Latency
  import opened Area
  import opened Tc
  import opened Commands
  import opened Executor

  /** The mapping has a host for each of the names, and different hosts for different names. */
  ghost predicate Separates(mapping: map<string, string>, names: set<string>) {
    && names <= mapping.Keys
    && (forall n :: n in names ==> IsHost(mapping[n]))
    && (forall a, b :: a in names && b in names && mapping[a] == mapping[b] ==> a == b)
  }

  function FirstLink(links: seq<Link>, name: string): Option<Link> {
    if links == [] then None
    else if links[0].distant.name == name then Some(links[0])
    else FirstLink(links[1..], name)
  }

  function Targets(links: seq<Link>): set<string> {
    set link | link in links :: link.distant.name
  }

  /** The first rule for the address of a name comes from the first link to that name. */
  lemma {:induction false} FirstRuleOfLinks(links: seq<Link>, mapping: map<string, string>, names: set<string>, name: string)
    requires Separates(mapping, names) && Targets(links) <= names && name in names
    ensures FirstRule(RulesOf(links, mapping), mapping[name]) ==
            match FirstLink(links, name)
            case Some(link) => Some(RuleOf(link, mapping))
            case None => None
  {
    if links != [] {
      assert links[0].distant.name in Targets(links);
      assert RulesOf(links, mapping)[1..] == RulesOf(links[1..], mapping);
      FirstRuleOfLinks(links[1..], mapping, names, name);
    }
  }

  lemma {:induction false} NoRuleElsewhere(rules: seq<Rule>, ip: string)
    requires ip !in Addresses(rules)
    ensures FirstRule(rules, ip) == None
  {
    if rules != [] {
      NoRuleElsewhere(rules[1..], ip);
    }
  }

  lemma RulesAddresses(links: seq<Link>, mapping: map<string, string>, names: set<string>)
    requires Separates(mapping, names) && Targets(links) <= names
    ensures Addresses(RulesOf(links, mapping)) == set n | n in Targets(links) :: mapping[n]
    ensures |Addresses(RulesOf(links, mapping))| == |Targets(links)|
    ensures forall r :: r in RulesOf(links, mapping) ==> IsHost(r.ip)
  {
    var rules := RulesOf(links, mapping);
    assert forall link :: link in links ==> link.distant.name in Targets(links);
    forall n | n in Targets(links) ensures mapping[n] in Addresses(rules) {
      var link :| link in links && link.distant.name == n;
      var i :| 0 <= i < |links| && links[i] == link;
      assert rules[i] in rules;
    }
    ImageCount(mapping, Targets(links), names);
  }

  lemma {:induction false} ImageCount(mapping: map<string, string>, some: set<string>, names: set<string>)
    requires Separates(mapping, names) && some <= names
    ensures |set n | n in some :: mapping[n]| == |some|
  {
    var image := set n | n in some :: mapping[n];
    if some != {} {
      var n :| n in some;
      ImageCount(mapping, some - {n}, names);
      assert image == (set m | m in some - {n} :: mapping[m]) + {mapping[n]};
    }
  }

  /** What a packet meets is a delay in nanoseconds and a loss. */
  predicate Delays(got: Option<NetEm>, delay: int, loss: real) {
    got.Some? && IsOnWire(got.value, delay, loss)
  }

  /** The first link to a name decides what is emulated toward it, and nothing else is. */
  ghost predicate EmulatesLinks(d: Device, links: seq<Link>, mapping: map<string, string>, names: set<string>)
    requires names <= mapping.Keys && Targets(links) <= names
  {
    && (forall name :: name in names ==>
          match FirstLink(links, name)
          case Some(link) => Delays(Classify(d, mapping[name]), link.delay.value, link.loss.value)
          case None => Classify(d, mapping[name]) == None)
    && (forall ip :: (forall n :: n in Targets(links) ==> mapping[n] != ip) ==> Classify(d, ip) == None)
  }

  /** What the device of a node does once the rules of its links are compiled: it succeeds exactly with
      at most 999 neighbours, and then the first link to a name decides, and nothing else is emulated. */
  lemma LinksEmulated(dev: string, links: seq<Link>, mapping: map<string, string>, names: set<string>)
    requires IsWord(dev) && Separates(mapping, names) && Targets(links) <= names
    ensures var (d, ok) := Run(dev, EMPTY, Compile(dev, RulesOf(links, mapping)));
            (ok <==> |Targets(links)| <= 999) && (ok ==> EmulatesLinks(d, links, mapping, names))
  {
    hide Run, Compile;
    var rules := RulesOf(links, mapping);
    RulesAddresses(links, mapping, names);
    CompilerCorrect(dev, rules);
    hide IsOnWire;
    forall name | name in names
      ensures FirstRule(rules, mapping[name]) ==
              match FirstLink(links, name)
              case Some(link) => Some(RuleOf(link, mapping))
              case None => None
    {
      FirstRuleOfLinks(links, mapping, names, name);
    }
    forall ip | forall n :: n in Targets(links) ==> mapping[n] != ip ensures FirstRule(rules, ip) == None {
      NoRuleElsewhere(rules, ip);
    }
  }

  /** Whatever the mapping, the rules of links are accepted exactly if they have at most 999 addresses and
      every target is mapped to a host. */
  lemma LinksAcceptedIff(dev: string, links: seq<Link>, mapping: map<string, string>)
    requires IsWord(dev) && forall n :: n in mapping ==> ' ' !in mapping[n]
    ensures Run(dev, EMPTY, Compile(dev, RulesOf(links, mapping))).1
            <==> |Addresses(RulesOf(links, mapping))| <= 999 && forall n :: n in Targets(links) ==> n in mapping && IsHost(mapping[n])
  {
    hide Run, Compile;
    var rules := RulesOf(links, mapping);
    CompilerCorrect(dev, rules);
    forall i | 0 <= i < |links| ensures rules[i] in rules && links[i].distant.name in Targets(links) {}
    assert !IsHost("");
  }

  /** One neighbour without an address is enough for the whole configuration to fail: its rule is for
      the address "/32", which the device does not read. */
  lemma UnmappedIsRefused(dev: string, links: seq<Link>, mapping: map<string, string>, name: string)
    requires IsWord(dev) && name in Targets(links) && name !in mapping
    requires forall n :: n in mapping ==> ' ' !in mapping[n]
    ensures !Run(dev, EMPTY, Compile(dev, RulesOf(links, mapping))).1
  {
    hide Run, Compile;
    LinksAcceptedIff(dev, links, mapping);
  }

  // ---------- full topologies ----------

  /** The first input from one name to another. */
  function FirstInput(inputs: seq<FullInput>, src: string, dst: string): Option<FullInput> {
    if inputs == [] then None
    else if inputs[0].from == src && inputs[0].to == dst then Some(inputs[0])
    else FirstInput(inputs[1..], src, dst)
  }

  function Destinations(inputs: seq<FullInput>, src: string): set<string> {
    set i | i in inputs && i.from == src :: i.to
  }

  lemma {:induction false} FirstLinkAppend(links: seq<Link>, link: Link, name: string)
    ensures FirstLink(links + [link], name)
            == if FirstLink(links, name).Some? then FirstLink(links, name)
               else if link.distant.name == name then Some(link) else None
  {
    if links != [] {
      FirstLinkAppend(links[1..], link, name);
      assert (links + [link])[1..] == links[1..] + [link];
    }
  }

  lemma {:induction false} FirstInputAppend(inputs: seq<FullInput>, input: FullInput, src: string, dst: string)
    ensures FirstInput(inputs + [input], src, dst)
            == if FirstInput(inputs, src, dst).Some? then FirstInput(inputs, src, dst)
               else if input.from == src && input.to == dst then Some(input) else None
  {
    if inputs != [] {
      FirstInputAppend(inputs[1..], input, src, dst);
      assert (inputs + [input])[1..] == inputs[1..] + [input];
    }
  }

  lemma TargetsAppend(links: seq<Link>, link: Link)
    ensures Targets(links + [link]) == Targets(links) + {link.distant.name}
  {
  }

  lemma DestinationsAppend(inputs: seq<FullInput>, input: FullInput, src: string)
    ensures Destinations(inputs + [input], src) == Destinations(inputs, src) + if input.from == src then {input.to} else {}
  {
  }

  /** The links of a node are its inputs, in their order. */
  lemma {:induction false} LinksAreInputs(inputs: seq<FullInput>, src: string, dst: string)
    ensures FirstLink(LinksFrom(inputs, src), dst) ==
            match FirstInput(inputs, src, dst)
            case Some(i) => Some(Link(Named(dst), Delay(i.latency, 0), Loss(0.0)))
            case None => None
    ensures Targets(LinksFrom(inputs, src)) == Destinations(inputs, src)
  {
    if inputs != [] {
      var before, last := inputs[..|inputs| - 1], inputs[|inputs| - 1];
      LinksAreInputs(before, src, dst);
      assert inputs == before + [last];
      FirstInputAppend(before, last, src, dst);
      LinksFromNext(before, last, src);
      var link := Link(Named(last.to), Delay(last.latency, 0), Loss(0.0));
      FirstLinkAppend(LinksFrom(before, src), link, dst);
      TargetsAppend(LinksFrom(before, src), link);
      DestinationsAppend(before, last, src);
    }
  }

  /** What a packet meets is the latency of an input in nanoseconds, without loss, or nothing without one. */
  predicate IsAsked(got: Option<NetEm>, input: Option<FullInput>) {
    match input
    case Some(i) => Delays(got, i.latency, 0.0)
    case None => got.None?
  }

  /** What the inputs of a full topology promise to the device of a node. */
  ghost predicate EmulatesInputs(d: Device, inputs: seq<FullInput>, src: string, mapping: map<string, string>)
    requires Mentioned(inputs) <= mapping.Keys
  {
    && (forall dst :: dst in Mentioned(inputs) ==>
          IsAsked(Classify(d, mapping[dst]), FirstInput(inputs, src, dst)))
    && (forall ip :: (forall dst :: dst in Destinations(inputs, src) ==> mapping[dst] != ip) ==> Classify(d, ip) == None)
  }

  /** A full topology, end to end. */
  lemma FullEmulated(dev: string, inputs: seq<FullInput>, src: string, mapping: map<string, string>)
    requires IsWord(dev) && Separates(mapping, Mentioned(inputs))
    ensures var (d, ok) := Run(dev, EMPTY, Compile(dev, RulesOf(LinksFrom(inputs, src), mapping)));
            (ok <==> |Destinations(inputs, src)| <= 999) && (ok ==> EmulatesInputs(d, inputs, src, mapping))
  {
    hide Run, Compile, IsOnWire;
    forall dst { LinksAreInputs(inputs, src, dst); }
    LinksAreInputs(inputs, src, src);
    assert Destinations(inputs, src) <= Mentioned(inputs);
    LinksEmulated(dev, LinksFrom(inputs, src), mapping, Mentioned(inputs));
  }

  /** Builds a full topology and configures the device of one node with it. */
  method ConfigureFull(dev: string, inputs: seq<FullInput>, src: string, mapping: map<string, string>, net: NetDevice)
    returns (ok: bool)
    requires IsWord(dev) && Separates(mapping, Mentioned(inputs)) && net.tc == EMPTY
    modifies net
    ensures ok <==> |Destinations(inputs, src)| <= 999
    ensures ok ==> EmulatesInputs(net.tc, inputs, src, mapping)
  {
    hide Run, Compile;
    var t := NewFullTopology(inputs);
    var rules := t.Rules(src, mapping);
    FullEmulated(dev, inputs, src, mapping);
    ok := Executor(dev).Execute(rules, net);
  }

  // ---------- areas ----------

  function NodeNames(total: nat): set<string> {
    set k: nat | k < total :: NodeName(k)
  }

  /** What a packet meets between areas i and j: within an area its latency in nanoseconds, else the distance
      of the two in milliseconds, without loss. */
  predicate IsBetween(got: Option<NetEm>, sites: seq<Site>, i: nat, j: nat)
    requires i < |sites| && j < |sites|
  {
    if i == j then Delays(got, sites[i].latency.value, 0.0)
    else got.Some? && got.value.loss == 0 && IsDistance(got.value.delayMs, sites[i].x, sites[i].y, sites[j].x, sites[j].y)
  }

  lemma LatencyOnWire(params: NetEm, x1: real, y1: real, x2: real, y2: real)
    requires IsOnWire(params, CalculateLatency(x1, y1, x2, y2).value, 0.0)
    ensures params.loss == 0 && IsDistance(params.delayMs, x1, y1, x2, y2)
  {
    hide CalculateLatency, IsDistance;
    assert params.delayMs == CalculateLatency(x1, y1, x2, y2).value / 1_000_000;
  }

  lemma DelayIsBetween(got: Option<NetEm>, sites: seq<Site>, i: nat, j: nat)
    requires i < |sites| && j < |sites| && Delays(got, Between(sites, i, j).value, 0.0)
    ensures IsBetween(got, sites, i, j)
  {
    hide IsOnWire, IsDistance;
    if i != j { LatencyOnWire(got.value, sites[i].x, sites[i].y, sites[j].x, sites[j].y); }
  }

  /** What the areas promise to the device of the k-th node, which is in area i. */
  ghost predicate EmulatesAreas(d: Device, sites: seq<Site>, i: nat, k: nat, mapping: map<string, string>)
    requires i < |sites|
  {
    && (forall j, l: nat :: 0 <= j < |sites| && InArea(sites, j, l) && l != k ==>
          IsBetween(Classify(d, AddressOf(mapping, NodeName(l))), sites, i, j))
    && (forall ip :: (forall l: nat :: l < Total(sites) && l != k ==> AddressOf(mapping, NodeName(l)) != ip) ==>
          Classify(d, ip) == None)
  }

  /** Areas, end to end, for every order in which the links may be listed. */
  lemma AreasEmulated(dev: string, sites: seq<Site>, i: nat, k: nat, links: seq<Link>, mapping: map<string, string>)
    requires IsWord(dev) && i < |sites| && InArea(sites, i, k)
    requires Lists(links, Wanted(sites, i, k, |sites|))
    requires Separates(mapping, NodeNames(Total(sites)))
    ensures var (d, ok) := Run(dev, EMPTY, Compile(dev, RulesOf(links, mapping)));
            (ok <==> Total(sites) <= 1000) && (ok ==> EmulatesAreas(d, sites, i, k, mapping))
  {
    hide Run, Compile, Start, Wanted, Between, NodeName, Lists;
    AreaTargets(sites, i, k, links);
    LinksEmulated(dev, links, mapping, NodeNames(Total(sites)));
    var (d, ok) := Run(dev, EMPTY, Compile(dev, RulesOf(links, mapping)));
    if ok {
      hide *;
      LinksMakeAreas(d, sites, i, k, links, mapping);
    }
  }

  lemma LinksMakeAreas(d: Device, sites: seq<Site>, i: nat, k: nat, links: seq<Link>, mapping: map<string, string>)
    requires i < |sites| && InArea(sites, i, k)
    requires Lists(links, Wanted(sites, i, k, |sites|))
    requires Targets(links) <= NodeNames(Total(sites)) <= mapping.Keys
    requires EmulatesLinks(d, links, mapping, NodeNames(Total(sites)))
    ensures EmulatesAreas(d, sites, i, k, mapping)
  {
    hide Start, Wanted, Between, NodeName, Lists, Classify, FirstLink, Delays, IsBetween;
    AreaTargets(sites, i, k, links);
    AreaFirstLinks(sites, i, k, links);
    forall j, l: nat | 0 <= j < |sites| && InArea(sites, j, l) && l != k
      ensures IsBetween(Classify(d, AddressOf(mapping, NodeName(l))), sites, i, j)
    {
      DelayIsBetween(Classify(d, AddressOf(mapping, NodeName(l))), sites, i, j);
    }
  }

  /** The first link from the k-th node to another one has the delay of their areas. */
  lemma AreaFirstLinks(sites: seq<Site>, i: nat, k: nat, links: seq<Link>)
    requires i < |sites| && InArea(sites, i, k)
    requires Lists(links, Wanted(sites, i, k, |sites|))
    ensures forall j, l: nat :: 0 <= j < |sites| && InArea(sites, j, l) && l != k ==>
              && NodeName(l) in NodeNames(Total(sites))
              && FirstLink(links, NodeName(l)) == Some(Link(Member(l), Between(sites, i, j), Loss(0.0)))
  {
    hide Start, Wanted, Between, NodeName, Lists;
    CompleteDigraph(sites, i, k, links);
    AreaTargets(sites, i, k, links);
    Numbered(sites);
    forall j, l: nat | 0 <= j < |sites| && InArea(sites, j, l) && l != k
      ensures FirstLink(links, NodeName(l)) == Some(Link(Member(l), Between(sites, i, j), Loss(0.0)))
    {
      FirstOfLinksTo(links, NodeName(l));
    }
  }

  /** The names that the k-th node has links to: all but its own. */
  lemma AreaTargets(sites: seq<Site>, i: nat, k: nat, links: seq<Link>)
    requires i < |sites| && InArea(sites, i, k)
    requires Lists(links, Wanted(sites, i, k, |sites|))
    ensures Targets(links) == NodeNames(Total(sites)) - {NodeName(k)}
    ensures |Targets(links)| == Total(sites) - 1
    ensures forall link :: link in links ==> link.distant == Named(link.distant.name)
  {
    hide Start, Wanted, Between, Lists, NodeName;
    CompleteDigraph(sites, i, k, links);
    Numbered(sites);
    forall link | link in links
      ensures link.distant.name in NodeNames(Total(sites)) - {NodeName(k)} && link.distant == Named(link.distant.name)
    {
      var p :| 0 <= p < |links| && links[p] == link;
      var j, l: nat :| 0 <= j < |sites| && InArea(sites, j, l) && l != k && links[p].distant == Member(l);
      NodeNameInjective(l, k);
      assert InArea(sites, j, l) && links[p].distant == Named(NodeName(l));
    }
    forall name | name in NodeNames(Total(sites)) - {NodeName(k)} ensures name in Targets(links) {
      var l: nat :| l < Total(sites) && name == NodeName(l);
      var j := AreaOf(sites, l);
      LinksToIsIn(links, Member(l));
    }
    NamesCount(Total(sites));
    assert NodeName(k) in NodeNames(Total(sites));
  }

  lemma {:induction false} AreaOfUpTo(sites: seq<Site>, n: nat, l: nat) returns (j: nat)
    requires n <= |sites| && l < Start(sites, n)
    ensures j < n && InArea(sites, j, l)
  {
    if l < Start(sites, n - 1) { j := AreaOfUpTo(sites, n - 1, l); } else { j := n - 1; }
  }

  /** The area of a number. */
  lemma AreaOf(sites: seq<Site>, l: nat) returns (j: nat)
    requires l < Total(sites)
    ensures j < |sites| && InArea(sites, j, l)
  {
    j := AreaOfUpTo(sites, |sites|, l);
  }

  lemma {:induction false} LinksToIsIn(links: seq<Link>, node: Node)
    requires LinksTo(links, node) != []
    ensures node.name in Targets(links)
  {
    if links[0].distant != node {
      LinksToIsIn(links[1..], node);
    }
  }

  lemma {:induction false} FirstOfLinksTo(links: seq<Link>, name: string)
    requires LinksTo(links, Named(name)) != []
    requires forall link :: link in links ==> link.distant == Named(link.distant.name)
    ensures FirstLink(links, name) == Some(LinksTo(links, Named(name))[0])
  {
    assert links[0] in links;
    if links[0].distant.name != name {
      FirstOfLinksTo(links[1..], name);
    }
  }

  lemma {:induction false} NamesCount(total: nat)
    ensures |NodeNames(total)| == total
  {
    hide NodeName;
    if total > 0 {
      NamesCount(total - 1);
      forall k: nat | k < total - 1 ensures NodeName(k) != NodeName(total - 1) { NodeNameInjective(k, total - 1); }
      var last := NodeName(total - 1);
      assert last !in NodeNames(total - 1);
      assert NodeNames(total) == NodeNames(total - 1) + {last};
    }
  }

  /** Builds an area topology and configures the device of one node with it, whatever orders the maps
      are walked in. Whether or not the device accepts, its rules are those of links that such walks give. */
  method ConfigureArea(dev: string, areas: seq<Area>, target: string, mapping: map<string, string>, net: NetDevice,
                       ghost i: nat, ghost k: nat)
    returns (ok: bool, t: AreaTopology)
    requires AreaTopology.Buildable(areas) && net.tc == EMPTY
    requires i < |areas| && InArea(Shapes(areas), i, k) && target == NodeName(k)
    modifies areas, net
    ensures fresh(t) && t.areas == areas && t.Placed()
    ensures exists rules :: t.AreRules(rules, target, mapping) && (net.tc, ok) == Run(dev, EMPTY, Compile(dev, rules))
    ensures AreaTopology.Separate(areas) ==>
              exists links :: IsWalk(links, Shapes(areas), i, k, |areas|)
                && (net.tc, ok) == Run(dev, EMPTY, Compile(dev, RulesOf(links, mapping)))
    ensures AreaTopology.Separate(areas) && IsWord(dev) && Separates(mapping, NodeNames(Total(Shapes(areas)))) ==>
              && (ok <==> Total(Shapes(areas)) <= 1000)
              && (ok ==> EmulatesAreas(net.tc, Shapes(areas), i, k, mapping))
  {
    hide Run, Compile, EmulatesAreas, IsWalk, Separates, NodeNames, InArea, Start, Emulates, Compilable, IsWord,
         AreaTopology.AreRulesFrom, AreaTopology.Complete, AreaTopology.Separate, AreaTopology.Placed, HasName;
    t := new AreaTopology(areas);
    var found := t.Rules(target, mapping);
    var rules := if found.Some? then found.value else [];
    if AreaTopology.Separate(areas) {
      CompleteRules(dev, t, i, k, rules, mapping);
    }
    ok := Executor(dev).Execute(rules, net);
  }

  /** What the loops of a complete topology give a node is a walk. */
  lemma ProgramWalks(t: AreaTopology, i: nat, k: nat)
    requires t.Complete() && i < |t.areas| && InArea(Shapes(t.areas), i, k)
    ensures Member(k) in t.areas[i].nodes && IsWalk(t.areas[i].nodes[Member(k)], Shapes(t.areas), i, k, |t.areas|)
  {
    hide IsWalk;
  }

  /** What the rules of a node of a complete topology do. */
  lemma CompleteRules(dev: string, t: AreaTopology, i: nat, k: nat, rules: seq<Rule>, mapping: map<string, string>)
    requires t.Complete() && i < |t.areas| && InArea(Shapes(t.areas), i, k)
    requires Member(k) in t.areas[i].nodes && rules == RulesOf(t.areas[i].nodes[Member(k)], mapping)
    ensures exists links :: IsWalk(links, Shapes(t.areas), i, k, |t.areas|) && rules == RulesOf(links, mapping)
    ensures IsWord(dev) && Separates(mapping, NodeNames(Total(Shapes(t.areas)))) ==>
              var (d, ok) := Run(dev, EMPTY, Compile(dev, rules));
              && (ok <==> Total(Shapes(t.areas)) <= 1000)
              && (ok ==> EmulatesAreas(d, Shapes(t.areas), i, k, mapping))
  {
    var sites, links := Shapes(t.areas), t.areas[i].nodes[Member(k)];
    ProgramWalks(t, i, k);
    hide *;
    WalkLists(links, sites, i, k, |sites|);
    if IsWord(dev) && Separates(mapping, NodeNames(Total(sites))) {
      AreasEmulated(dev, sites, i, k, links, mapping);
    }
  }

  /** The links that decide what the device emulates. */
  function Effective(links: seq<Link>): set<Link> {
    set link | link in Fitting(links)
  }

  /** The device after the rules of the links, whether or not all were accepted. */
  function Configured(dev: string, links: seq<Link>, mapping: map<string, string>): Device {
    Run(dev, EMPTY, Compile(dev, RulesOf(links, mapping))).0
  }

  /** What the first 999 links say is emulated, and nothing else. */
  lemma FittingDecides(dev: string, sites: seq<Site>, i: nat, k: nat, links: seq<Link>, mapping: map<string, string>, ip: string)
    requires IsWord(dev) && i < |sites| && InArea(sites, i, k)
    requires Lists(links, Wanted(sites, i, k, |sites|))
    requires Separates(mapping, NodeNames(Total(sites)))
    ensures Classify(Configured(dev, links, mapping), ip) == Expected(RulesOf(Fitting(links), mapping), ip)
  {
    var rules := RulesOf(links, mapping);
    AreaRulesDistinct(sites, i, k, links, mapping);
    hide Run, Compile, Wanted, Lists, Start, NodeNames, Separates, Classify;
    FirstsOfDistinct(rules);
    AcceptedOfHosts(rules);
    FittingRules(links, mapping);
    CompilerRun(dev, rules);
    hide Expected, RulesOf, Fitting;
  }

  lemma FittingRules(links: seq<Link>, mapping: map<string, string>)
    ensures Fitting(RulesOf(links, mapping)) == RulesOf(Fitting(links), mapping)
  {
    hide RuleOf;
  }

  /** A destination is served exactly if a deciding link leads to it, and then as that link says. */
  lemma EffectiveDecides(sites: seq<Site>, i: nat, k: nat, links: seq<Link>, mapping: map<string, string>, ip: string)
    requires i < |sites| && InArea(sites, i, k) && Separates(mapping, NodeNames(Total(sites)))
    requires Lists(links, Wanted(sites, i, k, |sites|))
    ensures match Expected(RulesOf(Fitting(links), mapping), ip)
            case Some(params) => exists link :: link in Effective(links) && AddressOf(mapping, link.distant.name) == ip
                                                && params == ParamsOf(RuleOf(link, mapping))
            case None => forall link :: link in Effective(links) ==> AddressOf(mapping, link.distant.name) != ip
  {
    var few := Fitting(links);
    var rules := RulesOf(few, mapping);
    hide Wanted, Lists, Start, NodeNames, Separates, ParamsOf, Fitting;
    FirstRuleIsRule(rules, ip);
    if FirstRule(rules, ip).Some? {
      var p :| 0 <= p < |rules| && rules[p] == FirstRule(rules, ip).value && rules[p].ip == ip;
      assert few[p] in Effective(links);
    } else {
      forall link | link in Effective(links) ensures AddressOf(mapping, link.distant.name) != ip {
        var p :| 0 <= p < |few| && few[p] == link;
        assert rules[p].ip != ip;
      }
    }
  }

  /** Two orders of the links of a node give networks that treat every destination alike. */
  ghost predicate SameNetwork(dev: string, a: seq<Link>, b: seq<Link>, mapping: map<string, string>) {
    forall ip :: Classify(Configured(dev, a, mapping), ip) == Classify(Configured(dev, b, mapping), ip)
  }

  lemma EffectiveIsWanted(sites: seq<Site>, i: nat, k: nat, links: seq<Link>)
    requires i < |sites| && Lists(links, Wanted(sites, i, k, |sites|))
    ensures Effective(links) <= Wanted(sites, i, k, |sites|)
  {
    hide Wanted;
  }

  lemma SameEffectiveSameService(dev: string, sites: seq<Site>, i: nat, k: nat, a: seq<Link>, b: seq<Link>,
                                 mapping: map<string, string>, ip: string)
    requires IsWord(dev) && i < |sites| && InArea(sites, i, k)
    requires Lists(a, Wanted(sites, i, k, |sites|)) && Lists(b, Wanted(sites, i, k, |sites|))
    requires Separates(mapping, NodeNames(Total(sites))) && Effective(a) <= Effective(b)
    ensures Classify(Configured(dev, a, mapping), ip).Some? ==>
              Classify(Configured(dev, b, mapping), ip) == Classify(Configured(dev, a, mapping), ip)
  {
    FittingDecides(dev, sites, i, k, a, mapping, ip);
    FittingDecides(dev, sites, i, k, b, mapping, ip);
    EffectiveDecides(sites, i, k, a, mapping, ip);
    EffectiveDecides(sites, i, k, b, mapping, ip);
    EffectiveIsWanted(sites, i, k, b);
    hide Wanted, Lists, Start, NodeNames, Separates, ParamsOf, Fitting, Effective, Classify, Configured, Expected, RulesOf;
    if Expected(RulesOf(Fitting(a), mapping), ip).Some? {
      var p :| p in Effective(a) && AddressOf(mapping, p.distant.name) == ip
               && Expected(RulesOf(Fitting(a), mapping), ip).value == ParamsOf(RuleOf(p, mapping));
      var q :| q in Effective(b) && AddressOf(mapping, q.distant.name) == ip
               && Expected(RulesOf(Fitting(b), mapping), ip).value == ParamsOf(RuleOf(q, mapping));
      SameAddressSameLink(sites, i, k, p, q, mapping);
    }
  }

  /** Every deciding link shows in the network. */
  lemma SameNetworkSameEffective(dev: string, sites: seq<Site>, i: nat, k: nat, a: seq<Link>, b: seq<Link>,
                                 mapping: map<string, string>, link: Link)
    requires IsWord(dev) && i < |sites| && InArea(sites, i, k)
    requires Lists(a, Wanted(sites, i, k, |sites|)) && Lists(b, Wanted(sites, i, k, |sites|))
    requires Separates(mapping, NodeNames(Total(sites))) && SameNetwork(dev, a, b, mapping) && link in Effective(a)
    ensures link in Effective(b)
  {
    var ip := AddressOf(mapping, link.distant.name);
    FittingDecides(dev, sites, i, k, a, mapping, ip);
    FittingDecides(dev, sites, i, k, b, mapping, ip);
    EffectiveDecides(sites, i, k, a, mapping, ip);
    EffectiveDecides(sites, i, k, b, mapping, ip);
    EffectiveIsWanted(sites, i, k, a);
    EffectiveIsWanted(sites, i, k, b);
    assert Classify(Configured(dev, a, mapping), ip) == Classify(Configured(dev, b, mapping), ip);
    hide Wanted, Lists, Start, NodeNames, Separates, ParamsOf, Fitting, Effective, Classify, Configured, Expected, RulesOf;
    var q :| q in Effective(b) && AddressOf(mapping, q.distant.name) == ip
             && Expected(RulesOf(Fitting(b), mapping), ip).value == ParamsOf(RuleOf(q, mapping));
    SameAddressSameLink(sites, i, k, link, q, mapping);
  }

  /** For any number of nodes, two orders of the links give the same network exactly if the same links
      are among the first 999 of each. */
  lemma SameNetworkIff(dev: string, sites: seq<Site>, i: nat, k: nat, a: seq<Link>, b: seq<Link>, mapping: map<string, string>)
    requires IsWord(dev) && i < |sites| && InArea(sites, i, k)
    requires Lists(a, Wanted(sites, i, k, |sites|)) && Lists(b, Wanted(sites, i, k, |sites|))
    requires Separates(mapping, NodeNames(Total(sites)))
    ensures SameNetwork(dev, a, b, mapping) <==> Effective(a) == Effective(b)
  {
    hide Wanted, Lists, Start, NodeNames, Separates, Fitting, Effective, Classify, Configured;
    if Effective(a) == Effective(b) {
      forall ip ensures Classify(Configured(dev, a, mapping), ip) == Classify(Configured(dev, b, mapping), ip) {
        SameEffectiveSameService(dev, sites, i, k, a, b, mapping, ip);
        SameEffectiveSameService(dev, sites, i, k, b, a, mapping, ip);
      }
    }
    if SameNetwork(dev, a, b, mapping) {
      forall link ensures link in Effective(a) <==> link in Effective(b) {
        if link in Effective(a) { SameNetworkSameEffective(dev, sites, i, k, a, b, mapping, link); }
        if link in Effective(b) { SameNetworkSameEffective(dev, sites, i, k, b, a, mapping, link); }
      }
    }
  }

  lemma AllEffective(sites: seq<Site>, i: nat, k: nat, links: seq<Link>)
    requires i < |sites| && InArea(sites, i, k) && Lists(links, Wanted(sites, i, k, |sites|)) && Total(sites) <= 1000
    ensures Effective(links) == Wanted(sites, i, k, |sites|)
  {
    hide Wanted, Start, Between;
    CompleteDigraph(sites, i, k, links);
  }

  /** Up to 1000 nodes, the emulated network does not depend on the order in which the links are listed. */
  lemma OrderIsIrrelevant(dev: string, sites: seq<Site>, i: nat, k: nat, a: seq<Link>, b: seq<Link>, mapping: map<string, string>)
    requires IsWord(dev) && i < |sites| && InArea(sites, i, k)
    requires Lists(a, Wanted(sites, i, k, |sites|)) && Lists(b, Wanted(sites, i, k, |sites|))
    requires Separates(mapping, NodeNames(Total(sites))) && Total(sites) <= 1000
    ensures SameNetwork(dev, a, b, mapping)
  {
    hide *;
    AllEffective(sites, i, k, a);
    AllEffective(sites, i, k, b);
    SameNetworkIff(dev, sites, i, k, a, b, mapping);
  }

  /** The commands themselves do depend on it: different orders compile to different commands. */
  lemma OrderChangesCommands(dev: string, sites: seq<Site>, i: nat, k: nat, a: seq<Link>, b: seq<Link>, mapping: map<string, string>)
    requires IsWord(dev) && i < |sites| && InArea(sites, i, k)
    requires Lists(a, Wanted(sites, i, k, |sites|)) && Lists(b, Wanted(sites, i, k, |sites|))
    requires Separates(mapping, NodeNames(Total(sites)))
    ensures Compile(dev, RulesOf(a, mapping)) == Compile(dev, RulesOf(b, mapping)) <==> a == b
  {
    if Compile(dev, RulesOf(a, mapping)) == Compile(dev, RulesOf(b, mapping)) {
      hide *;
      AreaRulesDistinct(sites, i, k, a, mapping);
      AreaRulesDistinct(sites, i, k, b, mapping);
      CommandsTellOrder(dev, RulesOf(a, mapping), RulesOf(b, mapping));
      RulesTellLinks(sites, i, k, a, b, mapping);
    }
  }

  /** A link of a node can be told from the address that its target is mapped to. */
  lemma SameAddressSameLink(sites: seq<Site>, i: nat, k: nat, p: Link, q: Link, mapping: map<string, string>)
    requires i < |sites| && InArea(sites, i, k) && Separates(mapping, NodeNames(Total(sites)))
    requires p in Wanted(sites, i, k, |sites|) && q in Wanted(sites, i, k, |sites|)
    ensures p.distant.name in mapping && IsHost(mapping[p.distant.name])
    ensures AddressOf(mapping, p.distant.name) == AddressOf(mapping, q.distant.name) ==> p == q
  {
    hide Wanted, Start, NodeName, Between;
    var l := WantedTarget(sites, i, k, |sites|, p);
    var m := WantedTarget(sites, i, k, |sites|, q);
    var j :| 0 <= j < |sites| && InArea(sites, j, l) && p == Link(Member(l), Between(sites, i, j), Loss(0.0));
    var h :| 0 <= h < |sites| && InArea(sites, h, m) && q == Link(Member(m), Between(sites, i, h), Loss(0.0));
    Numbered(sites);
    assert NodeName(l) in NodeNames(Total(sites)) && NodeName(m) in NodeNames(Total(sites));
    if AddressOf(mapping, p.distant.name) == AddressOf(mapping, q.distant.name) {
      NodeNameInjective(l, m);
      OneDelay(sites, i, k, j, l, q);
    }
  }

  lemma AreaRulesDistinct(sites: seq<Site>, i: nat, k: nat, links: seq<Link>, mapping: map<string, string>)
    requires i < |sites| && InArea(sites, i, k) && Separates(mapping, NodeNames(Total(sites)))
    requires Lists(links, Wanted(sites, i, k, |sites|))
    ensures Distinct(RulesOf(links, mapping)) && AddressesAreWords(RulesOf(links, mapping))
    ensures forall p :: 0 <= p < |links| ==> IsHost(RulesOf(links, mapping)[p].ip)
  {
    hide Wanted, Start, NodeNames, Separates;
    var rules := RulesOf(links, mapping);
    forall p, q | 0 <= p < q < |rules| ensures rules[p].ip != rules[q].ip {
      assert links[p] in links && links[q] in links;
      SameAddressSameLink(sites, i, k, links[p], links[q], mapping);
    }
    forall p | 0 <= p < |rules| ensures IsHost(rules[p].ip) {
      assert links[p] in links;
      SameAddressSameLink(sites, i, k, links[p], links[p], mapping);
    }
  }

  lemma RulesTellLinks(sites: seq<Site>, i: nat, k: nat, a: seq<Link>, b: seq<Link>, mapping: map<string, string>)
    requires i < |sites| && InArea(sites, i, k) && Separates(mapping, NodeNames(Total(sites)))
    requires Lists(a, Wanted(sites, i, k, |sites|)) && Lists(b, Wanted(sites, i, k, |sites|))
    requires var r, s := RulesOf(a, mapping), RulesOf(b, mapping);
             |r| == |s| && forall p :: 0 <= p < |r| ==> r[p].ip == s[p].ip
    ensures a == b
  {
    hide Wanted, Start, NodeNames, Separates;
    forall p | 0 <= p < |a| ensures a[p] == b[p] {
      assert a[p] in a && b[p] in b && RulesOf(a, mapping)[p].ip == RulesOf(b, mapping)[p].ip;
      SameAddressSameLink(sites, i, k, a[p], b[p], mapping);
    }
  }

  /** The delay emulated between two nodes is the same in both directions. */
  lemma AreaDelaysSymmetric(sites: seq<Site>, i: nat, j: nat, k: nat, l: nat, d: Device, e: Device, mapping: map<string, string>)
    requires i < |sites| && j < |sites| && InArea(sites, i, k) && InArea(sites, j, l) && k != l
    requires EmulatesAreas(d, sites, i, k, mapping) && EmulatesAreas(e, sites, j, l, mapping)
    ensures Classify(d, AddressOf(mapping, NodeName(l))) == Classify(e, AddressOf(mapping, NodeName(k)))
  {
    hide Classify, IsBetween, NodeName, Start;
    SameBetween(Classify(d, AddressOf(mapping, NodeName(l))), Classify(e, AddressOf(mapping, NodeName(k))), sites, i, j);
  }

  lemma SameBetween(got: Option<NetEm>, back: Option<NetEm>, sites: seq<Site>, i: nat, j: nat)
    requires i < |sites| && j < |sites| && IsBetween(got, sites, i, j) && IsBetween(back, sites, j, i)
    ensures got == back
  {
    hide IsOnWire, IsDistance;
    if i == j {
      OnWireIsUnique(got.value, back.value, sites[i].latency.value, 0.0);
    } else {
      DistanceIsSymmetric(got.value.delayMs, sites[i].x, sites[i].y, sites[j].x, sites[j].y);
      DistanceIsUnique(got.value.delayMs, back.value.delayMs, sites[j].x, sites[j].y, sites[i].x, sites[i].y);
    }
  }
}
