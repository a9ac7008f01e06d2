/** sim/kubernetes/engine.go: UploadConfig gives every pod the rules of its node, with the addresses of
    the pods. */
module UploadConfig {
  import opened Prelude
  import opened Text
  import opened Rule
  import opened Topology
  import opened Area
  import opened Tc
  import opened Executor
  import opened Emulation
  import opened LinkState
  import FanOut

  function Labels(pods: seq<Pod>): set<string> {
    set i | 0 <= i < |pods| && pods[i].node != "" :: pods[i].node
  }

  /** The pod is the last one with its label. */
  predicate IsLast(pods: seq<Pod>, i: nat)
    requires i < |pods|
  {
    forall k :: i < k < |pods| ==> pods[k].node != pods[i].node
  }

  /** Each label is mapped to the address of the last pod that has it; pods without one are left out. */
  ghost predicate Maps(mapping: map<string, string>, pods: seq<Pod>) {
    && mapping.Keys == Labels(pods)
    && forall i :: 0 <= i < |pods| && pods[i].node in mapping && IsLast(pods, i) ==> mapping[pods[i].node] == pods[i].ip
  }

  method MakeMapping(pods: seq<Pod>) returns (mapping: map<string, string>)
    ensures Maps(mapping, pods)
  {
    mapping := map[];
    for i := 0 to |pods|
      invariant Maps(mapping, pods[..i])
    {
      MapsNext(mapping, pods[..i], pods[i]);
      assert pods[..i + 1] == pods[..i] + [pods[i]];
      if pods[i].node != "" {
        mapping := mapping[pods[i].node := pods[i].ip];
      }
    }
    assert pods[..|pods|] == pods;
  }

  lemma MapsNext(mapping: map<string, string>, pods: seq<Pod>, pod: Pod)
    requires Maps(mapping, pods)
    ensures Maps(if pod.node != "" then mapping[pod.node := pod.ip] else mapping, pods + [pod])
  {
    var all, n := pods + [pod], |pods|;
    assert Labels(all) == Labels(pods) + if pod.node != "" then {pod.node} else {} by {
      assert all[n] == pod && forall i :: 0 <= i < n ==> all[i] == pods[i];
    }
    forall i | 0 <= i < n && IsLast(all, i) ensures IsLast(pods, i) && pod.node != pods[i].node {
      assert all[n] == pod && forall k :: 0 <= k < n ==> all[k] == pods[k];
    }
  }

  /** What a cluster gives each node of the topology: a pod of its own with a host address. */
  ghost predicate Deployed(pods: seq<Pod>, names: set<string>) {
    && Separate(pods) && names <= Labels(pods)
    && forall i :: 0 <= i < |pods| ==> IsHost(pods[i].ip)
  }

  lemma MappingSeparates(pods: seq<Pod>, names: set<string>, mapping: map<string, string>)
    requires Deployed(pods, names) && Maps(mapping, pods)
    ensures Separates(mapping, names)
    ensures forall i :: 0 <= i < |pods| && pods[i].node in names ==> mapping[pods[i].node] == pods[i].ip
  {
  }

  /** Every pod is found under its label with the address that the rules use for it. */
  lemma MappingAgreesWithFindPod(pods: seq<Pod>, names: set<string>, mapping: map<string, string>, name: string)
    requires Deployed(pods, names) && Maps(mapping, pods) && name in names
    ensures FindPod(pods, name).Some? && mapping[name] == pods[FindPod(pods, name).value].ip
  {
  }

  predicate IsFirst(pods: seq<Pod>, i: nat)
    requires i < |pods|
  {
    forall k :: 0 <= k < i ==> pods[k].node != pods[i].node
  }

  /** The address that the rules use for a name is that of the pod that a cut finds. */
  predicate Agrees(pods: seq<Pod>, mapping: map<string, string>, name: string)
    requires name in mapping
  {
    var found := FindPod(pods, name);
    found.Some? && mapping[name] == pods[found.value].ip
  }

  /** The first and the last pod of one label. */
  predicate IsRange(pods: seq<Pod>, first: nat, last: nat) {
    && first < |pods| && last < |pods| && pods[first].node == pods[last].node != ""
    && IsFirst(pods, first) && IsLast(pods, last)
  }

  /** On any cluster, they are the same exactly if the first and the last pod of the label share an address. */
  lemma AgreesIff(pods: seq<Pod>, mapping: map<string, string>, first: nat, last: nat)
    requires Maps(mapping, pods) && IsRange(pods, first, last)
    ensures pods[last].node in mapping && FindPod(pods, pods[last].node) == Some(first)
    ensures Agrees(pods, mapping, pods[last].node) <==> pods[first].ip == pods[last].ip
  {
    assert pods[last].node in Labels(pods);
  }

  lemma RangeOf(pods: seq<Pod>, name: string) returns (first: nat, last: nat)
    requires name in Labels(pods)
    ensures IsRange(pods, first, last) && pods[last].node == name
  {
    first := FindPod(pods, name).value;
    last := first;
    for i := first to |pods|
      invariant first <= last <= i && last < |pods| && pods[last].node == name
      invariant forall k :: last < k < i ==> pods[k].node != name
    {
      if pods[i].node == name { last := i; }
    }
  }

  /** The rules and the cuts agree on every node of a cluster exactly if no label has a first and a last
      pod with different addresses. */
  lemma AllAgreeIff(pods: seq<Pod>, mapping: map<string, string>)
    requires Maps(mapping, pods)
    ensures (forall name :: name in mapping ==> Agrees(pods, mapping, name))
            <==> (forall i: nat, j: nat :: IsRange(pods, i, j) ==> pods[i].ip == pods[j].ip)
  {
    forall i: nat, j: nat | IsRange(pods, i, j)
      ensures pods[j].node in mapping && (Agrees(pods, mapping, pods[j].node) <==> pods[i].ip == pods[j].ip)
    {
      AgreesIff(pods, mapping, i, j);
    }
    forall name | name in mapping ensures exists i: nat, j: nat :: IsRange(pods, i, j) && pods[j].node == name {
      var i, j := RangeOf(pods, name);
    }
  }

  /** A cluster on which they differ: two pods of one node. */
  lemma CanDisagree(mapping: map<string, string>)
    requires Maps(mapping, [Pod("a", "node0", "10.0.0.1"), Pod("b", "node0", "10.0.0.2")])
    ensures "node0" in mapping && mapping["node0"] == "10.0.0.2"
    ensures !Agrees([Pod("a", "node0", "10.0.0.1"), Pod("b", "node0", "10.0.0.2")], mapping, "node0")
  {
    var pods := [Pod("a", "node0", "10.0.0.1"), Pod("b", "node0", "10.0.0.2")];
    assert "10.0.0.1"[7] != "10.0.0.2"[7];
    AgreesIff(pods, mapping, 0, 1);
  }

  /** A full topology on a cluster: the device of a pod accepts the rules of its node exactly if that has
      at most 999 destinations, and then emulates toward the pod of every other node what the first input
      from the one node to the other says, and toward a pod without an input nothing. */
  lemma FullOnCluster(dev: string, inputs: seq<FullInput>, pods: seq<Pod>, mapping: map<string, string>, i: nat)
    requires IsWord(dev) && Deployed(pods, Mentioned(inputs)) && Maps(mapping, pods) && i < |pods|
    ensures var (d, ok) := Run(dev, EMPTY, Compile(dev, RulesOf(LinksFrom(inputs, pods[i].node), mapping)));
            && (ok <==> |Destinations(inputs, pods[i].node)| <= 999)
            && (ok ==> forall j :: 0 <= j < |pods| ==>
                  IsAsked(Classify(d, pods[j].ip), FirstInput(inputs, pods[i].node, pods[j].node)))
  {
    hide Run, Compile;
    var src := pods[i].node;
    MappingSeparates(pods, Mentioned(inputs), mapping);
    FullEmulated(dev, inputs, src, mapping);
    var (d, ok) := Run(dev, EMPTY, Compile(dev, RulesOf(LinksFrom(inputs, src), mapping)));
    if ok {
      forall j | 0 <= j < |pods| ensures IsAsked(Classify(d, pods[j].ip), FirstInput(inputs, src, pods[j].node)) {
        OnePair(d, inputs, pods, mapping, src, j);
      }
    }
  }

  lemma OnePair(d: Device, inputs: seq<FullInput>, pods: seq<Pod>, mapping: map<string, string>, src: string, j: nat)
    requires Deployed(pods, Mentioned(inputs)) && Maps(mapping, pods) && j < |pods|
    requires Mentioned(inputs) <= mapping.Keys && EmulatesInputs(d, inputs, src, mapping)
    ensures IsAsked(Classify(d, pods[j].ip), FirstInput(inputs, src, pods[j].node))
  {
    hide Classify;
    MappingSeparates(pods, Mentioned(inputs), mapping);
    var dst := pods[j].node;
    if dst !in Mentioned(inputs) {
      NoInput(inputs, src, dst);
      forall other | other in Destinations(inputs, src) ensures mapping[other] != pods[j].ip {
        MappingAgreesWithFindPod(pods, Mentioned(inputs), mapping, other);
      }
    }
  }

  /** An area topology on a cluster, for every order of the links: the device of the pod of a node emulates
      toward the pod of every other node the delay between their areas, and nothing toward the rest. */
  lemma AreasOnCluster(dev: string, sites: seq<Site>, pods: seq<Pod>, mapping: map<string, string>,
                       i: nat, k: nat, links: seq<Link>)
    requires IsWord(dev) && i < |sites| && InArea(sites, i, k) && Lists(links, Wanted(sites, i, k, |sites|))
    requires Deployed(pods, NodeNames(Total(sites))) && Maps(mapping, pods)
    ensures var (d, ok) := Run(dev, EMPTY, Compile(dev, RulesOf(links, mapping)));
            (ok <==> Total(sites) <= 1000) && (ok ==> ServesAreas(d, sites, i, k, pods))
  {
    hide *;
    MappingSeparates(pods, NodeNames(Total(sites)), mapping);
    AreasEmulated(dev, sites, i, k, links, mapping);
    var (d, ok) := Run(dev, EMPTY, Compile(dev, RulesOf(links, mapping)));
    if ok {
      AreasReachPods(d, sites, i, k, pods, mapping);
    }
  }

  ghost predicate ServesAreas(d: Device, sites: seq<Site>, i: nat, k: nat, pods: seq<Pod>)
    requires i < |sites|
  {
    && (forall q, j, l: nat :: 0 <= q < |pods| && 0 <= j < |sites| && InArea(sites, j, l) && l != k && pods[q].node == NodeName(l) ==>
          IsBetween(Classify(d, pods[q].ip), sites, i, j))
    && (forall q :: 0 <= q < |pods| && pods[q].node !in NodeNames(Total(sites)) - {NodeName(k)} ==> Classify(d, pods[q].ip) == None)
  }

  lemma AreasReachPods(d: Device, sites: seq<Site>, i: nat, k: nat, pods: seq<Pod>, mapping: map<string, string>)
    requires i < |sites| && EmulatesAreas(d, sites, i, k, mapping)
    requires Deployed(pods, NodeNames(Total(sites))) && Maps(mapping, pods)
    ensures ServesAreas(d, sites, i, k, pods)
  {
    hide Classify, IsBetween, NodeName, Start, InArea, Separates, Deployed, Maps;
    var names := NodeNames(Total(sites));
    MappingSeparates(pods, names, mapping);
    Numbered(sites);
    forall q | 0 <= q < |pods| && pods[q].node !in names - {NodeName(k)} ensures Classify(d, pods[q].ip) == None {
      forall l: nat | l < Total(sites) && l != k ensures AddressOf(mapping, NodeName(l)) != pods[q].ip {
        OtherPod(pods, names, mapping, NodeName(l), NodeName(k), q) by { NodeNameInjective(l, k); }
      }
    }
    forall q, j, l: nat | 0 <= q < |pods| && 0 <= j < |sites| && InArea(sites, j, l) && l != k && pods[q].node == NodeName(l)
      ensures AddressOf(mapping, NodeName(l)) == pods[q].ip
    {
      OwnPod(pods, names, mapping, q) by { assert NodeName(l) in names; }
    }
  }

  /** The address of another name is not that of the pod. */
  lemma OtherPod(pods: seq<Pod>, names: set<string>, mapping: map<string, string>, name: string, own: string, q: nat)
    requires Deployed(pods, names) && Maps(mapping, pods) && q < |pods|
    requires name in names && name != own && pods[q].node !in names - {own}
    ensures AddressOf(mapping, name) != pods[q].ip
  {
    hide Maps;
    MappingAgreesWithFindPod(pods, names, mapping, name);
  }

  lemma OwnPod(pods: seq<Pod>, names: set<string>, mapping: map<string, string>, q: nat)
    requires Deployed(pods, names) && Maps(mapping, pods) && q < |pods| && pods[q].node in names
    ensures AddressOf(mapping, pods[q].node) == pods[q].ip
  {
    hide Maps;
    MappingSeparates(pods, names, mapping);
  }

  lemma {:induction false} NoInput(inputs: seq<FullInput>, src: string, dst: string)
    requires dst !in Mentioned(inputs)
    ensures FirstInput(inputs, src, dst) == None
  {
    if inputs != [] {
      assert inputs[0] in inputs;
      NoInput(inputs[1..], src, dst);
    }
  }

  // ---------- the upload as a whole ----------

  /** What the device of a pod does with the rules that are sent to it, and whether it accepts them. */
  function Configuration(dev: string, rules: seq<Rule>): (Device, bool) {
    Run(dev, EMPTY, Compile(dev, rules))
  }

  /** A call that returns nil has configured the device of its pod, which was empty before. */
  ghost predicate SuccessConfigures(dev: string, rules: seq<seq<Rule>>, steps: seq<FanOut.Step>, devices: seq<Device>) {
    && |rules| == |devices|
    && forall i :: 0 <= i < |rules| && FanOut.HasFinished(steps, i, None) ==> Configuration(dev, rules[i]) == (devices[i], true)
  }

  /** A call returns an error only because the device of its pod refuses the rules. */
  ghost predicate OnlyRefusalsFail(dev: string, rules: seq<seq<Rule>>, steps: seq<FanOut.Step>) {
    forall i, failed: Option<int> :: 0 <= i < |rules| && failed.Some? && FanOut.HasFinished(steps, i, failed) ==>
      !Configuration(dev, rules[i]).1
  }

  /** The second round of an upload to n pods has returned. */
  predicate HasReturned(n: nat, steps: seq<FanOut.UploadStep>) {
    var u := FanOut.RunUpload(FanOut.Upload(FanOut.Begin(n), None), steps);
    u.Some? && u.value.netem.Some? && u.value.netem.value.main.Returned?
  }

  function SecondRound(n: nat, steps: seq<FanOut.UploadStep>): FanOut.Round
    requires HasReturned(n, steps)
  {
    FanOut.RunUpload(FanOut.Upload(FanOut.Begin(n), None), steps).value.netem.value
  }

  /** Under any schedule of both rounds: an upload that has returned nil has left every pod with the device
      that its rules make, all accepted; and if workers fail only by refusals, it returns nil exactly if
      every device accepts. */
  lemma NilConfiguresAll(dev: string, rules: seq<seq<Rule>>, steps: seq<FanOut.UploadStep>, devices: seq<Device>)
    requires HasReturned(|rules|, steps)
    requires SuccessConfigures(dev, rules, FanOut.NetemSteps(steps), devices)
    ensures var round := SecondRound(|rules|, steps);
            && (round.main.result.None? ==> forall i :: 0 <= i < |rules| ==> Configuration(dev, rules[i]) == (devices[i], true))
            && (OnlyRefusalsFail(dev, rules, FanOut.NetemSteps(steps)) ==>
                  (round.main.result.None? <==> forall i :: 0 <= i < |rules| ==> Configuration(dev, rules[i]).1))
  {
    FanOut.NetemReturns(|rules|, steps);
    hide FanOut.RunUpload, FanOut.NetemSteps, FanOut.HasFinished, Configuration;
    var result := SecondRound(|rules|, steps).main.result;
    if result.Some? {
      var i: nat :| i < |rules| && FanOut.HasFinished(FanOut.NetemSteps(steps), i, result);
      assert OnlyRefusalsFail(dev, rules, FanOut.NetemSteps(steps)) ==> !Configuration(dev, rules[i]).1;
    }
  }

  /** A full topology, uploaded: after nil every pod's device emulates toward every pod what the inputs ask
      for. No node then has more than 999 destinations, and if workers fail only by refusals, this is also
      enough for nil. */
  lemma UploadedFull(dev: string, inputs: seq<FullInput>, pods: seq<Pod>, mapping: map<string, string>,
                     rules: seq<seq<Rule>>, steps: seq<FanOut.UploadStep>, devices: seq<Device>)
    requires IsWord(dev) && Deployed(pods, Mentioned(inputs)) && Maps(mapping, pods)
    requires |rules| == |pods| && forall i :: 0 <= i < |pods| ==> rules[i] == RulesOf(LinksFrom(inputs, pods[i].node), mapping)
    requires HasReturned(|rules|, steps) && SuccessConfigures(dev, rules, FanOut.NetemSteps(steps), devices)
    ensures var round := SecondRound(|rules|, steps);
            var small := forall i :: 0 <= i < |pods| ==> |Destinations(inputs, pods[i].node)| <= 999;
            && (round.main.result.None? ==> small)
            && (round.main.result.None? ==>
                  forall i, j :: 0 <= i < |pods| && 0 <= j < |pods| ==>
                    IsAsked(Classify(devices[i], pods[j].ip), FirstInput(inputs, pods[i].node, pods[j].node)))
            && (OnlyRefusalsFail(dev, rules, FanOut.NetemSteps(steps)) ==> (round.main.result.None? <==> small))
  {
    NilConfiguresAll(dev, rules, steps, devices);
    hide HasReturned, SecondRound, SuccessConfigures, OnlyRefusalsFail, Run, Compile, Classify, Deployed, Maps;
    forall i | 0 <= i < |pods|
      ensures var (d, ok) := Configuration(dev, rules[i]);
              && (ok <==> |Destinations(inputs, pods[i].node)| <= 999)
              && (ok ==> forall j :: 0 <= j < |pods| ==> IsAsked(Classify(d, pods[j].ip), FirstInput(inputs, pods[i].node, pods[j].node)))
    {
      FullOnCluster(dev, inputs, pods, mapping, i);
    }
  }

  /** The rules that an area topology gives the node of a pod: those of its links, in some order, or none if
      it is not a node of the topology. */
  ghost predicate AreAreaRules(rules: seq<Rule>, sites: seq<Site>, node: string, mapping: map<string, string>) {
    if node in NodeNames(Total(sites))
    then exists i: nat, k: nat, links :: IsOwnRules(rules, sites, node, mapping, i, k, links)
    else rules == []
  }

  ghost predicate IsOwnRules(rules: seq<Rule>, sites: seq<Site>, node: string, mapping: map<string, string>,
                             i: nat, k: nat, links: seq<Link>)
  {
    && i < |sites| && InArea(sites, i, k) && node == NodeName(k)
    && Lists(links, Wanted(sites, i, k, |sites|)) && rules == RulesOf(links, mapping)
  }

  lemma EmptyAccepted(dev: string)
    requires IsWord(dev)
    ensures Configuration(dev, []).1
  {
    hide Run, Compile;
    CompilerCorrect(dev, []);
  }

  /** The device of one pod. */
  lemma AreaConfiguration(dev: string, sites: seq<Site>, pods: seq<Pod>, mapping: map<string, string>, rules: seq<Rule>, p: nat)
    requires IsWord(dev) && Deployed(pods, NodeNames(Total(sites))) && Maps(mapping, pods) && p < |pods|
    requires AreAreaRules(rules, sites, pods[p].node, mapping)
    ensures Configuration(dev, rules).1 <==> pods[p].node !in NodeNames(Total(sites)) || Total(sites) <= 1000
    ensures Configuration(dev, rules).1 ==> forall i, k: nat :: 0 <= i < |sites| && InArea(sites, i, k) && pods[p].node == NodeName(k) ==>
              ServesAreas(Configuration(dev, rules).0, sites, i, k, pods)
  {
    hide Run, Compile, Deployed, Maps, ServesAreas, Lists, Wanted, NodeName, Start, InArea;
    Numbered(sites);
    if pods[p].node in NodeNames(Total(sites)) {
      var i: nat, k: nat, links :| IsOwnRules(rules, sites, pods[p].node, mapping, i, k, links);
      AreasOnCluster(dev, sites, pods, mapping, i, k, links);
      forall h, l: nat | 0 <= h < |sites| && InArea(sites, h, l) && pods[p].node == NodeName(l) ensures h == i && l == k {
        NodeNameInjective(k, l);
        if h != i { AreasDisjoint(sites, h, i, k); }
      }
    } else {
      EmptyAccepted(dev);
    }
  }

  /** An area topology, uploaded, in whatever orders its maps were walked: after nil the device of every node
      emulates toward every pod what the areas ask for. There are at most 1000 nodes then, and if workers
      fail only by refusals, this is also enough for nil. */
  lemma UploadedAreas(dev: string, sites: seq<Site>, pods: seq<Pod>, mapping: map<string, string>,
                      rules: seq<seq<Rule>>, steps: seq<FanOut.UploadStep>, devices: seq<Device>)
    requires IsWord(dev) && Deployed(pods, NodeNames(Total(sites))) && Maps(mapping, pods)
    requires |rules| == |pods| && forall p :: 0 <= p < |pods| ==> AreAreaRules(rules[p], sites, pods[p].node, mapping)
    requires HasReturned(|rules|, steps) && SuccessConfigures(dev, rules, FanOut.NetemSteps(steps), devices)
    ensures var round := SecondRound(|rules|, steps);
            && (round.main.result.None? ==> Total(sites) <= 1000)
            && (round.main.result.None? ==>
                  forall p, i, k: nat :: 0 <= p < |pods| && 0 <= i < |sites| && InArea(sites, i, k) && pods[p].node == NodeName(k) ==>
                    ServesAreas(devices[p], sites, i, k, pods))
            && (OnlyRefusalsFail(dev, rules, FanOut.NetemSteps(steps)) ==> (round.main.result.None? <==> Total(sites) <= 1000))
  {
    NilConfiguresAll(dev, rules, steps, devices);
    SomeNodePod(sites, pods);
    hide HasReturned, SecondRound, SuccessConfigures, OnlyRefusalsFail, Configuration, Deployed, Maps, ServesAreas, AreAreaRules, InArea, NodeName, NodeNames, Total;
    forall p | 0 <= p < |pods|
      ensures Configuration(dev, rules[p]).1 <==> pods[p].node !in NodeNames(Total(sites)) || Total(sites) <= 1000
      ensures Configuration(dev, rules[p]).1 ==> forall i, k: nat :: 0 <= i < |sites| && InArea(sites, i, k) && pods[p].node == NodeName(k) ==>
                ServesAreas(Configuration(dev, rules[p]).0, sites, i, k, pods)
    {
      AreaConfiguration(dev, sites, pods, mapping, rules[p], p);
    }
  }

  lemma SomeNodePod(sites: seq<Site>, pods: seq<Pod>)
    requires Deployed(pods, NodeNames(Total(sites)))
    ensures Total(sites) > 0 ==> exists p :: 0 <= p < |pods| && pods[p].node in NodeNames(Total(sites))
  {
    hide NodeName;
    if Total(sites) > 0 {
      assert NodeName(0) in NodeNames(Total(sites));
      assert NodeName(0) in Labels(pods);
    }
  }
}
