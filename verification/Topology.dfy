/** network/topology.go and network/full.go: topologies whose links are listed by node. */
module Topology {
  import opened Prelude
  import opened Decimal
  import opened Rule

  const MAX_SIZE := 5000

  datatype Node = Node(name: string, selector: string)

  datatype Link = Link(distant: Node, delay: Delay, loss: Loss)

  datatype FullInput = FullInput(from: string, to: string, latency: int)

  function Named(name: string): Node {
    Node(name, "")
  }

  /** The name that numbered topologies give to their k-th node. */
  function NodeName(k: nat): string {
    "node" + Dec(k)
  }

  /** The number behind the prefix can be read back, and the first one is zero. */
  lemma NodeNameReads(k: nat)
    ensures NodeName(k)[..4] == "node" && Parse(NodeName(k)[4..], 10) == Some(k)
    ensures NodeName(0) == "node0"
  {
    RoundTrip(k);
    assert NodeName(k)[..4] == "node" && NodeName(k)[4..] == Dec(k);
  }

  lemma NodeNameInjective(a: nat, b: nat)
    ensures NodeName(a) == NodeName(b) <==> a == b
  {
    if NodeName(a) == NodeName(b) {
      assert NodeName(a)[4..] == Dec(a) && NodeName(b)[4..] == Dec(b);
      DecInjective(a, b);
    }
  }

  /** The address of a name; a missing entry reads as the empty string. */
  function AddressOf(mapping: map<string, string>, name: string): string {
    if name in mapping then mapping[name] else ""
  }

  function RuleOf(link: Link, mapping: map<string, string>): Rule {
    Rule(AddressOf(mapping, link.distant.name), link.delay, link.loss)
  }

  function RulesOf(links: seq<Link>, mapping: map<string, string>): seq<Rule> {
    seq(|links|, i requires 0 <= i < |links| => RuleOf(links[i], mapping))
  }

  /** The links that the inputs of a full topology give to a node, in the order of the inputs. */
  function LinksFrom(inputs: seq<FullInput>, src: string): seq<Link> {
    if inputs == [] then []
    else
      var last := inputs[|inputs| - 1];
      LinksFrom(inputs[..|inputs| - 1], src)
      + if last.from == src then [Link(Named(last.to), Delay(last.latency, 0), Loss(0.0))] else []
  }

  /** The names that the inputs mention. */
  function Mentioned(inputs: seq<FullInput>): set<string> {
    (set i | i in inputs :: i.from) + (set i | i in inputs :: i.to)
  }

  /** The names in the order in which the inputs mention them. */
  function Mentions(inputs: seq<FullInput>): seq<string> {
    if inputs == [] then []
    else
      var last := inputs[|inputs| - 1];
      Mentions(inputs[..|inputs| - 1]) + [last.from] + [last.to]
  }

  /** Where a name is mentioned first. */
  function FirstAt(mentions: seq<string>, name: string): nat {
    if mentions == [] || mentions[0] == name then 0 else FirstAt(mentions[1..], name) + 1
  }

  /** The nodes are the mentioned names, in the order of their first mention. */
  ghost predicate InOrder(nodes: seq<Node>, mentions: seq<string>) {
    && (forall x :: x in mentions <==> x in Names(nodes))
    && (forall i :: 0 <= i < |nodes| ==> nodes[i] == Named(nodes[i].name))
    && (forall i, j :: 0 <= i < j < |nodes| ==> FirstAt(mentions, nodes[i].name) < FirstAt(mentions, nodes[j].name))
  }

  ghost predicate DistinctNodes(nodes: seq<Node>) {
    forall i, j :: 0 <= i < j < |nodes| ==> nodes[i].name != nodes[j].name
  }

  function Names(nodes: seq<Node>): set<string> {
    set n | n in nodes :: n.name
  }

  datatype SimpleTopology = SimpleTopology(nodes: seq<Node>, links: map<string, seq<Link>>) {

    function Len(): nat {
      |nodes|
    }

    /** The links of a node; a missing entry reads as no link. */
    function LinksOf(node: string): seq<Link> {
      if node in links then links[node] else []
    }

    method Rules(node: string, mapping: map<string, string>) returns (rules: seq<Rule>)
      ensures rules == RulesOf(LinksOf(node), mapping)
    {
      rules := [];
      var own := LinksOf(node);
      for i := 0 to |own|
        invariant rules == RulesOf(own[..i], mapping)
      {
        var ip := AddressOf(mapping, own[i].distant.name);
        rules := rules + [Rule(ip, own[i].delay, own[i].loss)];
      }
      assert own[..|own|] == own;
    }
  }

  /** A node for each mentioned name, once and in the order of first mention, and for each name the links
      of its inputs. */
  method NewFullTopology(inputs: seq<FullInput>) returns (t: SimpleTopology)
    ensures DistinctNodes(t.nodes) && Names(t.nodes) == t.links.Keys == Mentioned(inputs)
    ensures InOrder(t.nodes, Mentions(inputs))
    ensures forall n :: t.LinksOf(n) == LinksFrom(inputs, n)
  {
    hide LinksFrom, Mentioned, Names, DistinctNodes, Mentions, InOrder;
    var nodes: seq<Node> := [];
    var links: map<string, seq<Link>> := map[];
    NothingMentioned();
    for i := 0 to |inputs|
      invariant DistinctNodes(nodes) && Names(nodes) == links.Keys == Mentioned(inputs[..i])
      invariant InOrder(nodes, Mentions(inputs[..i]))
      invariant forall n :: SimpleTopology(nodes, links).LinksOf(n) == LinksFrom(inputs[..i], n)
    {
      var input := inputs[i];
      var src, dst := Named(input.from), Named(input.to);
      assert inputs[..i + 1] == inputs[..i] + [input];
      MentionedNext(inputs[..i], input);
      forall n { LinksFromNext(inputs[..i], input, n); }
      ghost var mentions := Mentions(inputs[..i]);
      MentionsNext(inputs[..i], input);
      InOrderNext(nodes, mentions, src.name);
      if src.name !in links {
        NamesAppend(nodes, src);
        nodes := nodes + [src];
        links := links[src.name := []];
      }
      InOrderNext(nodes, mentions + [src.name], dst.name);
      if dst.name !in links {
        NamesAppend(nodes, dst);
        nodes := nodes + [dst];
        links := links[dst.name := []];
      }
      links := links[src.name := links[src.name] + [Link(dst, Delay(input.latency, 0), Loss(0.0))]];
    }
    assert inputs[..|inputs|] == inputs;
    t := SimpleTopology(nodes, links);
  }

  lemma NothingMentioned()
    ensures DistinctNodes([]) && Names([]) == {} == Mentioned([])
    ensures forall n :: LinksFrom([], n) == []
    ensures InOrder([], Mentions([]))
  {
  }

  lemma MentionsNext(inputs: seq<FullInput>, next: FullInput)
    ensures Mentions(inputs + [next]) == Mentions(inputs) + [next.from] + [next.to]
  {
    assert (inputs + [next])[..|inputs|] == inputs;
  }

  lemma {:induction false} FirstAtAppend(mentions: seq<string>, next: string, name: string)
    ensures name in mentions ==> FirstAt(mentions + [next], name) == FirstAt(mentions, name) < |mentions|
    ensures name !in mentions ==> FirstAt(mentions + [next], name) >= |mentions|
  {
    if mentions != [] {
      FirstAtAppend(mentions[1..], next, name);
      assert (mentions + [next])[1..] == mentions[1..] + [next];
      assert mentions == [mentions[0]] + mentions[1..];
    }
  }

  lemma NamesOfMore(nodes: seq<Node>, name: string)
    ensures Names(nodes + [Named(name)]) == Names(nodes) + {name}
    ensures forall i :: 0 <= i < |nodes| ==> nodes[i].name in Names(nodes)
  {
    assert forall n :: n in nodes + [Named(name)] <==> n in nodes || n == Named(name);
  }

  /** One more mention adds a node, if the name is new, behind all others. */
  lemma InOrderNext(nodes: seq<Node>, mentions: seq<string>, name: string)
    requires InOrder(nodes, mentions)
    ensures InOrder(if name in Names(nodes) then nodes else nodes + [Named(name)], mentions + [name])
  {
    var more := mentions + [name];
    NamesOfMore(nodes, name);
    assert forall x :: x in more <==> x in mentions || x == name;
    hide Names, FirstAt;
    forall i | 0 <= i < |nodes| ensures FirstAt(more, nodes[i].name) == FirstAt(mentions, nodes[i].name) < |mentions| {
      FirstAtAppend(mentions, name, nodes[i].name);
    }
    if name !in Names(nodes) {
      FirstAtAppend(mentions, name, name);
    }
  }

  lemma LinksFromNext(inputs: seq<FullInput>, next: FullInput, n: string)
    ensures LinksFrom(inputs + [next], n)
            == if next.from == n then LinksFrom(inputs, n) + [Link(Named(next.to), Delay(next.latency, 0), Loss(0.0))]
               else LinksFrom(inputs, n)
  {
  }

  lemma MentionedNext(inputs: seq<FullInput>, next: FullInput)
    ensures Mentioned(inputs + [next]) == Mentioned(inputs) + {next.from, next.to}
  {
  }

  lemma NamesAppend(nodes: seq<Node>, n: Node)
    requires DistinctNodes(nodes) && n.name !in Names(nodes)
    ensures DistinctNodes(nodes + [n]) && Names(nodes + [n]) == Names(nodes) + {n.name}
  {
  }

  function Size(n: int): nat {
    if n < 0 then 0 else if n > MAX_SIZE then MAX_SIZE else n
  }

  /** The links of the k-th node of a simple topology. */
  function SimpleLinks(k: nat, delay: int): seq<Link> {
    if k == 0 then [] else [Link(Node("node0", ""), Delay(delay, 0), Loss(0.0))]
  }

  /** Between zero and 5000 numbered nodes, where each but the first has one link, to the first. */
  method NewSimpleTopology(n: int, delay: int) returns (t: SimpleTopology)
    ensures t.Len() == (if n < 0 then 0 else if n <= 5000 then n else 5000)
    ensures forall k :: 0 <= k < t.Len() ==> t.nodes[k] == Node(NodeName(k), "")
    ensures t.links.Keys == set k | 0 <= k < t.Len() :: NodeName(k)
    ensures forall k :: 0 <= k < t.Len() ==>
              t.LinksOf(NodeName(k))
              == if k == 0 then [] else [Link(Node("node0", ""), Delay(delay, 0), Loss(0.0))]
  {
    hide NodeName, SimpleLinks;
    var size := Size(n);
    var nodes: seq<Node> := [];
    var links: map<string, seq<Link>> := map[];
    for i := 0 to size
      invariant |nodes| == i && forall k :: 0 <= k < i ==> nodes[k] == Named(NodeName(k))
      invariant links.Keys == set k | 0 <= k < i :: NodeName(k)
      invariant forall k :: 0 <= k < i ==> NodeName(k) in links && links[NodeName(k)] == SimpleLinks(k, delay)
    {
      var key := Named(NodeName(i));
      forall k | 0 <= k < i ensures NodeName(k) != key.name { NodeNameInjective(k, i); }
      nodes := nodes + [key];
      links := links[key.name := []];
      if i != 0 {
        links := links[key.name := [Link(nodes[0], Delay(delay, 0), Loss(0.0))]];
      }
      SimpleLinksOf(i, delay);
    }
    t := SimpleTopology(nodes, links);
    forall k | 0 <= k < size
      ensures t.LinksOf(NodeName(k)) == if k == 0 then [] else [Link(Node("node0", ""), Delay(delay, 0), Loss(0.0))]
    {
      SimpleLinksOf(k, delay);
    }
  }

  lemma SimpleLinksOf(k: nat, delay: int)
    ensures SimpleLinks(k, delay) == if k == 0 then [] else [Link(Named(NodeName(0)), Delay(delay, 0), Loss(0.0))]
    ensures SimpleLinks(k, delay) == if k == 0 then [] else [Link(Node("node0", ""), Delay(delay, 0), Loss(0.0))]
  {
    NodeNameReads(0);
  }
}
