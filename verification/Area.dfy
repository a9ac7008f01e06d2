/** network/area.go: a topology made of areas, where every node has a link to every other one. */
module Area {
  import opened Prelude
  import opened Rule
  import opened Topology
  import opened Latency

  // ---------- the complete graph that the areas describe ----------

  /** What the caller says about an area. */
  datatype Site = Site(n: nat, latency: Delay, x: real, y: real)

  /** The number of the first node of area i, when nodes are counted over all areas. */
  function Start(sites: seq<Site>, i: nat): nat
    requires i <= |sites|
  {
    if i == 0 then 0 else Start(sites, i - 1) + sites[i - 1].n
  }

  function Total(sites: seq<Site>): nat {
    Start(sites, |sites|)
  }

  predicate InArea(sites: seq<Site>, i: nat, k: int)
    requires i < |sites|
  {
    Start(sites, i) <= k < Start(sites, i + 1)
  }

  function Member(k: nat): Node {
    Named(NodeName(k))
  }

  /** The nodes numbered from `start` up to `end`. */
  function NodesOf(start: nat, end: nat): set<Node> {
    set k: nat | start <= k < end :: Member(k)
  }

  /** The n nodes numbered from `start` on, in order. */
  function Consecutive(start: nat, n: nat): (nodes: seq<Node>)
    ensures |nodes| == n
  {
    seq(n, i requires 0 <= i => Member(start + i))
  }

  lemma ConsecutiveAt(start: nat, n: nat, i: nat, k: nat)
    requires i < n && k == start + i
    ensures Consecutive(start, n)[i] == Member(k)
  {
  }

  /** The links from the k-th node to those numbered from `start` up to `end`. */
  function LinksOf(start: nat, end: nat, k: nat, latency: Delay): set<Link> {
    set l: nat | start <= l < end && l != k :: Link(Member(l), latency, Loss(0.0))
  }

  function Members(sites: seq<Site>, i: nat): set<Node>
    requires i < |sites|
  {
    NodesOf(Start(sites, i), Start(sites, i + 1))
  }

  /** The delay from a node of area i to a node of area j. */
  function Between(sites: seq<Site>, i: nat, j: nat): Delay
    requires i < |sites| && j < |sites|
  {
    if i == j then sites[i].latency
    else CalculateLatency(sites[i].x, sites[i].y, sites[j].x, sites[j].y)
  }

  /** The links from area i to all nodes of area j but the k-th node. */
  function LinksInto(sites: seq<Site>, i: nat, j: nat, k: nat): set<Link>
    requires i < |sites| && j < |sites|
  {
    LinksOf(Start(sites, j), Start(sites, j + 1), k, Between(sites, i, j))
  }

  /** The links of the k-th node, of area i, into its own area and into the areas before j. */
  function Wanted(sites: seq<Site>, i: nat, k: nat, j: nat): set<Link>
    requires i < |sites| && j <= |sites|
  {
    if j == 0 then LinksInto(sites, i, i, k)
    else if j - 1 == i then Wanted(sites, i, k, j - 1)
    else Wanted(sites, i, k, j - 1) + LinksInto(sites, i, j - 1, k)
  }

  /** The links from the k-th node to those numbered from `start` up to `end`, in that order. */
  function InSequence(start: nat, end: nat, k: nat, latency: Delay): seq<Link> {
    if end <= start then []
    else InSequence(start, end - 1, k, latency) + if end - 1 == k then [] else [Link(Member(end - 1), latency, Loss(0.0))]
  }

  /** The links that the loops can give the k-th node, of area i, when they have come to area j: those
      into its own area, in sequence, and then for each area before j in turn those into that area, in
      any order. */
  ghost predicate IsWalk(links: seq<Link>, sites: seq<Site>, i: nat, k: nat, j: nat)
    requires i < |sites| && j <= |sites|
    decreases j
  {
    if j == 0 then links == InSequence(Start(sites, i), Start(sites, i + 1), k, sites[i].latency)
    else if j - 1 == i then IsWalk(links, sites, i, k, j - 1)
    else exists p: nat :: p <= |links| && IsWalk(links[..p], sites, i, k, j - 1) && Lists(links[p..], LinksInto(sites, i, j - 1, k))
  }

  /** A sequence that holds each element of a set once and nothing else. */
  ghost predicate Lists<T(!new)>(s: seq<T>, elements: set<T>) {
    && (forall x :: x in s <==> x in elements)
    && (forall p, q :: 0 <= p < q < |s| ==> s[p] != s[q])
  }

  lemma ListsAppend<T(!new)>(s: seq<T>, more: seq<T>, a: set<T>, b: set<T>)
    requires Lists(s, a) && Lists(more, b) && a !! b
    ensures Lists(s + more, a + b)
  {
    var all := s + more;
    forall p, q | 0 <= p < q < |all| ensures all[p] != all[q] {
      if p < |s| <= q { assert all[p] in a && all[q] in b; }
    }
  }

  lemma {:induction false} StartMonotone(sites: seq<Site>, i: nat, j: nat)
    requires i <= j <= |sites|
    ensures Start(sites, i) <= Start(sites, j)
  {
    if i < j { StartMonotone(sites, i, j - 1); }
  }

  lemma MemberInjective(a: nat, b: nat)
    ensures Member(a) == Member(b) <==> a == b
  {
    NodeNameInjective(a, b);
  }

  lemma NoNodes(start: nat)
    ensures NodesOf(start, start) == {}
  {
  }

  lemma NodesNext(start: nat, k: nat)
    requires start <= k
    ensures NodesOf(start, k + 1) == NodesOf(start, k) + {Member(k)}
    ensures Member(k) !in NodesOf(start, k)
  {
    forall m: nat | start <= m < k ensures Member(m) != Member(k) { MemberInjective(m, k); }
  }

  lemma NoLinks(start: nat, k: nat, latency: Delay)
    ensures Lists([], LinksOf(start, start, k, latency))
  {
  }

  lemma LinksSame(start: nat, k: nat, latency: Delay)
    requires start <= k
    ensures LinksOf(start, k + 1, k, latency) == LinksOf(start, k, k, latency)
  {
  }

  lemma NoneInSequence(start: nat, k: nat, latency: Delay)
    ensures InSequence(start, start, k, latency) == []
  {
  }

  lemma NextInSequence(start: nat, l: nat, k: nat, latency: Delay)
    requires start <= l
    ensures InSequence(start, l + 1, k, latency)
            == InSequence(start, l, k, latency) + if l == k then [] else [Link(Member(l), latency, Loss(0.0))]
  {
  }

  lemma {:induction false} SequenceLists(start: nat, end: nat, k: nat, latency: Delay)
    requires start <= end
    ensures Lists(InSequence(start, end, k, latency), LinksOf(start, end, k, latency))
  {
    if start == end {
      NoLinks(start, k, latency);
    } else {
      var l := end - 1;
      SequenceLists(start, l, k, latency);
      hide Lists, LinksOf;
      if l == k { LinksSame(start, k, latency); } else { LinksNext(InSequence(start, l, k, latency), start, l, k, latency); }
    }
  }

  lemma NewLink(start: nat, l: nat, k: nat, latency: Delay)
    requires start <= l && l != k
    ensures var next := Link(Member(l), latency, Loss(0.0));
            next !in LinksOf(start, l, k, latency)
            && LinksOf(start, l + 1, k, latency) == LinksOf(start, l, k, latency) + {next}
  {
    forall m: nat | start <= m < l ensures Member(m) != Member(l) { MemberInjective(m, l); }
  }

  lemma LinksNext(links: seq<Link>, start: nat, l: nat, k: nat, latency: Delay)
    requires start <= l && l != k && Lists(links, LinksOf(start, l, k, latency))
    ensures Lists(links + [Link(Member(l), latency, Loss(0.0))], LinksOf(start, l + 1, k, latency))
  {
    var next := Link(Member(l), latency, Loss(0.0));
    NewLink(start, l, k, latency);
    assert Lists([next], {next});
    hide LinksOf, Lists;
    ListsAppend(links, [next], LinksOf(start, l, k, latency), {next});
  }

  /** The nodes from `start` up to `next` are there, each with its links up to `end`. */
  ghost predicate Filled(nodes: map<Node, seq<Link>>, start: nat, next: nat, end: nat, latency: Delay) {
    && nodes.Keys == NodesOf(start, next)
    && forall k: nat :: start <= k < next ==>
         Member(k) in nodes.Keys && nodes[Member(k)] == InSequence(start, end, k, latency)
  }

  lemma NoneFilled(start: nat, end: nat, latency: Delay)
    ensures Filled(map[], start, start, end, latency)
  {
  }

  lemma FilledNext(nodes: map<Node, seq<Link>>, start: nat, k: nat, end: nat, latency: Delay, links: seq<Link>)
    requires start <= k && Filled(nodes, start, k, end, latency) && links == InSequence(start, end, k, latency)
    ensures Filled(nodes[Member(k) := links], start, k + 1, end, latency)
  {
    hide NodesOf, InSequence, Member;
    NodesNext(start, k);
    forall m: nat | start <= m < k ensures Member(m) != Member(k) { MemberInjective(m, k); }
  }

  /** Links to the given nodes. */
  ghost function Toward(dsts: set<Node>, delay: Delay): set<Link> {
    set d | d in dsts :: Link(d, delay, Loss(0.0))
  }

  lemma TowardNone(delay: Delay)
    ensures Lists([], Toward({}, delay))
  {
  }

  lemma TowardNext(links: seq<Link>, dsts: set<Node>, dst: Node, delay: Delay)
    requires dst !in dsts && Lists(links, Toward(dsts, delay))
    ensures Lists(links + [Link(dst, delay, Loss(0.0))], Toward(dsts + {dst}, delay))
  {
    var next := Link(dst, delay, Loss(0.0));
    assert Toward(dsts + {dst}, delay) == Toward(dsts, delay) + {next};
    assert Lists([next], {next});
    hide Lists, Toward;
    assert next !in Toward(dsts, delay) by { NotToward(dsts, dst, delay); }
    ListsAppend(links, [next], Toward(dsts, delay), {next});
  }

  lemma NotToward(dsts: set<Node>, dst: Node, delay: Delay)
    requires dst !in dsts
    ensures Link(dst, delay, Loss(0.0)) !in Toward(dsts, delay)
  {
  }

  // ---------- the program ----------

  class Area {
    const n: int
    const latency: Delay
    const x: real
    const y: real
    var nodes: map<Node, seq<Link>>

    constructor (n: int, latency: Delay, x: real, y: real)
      ensures this.n == n && this.latency == latency && this.x == x && this.y == y
    {
      this.n, this.latency, this.x, this.y := n, latency, x, y;
      nodes := map[];
    }

    function Shape(): Site
      requires n >= 0
    {
      Site(n, latency, x, y)
    }

    /** Creates the nodes numbered from `start` on, and the links between them. */
    method Populate(start: nat)
      requires n >= 0
      modifies this`nodes
      ensures Filled(nodes, start, start + n, start + n, latency)
    {
      hide *;
      var members := Consecutive(start, n);
      var filled: map<Node, seq<Link>> := map[];
      ghost var me, end := start, start + n;
      NoneFilled(start, end, latency);
      for i := 0 to n
        modifies {}
        invariant me == start + i && Filled(filled, start, me, end, latency)
      {
        var links: seq<Link> := [];
        ghost var to := start;
        NoneInSequence(start, me, latency);
        for j := 0 to n
          modifies {}
          invariant to == start + j && links == InSequence(start, to, me, latency)
        {
          ConsecutiveAt(start, n, j, to);
          NextInSequence(start, to, me, latency);
          if i != j {
            links := links + [Link(members[j], latency, Loss(0.0))];
          }
          to := to + 1;
        }
        ConsecutiveAt(start, n, i, me);
        FilledNext(filled, start, me, end, latency, links);
        filled := filled[members[i] := links];
        me := me + 1;
      }
      nodes := filled;
    }

    /** Adds to every node a link to each node of the other area, in whatever order the maps give. */
    method MakeAreaLinks(to: Area)
      modifies this`nodes
      ensures nodes.Keys == old(nodes.Keys)
      ensures forall u :: u in old(nodes) ==>
                && old(nodes[u]) <= nodes[u]
                && Lists(nodes[u][|old(nodes[u])|..],
                         Toward(old(to.nodes.Keys), CalculateLatency(x, y, to.x, to.y)))
    {
      hide *;
      ghost var dsts, delay := to.nodes.Keys, CalculateLatency(x, y, to.x, to.y);
      var rest := nodes.Keys;
      while rest != {}
        invariant nodes.Keys == old(nodes.Keys) && rest <= nodes.Keys && to.nodes.Keys == dsts
        invariant forall u :: u in rest ==> nodes[u] == old(nodes[u])
        invariant forall u :: u in old(nodes) && u !in rest ==>
                    old(nodes[u]) <= nodes[u] && Lists(nodes[u][|old(nodes[u])|..], Toward(dsts, delay))
      {
        var node :| node in rest;
        rest := rest - {node};
        var links: seq<Link> := [];
        var targets := to.nodes.Keys;
        ghost var done: set<Node> := {};
        TowardNone(delay);
        while targets != {}
          modifies {}
          invariant done + targets == dsts && done !! targets
          invariant Lists(links, Toward(done, delay))
        {
          var dst :| dst in targets;
          TowardNext(links, done, dst, delay);
          links := links + [Link(dst, CalculateLatency(x, y, to.x, to.y), Loss(0.0))];
          targets, done := targets - {dst}, done + {dst};
        }
        assert done == dsts;
        var longer := nodes[node] + links;
        assert longer[|nodes[node]|..] == links;
        nodes := nodes[node := longer];
      }
    }
  }

  /** Area i holds its members, and each of them the links into its own area and those before j. */
  ghost predicate Linked(nodes: map<Node, seq<Link>>, sites: seq<Site>, i: nat, j: nat) {
    && i < |sites| && j <= |sites|
    && nodes.Keys == Members(sites, i)
    && forall k: nat :: InArea(sites, i, k) ==>
         Member(k) in nodes.Keys && IsWalk(nodes[Member(k)], sites, i, k, j)
  }

  function Shapes(areas: seq<Area>): (sites: seq<Site>)
    requires forall i :: 0 <= i < |areas| ==> areas[i].n >= 0
    ensures |sites| == |areas| && forall i :: 0 <= i < |areas| ==> sites[i] == areas[i].Shape()
  {
    seq(|areas|, i requires 0 <= i < |areas| => areas[i].Shape())
  }

  /** The topology keeps pointers to the areas that it was built from. */
  class AreaTopology {
    const areas: seq<Area>

    /** What the source demands of its caller: counts that are not negative. */
    static predicate Buildable(areas: seq<Area>) {
      forall i :: 0 <= i < |areas| ==> areas[i].n >= 0
    }

    /** No area with nodes is passed twice. */
    static predicate Separate(areas: seq<Area>) {
      forall i, j :: 0 <= i < j < |areas| && areas[i] == areas[j] ==> areas[i].n == 0
    }

    ghost predicate Complete()
      reads areas
    {
      && Buildable(areas)
      && forall i :: 0 <= i < |areas| ==> Linked(areas[i].nodes, Shapes(areas), i, |areas|)
    }

    /** The nodes of the a-th area are those of the j-th place, where the same area is passed. */
    static ghost predicate IsPlaced(areas: seq<Area>, sites: seq<Site>, a: nat, j: nat)
      requires a < |areas| == |sites|
      reads areas
    {
      j < |areas| && areas[j] == areas[a] && areas[a].nodes.Keys == Members(sites, j)
    }

    static ghost predicate HasPlace(areas: seq<Area>, sites: seq<Site>, a: nat)
      requires a < |areas| == |sites|
      reads areas
    {
      exists j: nat :: IsPlaced(areas, sites, a, j)
    }

    /** An area that keeps its nodes keeps its place. */
    static twostate lemma PlaceKept(areas: seq<Area>, new sites: seq<Site>, new a: nat)
      requires a < |areas| == |sites| && old(HasPlace(areas, sites, a))
      requires areas[a].nodes.Keys == old(areas[a].nodes.Keys)
      ensures HasPlace(areas, sites, a)
    {
      ghost var j: nat :| old(IsPlaced(areas, sites, a, j));
      assert IsPlaced(areas, sites, a, j);
    }

    /** What holds of every topology, also if areas are passed twice. */
    ghost predicate Placed()
      reads areas
    {
      Buildable(areas) && forall a :: 0 <= a < |areas| ==> HasPlace(areas, Shapes(areas), a)
    }

    /** The areas before the i-th have all their links, the i-th those into the areas before the j-th, and
        the other ones only their own. */
    static ghost predicate LinkedUpTo(areas: seq<Area>, sites: seq<Site>, i: nat, j: nat)
      requires |areas| == |sites| && j <= |sites|
      reads areas
    {
      forall a :: 0 <= a < |areas| ==> Linked(areas[a].nodes, sites, a, if a < i then |areas| else if a == i then j else 0)
    }

    /** The state after the i-th area has got its links into the j-th one. */
    static twostate lemma LinksAdded(areas: seq<Area>, new sites: seq<Site>, new i: nat, new j: nat)
      requires Buildable(areas) && sites == Shapes(areas) && Separate(areas)
      requires i < |areas| && j < |areas| && i != j && old(LinkedUpTo(areas, sites, i, j))
      requires forall a :: 0 <= a < |areas| && areas[a] != areas[i] ==> areas[a].nodes == old(areas[a].nodes)
      requires areas[i].nodes.Keys == old(areas[i].nodes.Keys)
      requires forall u :: u in old(areas[i].nodes) ==>
                 && old(areas[i].nodes[u]) <= areas[i].nodes[u]
                 && Lists(areas[i].nodes[u][|old(areas[i].nodes[u])|..],
                          Toward(old(areas[j].nodes.Keys), CalculateLatency(areas[i].x, areas[i].y, areas[j].x, areas[j].y)))
      ensures LinkedUpTo(areas, sites, i, j + 1)
    {
      hide Linked, Lists, Members;
      KeysOfLinked(old(areas[j].nodes), sites, j, if j < i then |areas| else 0);
      LinkedNext(sites, i, j, old(areas[i].nodes), areas[i].nodes);
      forall a | 0 <= a < |areas| && a != i ensures Linked(areas[a].nodes, sites, a, if a < i then |areas| else 0) {
        if areas[a] == areas[i] { SameEmpty(areas[a].nodes, sites, i, j + 1, a, if a < i then |areas| else 0); }
      }
    }

    /** Creates the nodes of every area, with consecutive numbers. */
    static method PopulateAll(areas: seq<Area>)
      requires Buildable(areas)
      modifies areas
      ensures Separate(areas) ==> forall a :: 0 <= a < |areas| ==> Linked(areas[a].nodes, Shapes(areas), a, 0)
      ensures forall a :: 0 <= a < |areas| ==> HasPlace(areas, Shapes(areas), a)
    {
      hide Linked, Shapes, Start, Members, Lists, Filled, NodesOf;
      ghost var sites := Shapes(areas);
      var counter := 0;
      StartAt(sites, 0);
      for i := 0 to |areas|
        invariant counter == Start(sites, i)
        invariant Separate(areas) ==> forall a :: 0 <= a < i ==> Linked(areas[a].nodes, sites, a, 0)
        invariant forall a :: 0 <= a < i ==> HasPlace(areas, sites, a)
      {
        label Before:
        areas[i].Populate(counter);
        PopulatedIsLinked(sites, i, counter, counter + areas[i].n, areas[i].nodes);
        KeysOfLinked(areas[i].nodes, sites, i, 0);
        forall a | 0 <= a < i && Separate(areas) ensures Linked(areas[a].nodes, sites, a, 0) {
          if areas[a] == areas[i] { SameEmpty(areas[a].nodes, sites, i, 0, a, 0); }
        }
        forall a | 0 <= a <= i ensures HasPlace(areas, sites, a) {
          if areas[a] == areas[i] {
            assert IsPlaced(areas, sites, a, i);
          } else {
            PlaceKept@Before(areas, sites, a);
          }
        }
        StartAt(sites, i + 1);
        counter := counter + areas[i].n;
      }
    }

    /** Only links have been added. */
    static twostate predicate SameNodes(areas: seq<Area>)
      reads areas
    {
      forall a :: 0 <= a < |areas| ==> areas[a].nodes.Keys == old(areas[a].nodes.Keys)
    }

    /** Adds the links from one area to another one. */
    static method Join(areas: seq<Area>, ghost sites: seq<Site>, i: nat, j: nat)
      requires Buildable(areas) && sites == Shapes(areas) && i < |areas| && j < |areas| && i != j
      modifies areas
      ensures Separate(areas) && old(LinkedUpTo(areas, sites, i, j)) ==> LinkedUpTo(areas, sites, i, j + 1)
      ensures SameNodes(areas)
    {
      hide LinkedUpTo, Separate, Lists, Shapes;
      areas[i].MakeAreaLinks(areas[j]);
      if Separate(areas) && old(LinkedUpTo(areas, sites, i, j)) {
        LinksAdded(areas, sites, i, j);
      }
    }

    /** Adds the links from every area to every other one. */
    static method JoinAll(areas: seq<Area>, ghost sites: seq<Site>)
      requires Buildable(areas) && sites == Shapes(areas)
      modifies areas
      ensures Separate(areas) && old(LinkedUpTo(areas, sites, 0, 0)) ==> LinkedUpTo(areas, sites, |areas|, 0)
      ensures SameNodes(areas)
    {
      hide Linked, Lists, LinkedUpTo, Separate, Shapes;
      ghost var good := Separate(areas) && LinkedUpTo(areas, sites, 0, 0);
      for i := 0 to |areas|
        invariant (good ==> LinkedUpTo(areas, sites, i, 0)) && SameNodes(areas)
      {
        for j := 0 to |areas|
          invariant (good ==> LinkedUpTo(areas, sites, i, j)) && SameNodes(areas)
        {
          if i != j {
            Join(areas, sites, i, j);
          } else if good {
            OwnLinks(areas, sites, i);
          }
        }
        if good { NextRow(areas, sites, i); }
      }
    }

    /** Both phases. */
    static method Build(areas: seq<Area>)
      requires Buildable(areas)
      modifies areas
      ensures Separate(areas) ==> LinkedUpTo(areas, Shapes(areas), |areas|, 0)
      ensures forall a :: 0 <= a < |areas| ==> HasPlace(areas, Shapes(areas), a)
    {
      ghost var sites := Shapes(areas);
      hide Linked, LinkedUpTo, Separate, HasPlace, Shapes;
      PopulateAll(areas);
      if Separate(areas) { FirstRow(areas, sites); }
      label Before:
      JoinAll(areas, sites);
      forall a | 0 <= a < |areas| ensures HasPlace(areas, sites, a) { PlaceKept@Before(areas, sites, a); }
    }

    /** Builds the complete graph, exactly if no area with nodes is passed twice. */
    constructor (areas: seq<Area>)
      requires Buildable(areas)
      modifies areas
      ensures this.areas == areas && Placed() && (Complete() <==> Separate(areas))
    {
      this.areas := areas;
      new;
      hide Linked, LinkedUpTo, Separate, HasPlace, Shapes, Complete;
      Build(areas);
      if Separate(areas) { AllLinked(this, Shapes(areas)); }
      if Complete() { OnlySeparateIsComplete(this); }
    }

    static lemma FirstRow(areas: seq<Area>, sites: seq<Site>)
      requires |areas| == |sites| && forall a :: 0 <= a < |areas| ==> Linked(areas[a].nodes, sites, a, 0)
      ensures LinkedUpTo(areas, sites, 0, 0)
    {
    }

    static lemma OwnLinks(areas: seq<Area>, sites: seq<Site>, i: nat)
      requires |areas| == |sites| && i < |areas| && LinkedUpTo(areas, sites, i, i)
      ensures LinkedUpTo(areas, sites, i, i + 1)
    {
      hide Linked;
      LinkedSame(sites, i, areas[i].nodes);
    }

    static lemma NextRow(areas: seq<Area>, sites: seq<Site>, i: nat)
      requires |areas| == |sites| && i < |areas| && LinkedUpTo(areas, sites, i, |areas|)
      ensures LinkedUpTo(areas, sites, i + 1, 0)
    {
      hide Linked;
    }

    static lemma AllLinked(t: AreaTopology, sites: seq<Site>)
      requires Buildable(t.areas) && sites == Shapes(t.areas) && LinkedUpTo(t.areas, sites, |t.areas|, 0)
      ensures t.Complete()
    {
      hide Linked;
    }

    /** The number of nodes: what the areas ask for, also if one is passed twice. */
    method Len() returns (n: nat)
      ensures n == SizeUpTo(areas, |areas|)
      ensures Placed() ==> n == Total(Shapes(areas))
    {
      n := 0;
      for i := 0 to |areas|
        invariant n == SizeUpTo(areas, i)
      {
        n := n + |areas[i].nodes|;
      }
      if Placed() { SizeIsStart(this, |areas|); }
    }

    /** For each area in turn its nodes, each once, in whatever order the map gives. */
    method GetNodes() returns (list: seq<Node>, ghost parts: seq<seq<Node>>)
      ensures |parts| == |areas| && list == Concat(parts)
      ensures forall i :: 0 <= i < |areas| ==> Lists(parts[i], areas[i].nodes.Keys)
      ensures Complete() ==> Lists(list, NodesOf(0, Total(Shapes(areas))))
    {
      list, parts := [], [];
      for i := 0 to |areas|
        invariant |parts| == i && list == Concat(parts)
        invariant forall a :: 0 <= a < i ==> Lists(parts[a], areas[a].nodes.Keys)
      {
        var rest := areas[i].nodes.Keys;
        ghost var part: seq<Node> := [];
        ghost var done: set<Node> := {};
        while rest != {}
          invariant done + rest == areas[i].nodes.Keys && done !! rest
          invariant Lists(part, done) && list == Concat(parts) + part
        {
          var node :| node in rest;
          assert Lists([node], {node});
          ListsAppend(part, [node], done, {node});
          rest, done := rest - {node}, done + {node};
          list, part := list + [node], part + [node];
        }
        assert done == areas[i].nodes.Keys;
        ConcatNext(parts, part);
        parts := parts + [part];
      }
      if Complete() { PartsOfComplete(this, parts, |areas|); }
    }

    /** The a-th area is the first with a node of the name, and the rules are those of its links. */
    ghost predicate AreRulesFrom(a: nat, rules: seq<Rule>, target: string, mapping: map<string, string>)
      reads areas
    {
      && a < |areas| && (forall b :: 0 <= b < a ==> !HasName(areas[b].nodes, target))
      && exists node :: node in areas[a].nodes && node.name == target && rules == RulesOf(areas[a].nodes[node], mapping)
    }

    /** What the executor gets for a name: the rules of the node, or none. */
    ghost predicate AreRules(rules: seq<Rule>, target: string, mapping: map<string, string>)
      reads areas
    {
      (exists a: nat :: AreRulesFrom(a, rules, target, mapping))
      || (rules == [] && forall a :: 0 <= a < |areas| ==> !HasName(areas[a].nodes, target))
    }

    /** The rules of a node, found by its name in the first area that has it; None is Go's nil for an
        unknown name. */
    method Rules(target: string, mapping: map<string, string>) returns (rules: Option<seq<Rule>>)
      ensures rules.None? ==> forall a :: 0 <= a < |areas| ==> !HasName(areas[a].nodes, target)
      ensures rules.Some? ==> exists a: nat :: AreRulesFrom(a, rules.value, target, mapping)
      ensures Complete() ==> forall i, k: nat :: 0 <= i < |areas| && InArea(Shapes(areas), i, k) && NodeName(k) == target ==>
                Member(k) in areas[i].nodes && rules == Some(RulesOf(areas[i].nodes[Member(k)], mapping))
      ensures Complete() && (forall k: nat :: k < Total(Shapes(areas)) ==> NodeName(k) != target) ==> rules == None
    {
      hide RulesOf, NodeName, Complete;
      for a := 0 to |areas|
        invariant forall b :: 0 <= b < a ==> !HasName(areas[b].nodes, target)
      {
        var rest := areas[a].nodes.Keys;
        while rest != {}
          invariant rest <= areas[a].nodes.Keys
          invariant forall node :: node in areas[a].nodes && node !in rest ==> node.name != target
        {
          var node :| node in rest;
          rest := rest - {node};
          if node.name == target {
            var out := RulesOfLinks(areas[a].nodes[node], mapping);
            assert AreRulesFrom(a, out, target, mapping);
            if Complete() { FoundInComplete(this, a, node, target); }
            return Some(out);
          }
        }
      }
      if Complete() { MissedInComplete(this, target); }
      return None;
    }

    method RulesOfLinks(links: seq<Link>, mapping: map<string, string>) returns (rules: seq<Rule>)
      ensures rules == RulesOf(links, mapping)
    {
      rules := [];
      for p := 0 to |links|
        invariant rules == RulesOf(links[..p], mapping)
      {
        rules := rules + [Rule(AddressOf(mapping, links[p].distant.name), links[p].delay, links[p].loss)];
      }
      assert links[..|links|] == links;
    }
  }

  /** The sizes of the areas before the i-th, added up. */
  ghost function SizeUpTo(areas: seq<Area>, i: nat): nat
    requires i <= |areas|
    reads areas
  {
    if i == 0 then 0 else SizeUpTo(areas, i - 1) + |areas[i - 1].nodes|
  }

  predicate HasName(nodes: map<Node, seq<Link>>, name: string) {
    exists node :: node in nodes && node.name == name
  }

  function Concat(parts: seq<seq<Node>>): seq<Node> {
    if parts == [] then [] else Concat(parts[..|parts| - 1]) + parts[|parts| - 1]
  }

  lemma ConcatNext(parts: seq<seq<Node>>, part: seq<Node>)
    ensures Concat(parts + [part]) == Concat(parts) + part
  {
    assert (parts + [part])[..|parts|] == parts;
  }

  lemma {:induction false} SizeIsStart(t: AreaTopology, i: nat)
    requires t.Placed() && i <= |t.areas|
    ensures SizeUpTo(t.areas, i) == Start(Shapes(t.areas), i)
  {
    if i > 0 {
      var sites := Shapes(t.areas);
      SizeIsStart(t, i - 1);
      assert AreaTopology.HasPlace(t.areas, sites, i - 1);
      var j: nat :| AreaTopology.IsPlaced(t.areas, sites, i - 1, j);
      MembersCount(sites, j);
      assert |t.areas[i - 1].nodes| == |t.areas[i - 1].nodes.Keys|;
      assert sites[j].n == sites[i - 1].n;
    }
  }

  lemma OnePartMore(sites: seq<Site>, i: nat, before: seq<Node>, part: seq<Node>)
    requires i < |sites| && Lists(before, NodesOf(0, Start(sites, i))) && Lists(part, Members(sites, i))
    ensures Lists(before + part, NodesOf(0, Start(sites, i + 1)))
  {
    MembersAfter(sites, i);
    hide Lists, Start, NodesOf, Members;
    ListsAppend(before, part, NodesOf(0, Start(sites, i)), Members(sites, i));
  }

  /** In a complete topology the areas list the nodes up to their numbers. */
  lemma {:induction false} PartsOfComplete(t: AreaTopology, parts: seq<seq<Node>>, i: nat)
    requires t.Complete() && |parts| == i <= |t.areas|
    requires forall a :: 0 <= a < i ==> Lists(parts[a], t.areas[a].nodes.Keys)
    ensures Lists(Concat(parts), NodesOf(0, Start(Shapes(t.areas), i)))
  {
    var sites := Shapes(t.areas);
    if i == 0 {
      NoNodes(0);
    } else {
      var a := i - 1;
      KeysOfLinked(t.areas[a].nodes, sites, a, |sites|);
      hide Lists, Start, NodesOf, Members, Shapes, Linked;
      PartsOfComplete(t, parts[..a], a);
      OnePartMore(sites, a, Concat(parts[..a]), parts[a]);
    }
  }

  lemma FoundInComplete(t: AreaTopology, a: nat, node: Node, target: string)
    requires t.Complete() && a < |t.areas| && node in t.areas[a].nodes && node.name == target
    ensures forall i, k: nat :: 0 <= i < |t.areas| && InArea(Shapes(t.areas), i, k) && NodeName(k) == target ==>
              i == a && Member(k) == node
    ensures exists k: nat :: k < Total(Shapes(t.areas)) && NodeName(k) == target
  {
    var sites := Shapes(t.areas);
    hide Linked, NodeName, Start, Members;
    KeysOfLinked(t.areas[a].nodes, sites, a, |sites|) by { assert t.Complete(); }
    OnlyNamesake(sites, a, node, target);
  }

  lemma MissedInComplete(t: AreaTopology, target: string)
    requires t.Complete() && forall a :: 0 <= a < |t.areas| ==> !HasName(t.areas[a].nodes, target)
    ensures forall i, k: nat :: 0 <= i < |t.areas| && InArea(Shapes(t.areas), i, k) ==> NodeName(k) != target
  {
    var sites := Shapes(t.areas);
    hide Linked, NodeName, Start;
    forall i, k: nat | 0 <= i < |t.areas| && InArea(sites, i, k) ensures NodeName(k) != target {
      KeysOfLinked(t.areas[i].nodes, sites, i, |sites|);
      Numbers(sites, i);
      assert Member(k) in t.areas[i].nodes && Member(k).name == NodeName(k);
    }
  }

  /** The members of area a, by number and by name. */
  lemma Numbers(sites: seq<Site>, a: nat)
    requires a < |sites|
    ensures forall k: nat :: InArea(sites, a, k) ==> Member(k) in Members(sites, a)
    ensures forall k: nat :: Start(sites, a) <= k < Start(sites, a + 1) ==>
              Member(k) in Members(sites, a) && Member(k).name == NodeName(k)
  {
  }

  /** Every number below the total belongs to an area. */
  lemma Numbered(sites: seq<Site>)
    ensures forall i, k: nat :: 0 <= i < |sites| && InArea(sites, i, k) ==> k < Total(sites)
  {
    forall i, k: nat | 0 <= i < |sites| && InArea(sites, i, k) ensures k < Total(sites) {
      StartMonotone(sites, i + 1, |sites|);
    }
  }

  lemma StartAt(sites: seq<Site>, i: nat)
    requires i <= |sites|
    ensures Start(sites, i) == if i == 0 then 0 else Start(sites, i - 1) + sites[i - 1].n
  {
  }

  /** An area without nodes is linked wherever it is passed. */
  lemma SameEmpty(nodes: map<Node, seq<Link>>, sites: seq<Site>, i: nat, j: nat, a: nat, b: nat)
    requires Linked(nodes, sites, i, j) && a < |sites| && b <= |sites| && sites[i].n == 0 && sites[a].n == 0
    ensures Linked(nodes, sites, a, b)
  {
    StartAt(sites, i + 1);
    StartAt(sites, a + 1);
    hide Start, Lists;
    assert Members(sites, i) == {} == Members(sites, a);
  }

  /** An area with nodes cannot hold the numbers of two places. */
  lemma OnlySeparateIsComplete(t: AreaTopology)
    requires t.Complete()
    ensures AreaTopology.Separate(t.areas)
  {
    var sites := Shapes(t.areas);
    forall i, j | 0 <= i < j < |t.areas| && t.areas[i] == t.areas[j] ensures t.areas[i].n == 0 {
      KeysOfLinked(t.areas[i].nodes, sites, i, |sites|);
      KeysOfLinked(t.areas[j].nodes, sites, j, |sites|);
      if sites[i].n > 0 {
        SameMembers(sites, i, j);
      }
    }
  }

  lemma SameMembers(sites: seq<Site>, i: nat, j: nat)
    requires i < |sites| && j < |sites| && Members(sites, i) == Members(sites, j) && sites[i].n > 0
    ensures i == j
  {
    var k := Start(sites, i);
    StartAt(sites, i + 1);
    hide Start, Member;
    assert Member(k) in Members(sites, j);
    var l: nat :| InArea(sites, j, l) && Member(k) == Member(l);
    MemberInjective(k, l);
    if i != j { AreasDisjoint(sites, i, j, k); }
  }

  lemma KeysOfLinked(nodes: map<Node, seq<Link>>, sites: seq<Site>, i: nat, j: nat)
    requires Linked(nodes, sites, i, j)
    ensures i < |sites| && nodes.Keys == Members(sites, i)
  {
  }

  lemma PopulatedIsLinked(sites: seq<Site>, i: nat, start: nat, end: nat, nodes: map<Node, seq<Link>>)
    requires i < |sites| && start == Start(sites, i) && end == start + sites[i].n
    requires Filled(nodes, start, end, end, sites[i].latency)
    ensures Linked(nodes, sites, i, 0)
  {
    StartAt(sites, i + 1);
    hide Start, InSequence, NodesOf, IsWalk, Member, Filled;
    KeysOfFilled(sites, i, start, end, nodes);
    hide Members;
    forall k: nat | InArea(sites, i, k) ensures Member(k) in nodes.Keys && IsWalk(nodes[Member(k)], sites, i, k, 0) {
      PopulatedWalk(sites, i, start, end, nodes, k);
    }
  }

  lemma KeysOfFilled(sites: seq<Site>, i: nat, start: nat, end: nat, nodes: map<Node, seq<Link>>)
    requires i < |sites| && start == Start(sites, i) && end == Start(sites, i + 1)
    requires Filled(nodes, start, end, end, sites[i].latency)
    ensures nodes.Keys == Members(sites, i)
  {
    hide Start, NodesOf;
  }

  lemma PopulatedWalk(sites: seq<Site>, i: nat, start: nat, end: nat, nodes: map<Node, seq<Link>>, k: nat)
    requires i < |sites| && start == Start(sites, i) && end == Start(sites, i + 1) && InArea(sites, i, k)
    requires Filled(nodes, start, end, end, sites[i].latency)
    ensures Member(k) in nodes.Keys && IsWalk(nodes[Member(k)], sites, i, k, 0)
  {
    hide Start, InSequence, NodesOf, Member, IsWalk;
    OwnIsWalk(sites, i, k);
  }

  lemma OwnIsWalk(sites: seq<Site>, i: nat, k: nat)
    requires i < |sites|
    ensures IsWalk(InSequence(Start(sites, i), Start(sites, i + 1), k, sites[i].latency), sites, i, k, 0)
  {
    hide Start, InSequence;
  }

  /** Adding the links into area j to every node of area i. */
  lemma LinkedNext(sites: seq<Site>, i: nat, j: nat, was: map<Node, seq<Link>>, now: map<Node, seq<Link>>)
    requires i != j && j < |sites| && Linked(was, sites, i, j)
    requires now.Keys == was.Keys
    requires forall u :: u in was ==>
               && was[u] <= now[u]
               && Lists(now[u][|was[u]|..],
                        Toward(Members(sites, j), CalculateLatency(sites[i].x, sites[i].y, sites[j].x, sites[j].y)))
    ensures Linked(now, sites, i, j + 1)
  {
    hide Lists, Members, IsWalk;
    forall k: nat | InArea(sites, i, k)
      ensures Member(k) in now.Keys && IsWalk(now[Member(k)], sites, i, k, j + 1)
    {
      var u := Member(k);
      WalkNext(sites, i, k, j, was[u], now[u][|was[u]|..]);
      assert was[u] + now[u][|was[u]|..] == now[u];
    }
  }

  lemma LinkedSame(sites: seq<Site>, i: nat, nodes: map<Node, seq<Link>>)
    requires Linked(nodes, sites, i, i)
    ensures Linked(nodes, sites, i, i + 1)
  {
  }

  /** The numbers of area i follow those of the areas before it. */
  lemma MembersAfter(sites: seq<Site>, i: nat)
    requires i < |sites|
    ensures var known := NodesOf(0, Start(sites, i));
            known !! Members(sites, i) && known + Members(sites, i) == NodesOf(0, Start(sites, i + 1))
  {
    StartAt(sites, i + 1);
    hide Start;
    forall a: nat, b: nat | a < Start(sites, i) <= b ensures Member(a) != Member(b) { MemberInjective(a, b); }
  }

  /** A name belongs to one member of one area. */
  lemma OnlyNamesake(sites: seq<Site>, a: nat, node: Node, target: string)
    requires a < |sites| && node in Members(sites, a) && node.name == target
    ensures forall i, k: nat :: 0 <= i < |sites| && InArea(sites, i, k) && NodeName(k) == target ==> i == a && Member(k) == node
    ensures exists k: nat :: k < Total(sites) && NodeName(k) == target
  {
    var own: nat :| InArea(sites, a, own) && node == Member(own);
    assert Member(own).name == NodeName(own);
    forall i, k: nat | 0 <= i < |sites| && InArea(sites, i, k) && NodeName(k) == target ensures i == a && k == own {
      NodeNameInjective(k, own);
      if i != a { AreasDisjoint(sites, i, a, own); }
    }
    StartMonotone(sites, a + 1, |sites|);
  }

  lemma IntoIsToward(sites: seq<Site>, i: nat, j: nat, k: nat)
    requires i < |sites| && j < |sites| && i != j && InArea(sites, i, k)
    ensures LinksInto(sites, i, j, k)
            == Toward(Members(sites, j), CalculateLatency(sites[i].x, sites[i].y, sites[j].x, sites[j].y))
  {
    AreasDisjoint(sites, i, j, k);
  }

  lemma WalkMore(sites: seq<Site>, i: nat, k: nat, j: nat, links: seq<Link>, more: seq<Link>)
    requires i < |sites| && j < |sites| && i != j
    requires IsWalk(links, sites, i, k, j) && Lists(more, LinksInto(sites, i, j, k))
    ensures IsWalk(links + more, sites, i, k, j + 1)
  {
    hide Lists, LinksInto;
    var all := links + more;
    assert all[..|links|] == links && all[|links|..] == more;
  }

  /** Appending the links into one more area goes on with the walk. */
  lemma WalkNext(sites: seq<Site>, i: nat, k: nat, j: nat, links: seq<Link>, more: seq<Link>)
    requires i < |sites| && j < |sites| && i != j && InArea(sites, i, k)
    requires IsWalk(links, sites, i, k, j)
    requires Lists(more, Toward(Members(sites, j), CalculateLatency(sites[i].x, sites[i].y, sites[j].x, sites[j].y)))
    ensures IsWalk(links + more, sites, i, k, j + 1)
  {
    hide *;
    IntoIsToward(sites, i, j, k);
    WalkMore(sites, i, k, j, links, more);
  }

  /** A walk lists the links of the node, each once. */
  lemma {:induction false} WalkLists(links: seq<Link>, sites: seq<Site>, i: nat, k: nat, j: nat)
    requires i < |sites| && j <= |sites| && IsWalk(links, sites, i, k, j)
    ensures Lists(links, Wanted(sites, i, k, j))
    decreases j
  {
    hide Lists, InSequence, LinksInto, Start, LinksOf;
    if j == 0 {
      StartMonotone(sites, i, i + 1);
      OwnLists(sites, i, k);
    } else if j - 1 == i {
      WalkLists(links, sites, i, k, j - 1);
    } else {
      var p: nat :| p <= |links| && IsWalk(links[..p], sites, i, k, j - 1) && Lists(links[p..], LinksInto(sites, i, j - 1, k));
      WalkLists(links[..p], sites, i, k, j - 1);
      WantedDisjoint(sites, i, k, j - 1);
      ListsAppend(links[..p], links[p..], Wanted(sites, i, k, j - 1), LinksInto(sites, i, j - 1, k));
      assert links[..p] + links[p..] == links;
    }
  }

  lemma OwnLists(sites: seq<Site>, i: nat, k: nat)
    requires i < |sites|
    ensures Lists(InSequence(Start(sites, i), Start(sites, i + 1), k, sites[i].latency), LinksInto(sites, i, i, k))
  {
    hide Lists, InSequence;
    StartMonotone(sites, i, i + 1);
    SequenceLists(Start(sites, i), Start(sites, i + 1), k, sites[i].latency);
  }

  /** The links into area j are new. */
  lemma WantedDisjoint(sites: seq<Site>, i: nat, k: nat, j: nat)
    requires i < |sites| && j < |sites| && i != j
    ensures Wanted(sites, i, k, j) !! LinksInto(sites, i, j, k)
  {
    forall link | link in Wanted(sites, i, k, j) && link in LinksInto(sites, i, j, k) ensures false {
      var a := WantedTarget(sites, i, k, j, link);
      var b: nat :| Start(sites, j) <= b < Start(sites, j + 1) && link.distant == Member(b);
      MemberInjective(a, b);
      AreasDisjoint(sites, i, j, b);
    }
  }

  /** No number belongs to two areas. */
  lemma AreasDisjoint(sites: seq<Site>, i: nat, j: nat, k: nat)
    requires i < |sites| && j < |sites| && i != j
    ensures !(InArea(sites, i, k) && InArea(sites, j, k))
  {
    if i < j { StartMonotone(sites, i + 1, j); } else { StartMonotone(sites, j + 1, i); }
  }

  /** The node that a wanted link leads to. */
  lemma {:induction false} WantedTarget(sites: seq<Site>, i: nat, k: nat, j: nat, link: Link) returns (l: nat)
    requires i < |sites| && j <= |sites| && link in Wanted(sites, i, k, j)
    ensures link.distant == Member(l) && l != k && (InArea(sites, i, l) || l < Start(sites, j))
    ensures exists a :: 0 <= a < |sites| && InArea(sites, a, l) && link == Link(Member(l), Between(sites, i, a), Loss(0.0))
  {
    if j == 0 {
      l :| InArea(sites, i, l) && l != k && link == Link(Member(l), Between(sites, i, i), Loss(0.0));
    } else if link in Wanted(sites, i, k, j - 1) {
      l := WantedTarget(sites, i, k, j - 1, link);
      StartMonotone(sites, j - 1, j);
    } else {
      l :| InArea(sites, j - 1, l) && l != k && link == Link(Member(l), Between(sites, i, j - 1), Loss(0.0));
      assert InArea(sites, j - 1, l);
    }
  }

  /** An area has as many members as it asks for. */
  lemma MembersCount(sites: seq<Site>, i: nat)
    requires i < |sites|
    ensures |Members(sites, i)| == sites[i].n
  {
    RangeCount(Start(sites, i), Start(sites, i + 1));
  }

  lemma {:induction false} RangeCount(start: nat, end: nat)
    requires start <= end
    ensures |NodesOf(start, end)| == end - start
  {
    if start == end {
      NoNodes(start);
    } else {
      RangeCount(start, end - 1);
      NodesNext(start, end - 1);
      hide NodesOf, Member;
    }
  }

  // ---------- the graph is complete ----------

  /** The links that lead to a node, in order. */
  function LinksTo(links: seq<Link>, node: Node): seq<Link> {
    if links == [] then []
    else (if links[0].distant == node then [links[0]] else []) + LinksTo(links[1..], node)
  }

  /** Each node has exactly one link to each other one, with the delay of their areas, and none to itself. */
  lemma CompleteDigraph(sites: seq<Site>, i: nat, k: nat, links: seq<Link>)
    requires i < |sites| && InArea(sites, i, k)
    requires Lists(links, Wanted(sites, i, k, |sites|))
    ensures |links| == Total(sites) - 1
    ensures forall j, l: nat :: 0 <= j < |sites| && InArea(sites, j, l) && l != k ==>
              LinksTo(links, Member(l)) == [Link(Member(l), Between(sites, i, j), Loss(0.0))]
    ensures LinksTo(links, Member(k)) == []
    ensures forall p :: 0 <= p < |links| ==>
              exists j, l: nat :: 0 <= j < |sites| && InArea(sites, j, l) && l != k && links[p].distant == Member(l)
  {
    var all := Wanted(sites, i, k, |sites|);
    ListsLength(links, all);
    WantedCount(sites, i, k, |sites|);
    StartMonotone(sites, i + 1, |sites|);
    forall j, l: nat | 0 <= j < |sites| && InArea(sites, j, l) && l != k
      ensures LinksTo(links, Member(l)) == [Link(Member(l), Between(sites, i, j), Loss(0.0))]
    {
      WantedHas(sites, i, k, |sites|, j, l);
      forall link | link in all && link.distant == Member(l) ensures link == Link(Member(l), Between(sites, i, j), Loss(0.0)) {
        OneDelay(sites, i, k, j, l, link);
      }
      OnlyLink(links, all, Link(Member(l), Between(sites, i, j), Loss(0.0)));
    }
    forall link | link in all ensures link.distant != Member(k) {
      var l := WantedTarget(sites, i, k, |sites|, link);
      MemberInjective(k, l);
    }
    NoLink(links, all, Member(k));
    forall p | 0 <= p < |links|
      ensures exists j, l: nat :: 0 <= j < |sites| && InArea(sites, j, l) && l != k && links[p].distant == Member(l)
    {
      assert links[p] in all;
      var l := WantedTarget(sites, i, k, |sites|, links[p]);
    }
  }

  lemma OneDelay(sites: seq<Site>, i: nat, k: nat, j: nat, l: nat, link: Link)
    requires i < |sites| && j < |sites| && InArea(sites, j, l)
    requires link in Wanted(sites, i, k, |sites|) && link.distant == Member(l)
    ensures link == Link(Member(l), Between(sites, i, j), Loss(0.0))
  {
    var m := WantedTarget(sites, i, k, |sites|, link);
    MemberInjective(l, m);
    var a :| 0 <= a < |sites| && InArea(sites, a, m) && link == Link(Member(m), Between(sites, i, a), Loss(0.0));
    if a != j { AreasDisjoint(sites, a, j, l); }
  }

  lemma {:induction false} WantedHas(sites: seq<Site>, i: nat, k: nat, upTo: nat, j: nat, l: nat)
    requires i < |sites| && upTo <= |sites| && j < |sites| && (j == i || j < upTo)
    requires InArea(sites, j, l) && l != k
    ensures Link(Member(l), Between(sites, i, j), Loss(0.0)) in Wanted(sites, i, k, upTo)
  {
    hide Start, Between, Member;
    if upTo > 0 && (j == i || j < upTo - 1) {
      WantedHas(sites, i, k, upTo - 1, j, l);
    } else {
      assert Link(Member(l), Between(sites, i, j), Loss(0.0)) in LinksInto(sites, i, j, k);
    }
  }

  lemma {:induction false} WantedCount(sites: seq<Site>, i: nat, k: nat, j: nat)
    requires i < |sites| && j <= |sites| && InArea(sites, i, k)
    ensures |Wanted(sites, i, k, j)| == Start(sites, j) + (if j <= i then sites[i].n else 0) - 1
  {
    hide LinksInto, Between, Member;
    if j == 0 {
      LinksIntoCount(sites, i, i, k);
    } else {
      WantedCount(sites, i, k, j - 1);
      if j - 1 != i {
        LinksIntoCount(sites, i, j - 1, k);
        AreasDisjoint(sites, i, j - 1, k);
        WantedDisjoint(sites, i, k, j - 1);
        assert Wanted(sites, i, k, j) == Wanted(sites, i, k, j - 1) + LinksInto(sites, i, j - 1, k);
      }
    }
  }

  lemma LinksIntoCount(sites: seq<Site>, i: nat, j: nat, k: nat)
    requires i < |sites| && j < |sites|
    ensures |LinksInto(sites, i, j, k)| == sites[j].n - if InArea(sites, j, k) then 1 else 0
  {
    LinkRangeCount(Start(sites, j), Start(sites, j + 1), k, Between(sites, i, j));
  }

  lemma {:induction false} LinkRangeCount(start: nat, end: nat, k: nat, delay: Delay)
    requires start <= end
    ensures |LinksOf(start, end, k, delay)| == end - start - if start <= k < end then 1 else 0
  {
    if start == end {
      assert LinksOf(start, end, k, delay) == {};
    } else {
      LinkRangeCount(start, end - 1, k, delay);
      if end - 1 == k {
        LinksSame(start, k, delay);
      } else {
        NewLink(start, end - 1, k, delay);
      }
    }
  }

  lemma {:induction false} ListsLength<T(!new)>(s: seq<T>, elements: set<T>)
    requires Lists(s, elements)
    ensures |s| == |elements|
  {
    if s == [] {
      assert elements == {};
    } else {
      var last := s[|s| - 1];
      var rest := s[..|s| - 1];
      assert s == rest + [last];
      forall x ensures x in rest <==> x in elements - {last} {
        if x in rest { assert x in s; }
      }
      ListsLength(rest, elements - {last});
    }
  }

  lemma {:induction false} NoLink(links: seq<Link>, all: set<Link>, node: Node)
    requires forall x :: x in links ==> x in all
    requires forall x :: x in all ==> x.distant != node
    ensures LinksTo(links, node) == []
  {
    if links != [] {
      NoLink(links[1..], all, node);
    }
  }

  lemma {:induction false} OnlyLink(links: seq<Link>, all: set<Link>, link: Link)
    requires Lists(links, all) && link in all
    requires forall x :: x in all && x.distant == link.distant ==> x == link
    ensures LinksTo(links, link.distant) == [link]
  {
    var rest := links[1..];
    assert links == [links[0]] + rest;
    forall x ensures x in rest <==> x in all - {links[0]} {
      if x in rest { assert x in links; }
    }
    assert Lists(rest, all - {links[0]}) by {
      forall p, q | 0 <= p < q < |rest| ensures rest[p] != rest[q] {
        assert rest[p] == links[p + 1] && rest[q] == links[q + 1];
      }
    }
    if links[0] == link {
      NoLink(rest, all - {link}, link.distant);
    } else {
      OnlyLink(rest, all - {links[0]}, link);
    }
  }
}
