/** network/area.go: what the order in which Go walks its maps decides. */
module AreaOrder {
  import opened Text
  import opened Rule
  import opened Topology
  import opened Area
  import opened Executor
  import opened Emulation

  /** How many links a node of area i has when the loops have come to area j. */
  function Before(sites: seq<Site>, i: nat, j: nat): int
    requires i < |sites| && j <= |sites|
  {
    if j == 0 then sites[i].n - 1 else Before(sites, i, j - 1) + if j - 1 == i then 0 else sites[j - 1].n
  }

  /** The 999th link of a node of area i is one into area j, but not the last of them. */
  predicate Straddles(sites: seq<Site>, i: nat, j: nat)
    requires i < |sites|
  {
    j < |sites| && j != i && Before(sites, i, j) < 999 < Before(sites, i, j) + sites[j].n
  }

  lemma {:induction false} BeforeGrows(sites: seq<Site>, i: nat, h: nat, j: nat)
    requires i < |sites| && h <= j <= |sites|
    ensures Before(sites, i, h) <= Before(sites, i, j)
  {
    if h < j { BeforeGrows(sites, i, h, j - 1); }
  }

  lemma BlockLength(block: seq<Link>, sites: seq<Site>, i: nat, k: nat, j: nat)
    requires i < |sites| && j < |sites| && InArea(sites, i, k) && Lists(block, LinksInto(sites, i, j, k))
    ensures |block| == sites[j].n - if j == i then 1 else 0
  {
    hide Start, Lists, LinksInto;
    ListsLength(block, LinksInto(sites, i, j, k));
    LinksIntoCount(sites, i, j, k);
    if j != i { AreasDisjoint(sites, i, j, k); }
  }

  lemma {:induction false} WalkLength(links: seq<Link>, sites: seq<Site>, i: nat, k: nat, j: nat)
    requires i < |sites| && j <= |sites| && InArea(sites, i, k) && IsWalk(links, sites, i, k, j)
    ensures |links| == Before(sites, i, j)
    decreases j
  {
    hide Start, Lists, LinksInto, InSequence, InArea;
    if j == 0 {
      OwnLists(sites, i, k);
      BlockLength(links, sites, i, k, i);
    } else if j - 1 == i {
      WalkLength(links, sites, i, k, j - 1);
    } else {
      var p: nat :| p <= |links| && IsWalk(links[..p], sites, i, k, j - 1) && Lists(links[p..], LinksInto(sites, i, j - 1, k));
      WalkLength(links[..p], sites, i, k, j - 1);
      BlockLength(links[p..], sites, i, k, j - 1);
    }
  }

  // ---------- when every order gives the same network ----------

  lemma EnoughLinks(links: seq<Link>, more: seq<Link>)
    requires |links| >= 999
    ensures Effective(links + more) == Effective(links)
  {
    assert (links + more)[..999] == links[..999];
  }

  lemma FewLinks(links: seq<Link>, elements: set<Link>)
    requires |links| <= 999 && Lists(links, elements)
    ensures Effective(links) == elements
  {
  }

  /** If no area is straddled, all walks have the same links among their first 999. */
  lemma {:induction false} WalksAgree(a: seq<Link>, b: seq<Link>, sites: seq<Site>, i: nat, k: nat, j: nat)
    requires i < |sites| && j <= |sites| && InArea(sites, i, k)
    requires IsWalk(a, sites, i, k, j) && IsWalk(b, sites, i, k, j)
    requires forall h: nat :: h < j ==> !Straddles(sites, i, h)
    ensures Effective(a) == Effective(b)
    decreases j
  {
    hide Start, Lists, LinksInto, InSequence, InArea, Effective, Wanted;
    WalkLength(a, sites, i, k, j);
    WalkLength(b, sites, i, k, j);
    if j > 0 && j - 1 == i {
      WalksAgree(a, b, sites, i, k, j - 1);
    } else if j > 0 {
      var h := j - 1;
      assert !Straddles(sites, i, h);
      if |a| <= 999 {
        hide IsWalk;
        WalkLists(a, sites, i, k, j);
        WalkLists(b, sites, i, k, j);
        FewLinks(a, Wanted(sites, i, k, j));
        FewLinks(b, Wanted(sites, i, k, j));
      } else {
        var p: nat :| p <= |a| && IsWalk(a[..p], sites, i, k, h) && Lists(a[p..], LinksInto(sites, i, h, k));
        var q: nat :| q <= |b| && IsWalk(b[..q], sites, i, k, h) && Lists(b[q..], LinksInto(sites, i, h, k));
        WalkLength(a[..p], sites, i, k, h);
        WalkLength(b[..q], sites, i, k, h);
        WalksAgree(a[..p], b[..q], sites, i, k, h);
        EnoughLinks(a[..p], a[p..]);
        EnoughLinks(b[..q], b[q..]);
        assert a[..p] + a[p..] == a && b[..q] + b[q..] == b;
      }
    }
  }

  // ---------- when some orders differ ----------

  function Swapped<T>(s: seq<T>): seq<T>
    requires |s| >= 2
  {
    [s[|s| - 1]] + s[1..|s| - 1] + [s[0]]
  }

  lemma SwappedLists(s: seq<Link>, elements: set<Link>)
    requires |s| >= 2 && Lists(s, elements)
    ensures Lists(Swapped(s), elements)
  {
    var n := |s| - 1;
    var t := Swapped(s);
    assert t[0] == s[n] && t[n] == s[0] && forall p :: 0 < p < n ==> t[p] == s[p];
    forall x ensures x in t <==> x in s {
      if x in s { var p :| 0 <= p <= n && s[p] == x; assert t[if p == 0 then n else if p == n then 0 else p] == x; }
    }
  }

  /** The first link of a straddled block is among the first 999, and the last one is not. */
  lemma SwappedEffective(front: seq<Link>, block: seq<Link>, elements: set<Link>)
    requires |front| < 999 < |front| + |block| && |block| >= 2 && Lists(front + Swapped(block), elements)
    ensures Effective(front + block) != Effective(front + Swapped(block))
  {
    var a, b, first := front + block, front + Swapped(block), block[0];
    var at := |b| - 1;
    assert first in Effective(a) by { assert Fitting(a)[|front|] == first; }
    assert b[at] == first;
    assert first !in Effective(b) by { assert forall p :: 0 <= p < 999 ==> Fitting(b)[p] == b[p] != b[at]; }
  }

  /** For any walk in which an area is straddled there is another one with other links among its first 999:
      the loops may find the first and the last node of that area the other way round. */
  lemma {:induction false} OtherWalk(a: seq<Link>, sites: seq<Site>, i: nat, k: nat, h: nat, j: nat) returns (b: seq<Link>)
    requires i < |sites| && h < j <= |sites| && InArea(sites, i, k) && Straddles(sites, i, h)
    requires IsWalk(a, sites, i, k, j)
    ensures IsWalk(b, sites, i, k, j) && Effective(a) != Effective(b)
    decreases j
  {
    hide Start, Lists, LinksInto, InSequence, InArea, Effective, Wanted, Swapped;
    if j - 1 == i {
      b := OtherWalk(a, sites, i, k, h, j - 1);
    } else {
      var p: nat :| p <= |a| && IsWalk(a[..p], sites, i, k, j - 1) && Lists(a[p..], LinksInto(sites, i, j - 1, k));
      var front, block := a[..p], a[p..];
      assert front + block == a;
      WalkLength(front, sites, i, k, j - 1);
      if j - 1 == h {
        BlockLength(block, sites, i, k, h);
        hide IsWalk;
        SwappedLists(block, LinksInto(sites, i, h, k));
        WalkMore(sites, i, k, h, front, Swapped(block));
        b := front + Swapped(block);
        WalkLists(b, sites, i, k, j);
        SwappedEffective(front, block, Wanted(sites, i, k, j));
      } else {
        var other := OtherWalk(front, sites, i, k, h, j - 1);
        WalkLength(other, sites, i, k, j - 1);
        BeforeGrows(sites, i, h + 1, j - 1);
        assert |front| == |other| >= 999;
        hide IsWalk;
        WalkMore(sites, i, k, j - 1, other, block);
        EnoughLinks(front, block);
        EnoughLinks(other, block);
        b := other + block;
      }
    }
  }

  lemma {:induction false} SomeOrder(elements: set<Link>) returns (links: seq<Link>)
    ensures Lists(links, elements)
  {
    if elements == {} {
      links := [];
    } else {
      var link :| link in elements;
      var rest := SomeOrder(elements - {link});
      assert Lists([link], {link});
      ListsAppend(rest, [link], elements - {link}, {link});
      assert elements - {link} + {link} == elements;
      links := rest + [link];
    }
  }

  lemma {:induction false} SomeWalk(sites: seq<Site>, i: nat, k: nat, j: nat) returns (links: seq<Link>)
    requires i < |sites| && j <= |sites|
    ensures IsWalk(links, sites, i, k, j)
    decreases j
  {
    hide Start, Lists, LinksInto, InSequence;
    if j == 0 {
      links := InSequence(Start(sites, i), Start(sites, i + 1), k, sites[i].latency);
    } else {
      links := SomeWalk(sites, i, k, j - 1);
      if j - 1 != i {
        var block := SomeOrder(LinksInto(sites, i, j - 1, k));
        WalkMore(sites, i, k, j - 1, links, block);
        links := links + block;
      }
    }
  }

  // ---------- the network ----------

  /** If an area is straddled, every order of the loops has another one that gives a different network. */
  lemma StraddlingChangesNetwork(dev: string, sites: seq<Site>, i: nat, k: nat, h: nat, a: seq<Link>, mapping: map<string, string>)
    returns (b: seq<Link>)
    requires IsWord(dev) && i < |sites| && InArea(sites, i, k) && Separates(mapping, NodeNames(Total(sites)))
    requires Straddles(sites, i, h) && IsWalk(a, sites, i, k, |sites|)
    ensures IsWalk(b, sites, i, k, |sites|) && !SameNetwork(dev, a, b, mapping)
  {
    assert h < |sites|;
    hide *;
    b := OtherWalk(a, sites, i, k, h, |sites|);
    WalkLists(a, sites, i, k, |sites|);
    WalkLists(b, sites, i, k, |sites|);
    SameNetworkIff(dev, sites, i, k, a, b, mapping);
  }

  /** Exactly when no area is straddled, the order of the loops over maps is irrelevant for what the network
      of a node does, whether or not its device accepts all of its rules. */
  lemma OrderIsIrrelevantIff(dev: string, sites: seq<Site>, i: nat, k: nat, mapping: map<string, string>)
    requires IsWord(dev) && i < |sites| && InArea(sites, i, k) && Separates(mapping, NodeNames(Total(sites)))
    ensures (forall a, b :: IsWalk(a, sites, i, k, |sites|) && IsWalk(b, sites, i, k, |sites|) ==> SameNetwork(dev, a, b, mapping))
            <==> forall j :: 0 <= j < |sites| ==> !Straddles(sites, i, j)
  {
    hide *;
    if h: nat :| h < |sites| && Straddles(sites, i, h) {
      var a := SomeWalk(sites, i, k, |sites|);
      var b := StraddlingChangesNetwork(dev, sites, i, k, h, a, mapping);
    } else {
      forall a, b | IsWalk(a, sites, i, k, |sites|) && IsWalk(b, sites, i, k, |sites|) ensures SameNetwork(dev, a, b, mapping) {
        WalksAgree(a, b, sites, i, k, |sites|);
        WalkLists(a, sites, i, k, |sites|);
        WalkLists(b, sites, i, k, |sites|);
        SameNetworkIff(dev, sites, i, k, a, b, mapping);
      }
    }
  }

  /** Two areas of 500 and 600 nodes: what the first nodes emulate depends on the order. */
  lemma TwoAreasStraddle(dev: string, latency: Delay, x: real, k: nat, mapping: map<string, string>) returns (a: seq<Link>, b: seq<Link>)
    requires var sites := [Site(500, latency, 0.0, 0.0), Site(600, latency, x, 0.0)];
             IsWord(dev) && InArea(sites, 0, k) && Separates(mapping, NodeNames(Total(sites)))
    ensures var sites := [Site(500, latency, 0.0, 0.0), Site(600, latency, x, 0.0)];
            IsWalk(a, sites, 0, k, 2) && IsWalk(b, sites, 0, k, 2) && !SameNetwork(dev, a, b, mapping)
  {
    var sites := [Site(500, latency, 0.0, 0.0), Site(600, latency, x, 0.0)];
    assert Before(sites, 0, 0) == 499;
    assert Before(sites, 0, 1) == 499;
    assert Straddles(sites, 0, 1);
    hide *;
    a := SomeWalk(sites, 0, k, 2);
    b := StraddlingChangesNetwork(dev, sites, 0, k, 1, a, mapping);
  }

  /** A single area of any size is never straddled, and neither are areas of at most 1000 nodes together. */
  lemma NotStraddled(sites: seq<Site>, i: nat, j: nat)
    requires i < |sites| && j < |sites| && (|sites| == 1 || Total(sites) <= 1000)
    ensures !Straddles(sites, i, j)
  {
    if |sites| > 1 && j != i {
      BeforeAndStart(sites, i, j + 1);
      StartAt(sites, i + 1);
      StartMonotone(sites, if j < i then i + 1 else j + 1, |sites|);
      if j < i { StartMonotone(sites, j + 1, i); }
    }
  }

  lemma {:induction false} BeforeAndStart(sites: seq<Site>, i: nat, j: nat)
    requires i < |sites| && j <= |sites|
    ensures Before(sites, i, j) == Start(sites, j) + (if j <= i then sites[i].n else 0) - 1
  {
    if j > 0 { BeforeAndStart(sites, i, j - 1); }
  }
}
