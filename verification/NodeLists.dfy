// The whitelist and the comlist: fixed arrays of node addresses in which 0
// marks an unused entry (nodelist_* in i8-transceiver.c).
module NodeLists {
  import opened Packets

  const MAX_NODE_LIST := 1024

  type NodeList = list: seq<uint64> | |list| == MAX_NODE_LIST witness ZeroNodes(MAX_NODE_LIST)

  function ZeroNodes(n: nat): (r: seq<uint64>)
    ensures |r| == n && forall i | 0 <= i < n :: r[i] == 0
  {
    seq(n, _ => 0)
  }

  // The number of leading nonzero entries.
  function PrefixCount(list: seq<uint64>): (n: nat)
    ensures n <= |list|
    ensures forall k | 0 <= k < n :: list[k] != 0
    ensures n < |list| ==> list[n] == 0
  {
    if |list| == 0 || list[0] == 0 then 0 else 1 + PrefixCount(list[1..])
  }

  function Nodes(list: seq<uint64>): seq<uint64> {
    list[..PrefixCount(list)]
  }

  // A nonzero prefix followed by zeros only.
  predicate Tidy(list: seq<uint64>) {
    forall k | PrefixCount(list) <= k < |list| :: list[k] == 0
  }

  predicate Distinct(nodes: seq<uint64>) {
    forall i, j | 0 <= i < j < |nodes| :: nodes[i] != nodes[j]
  }

  lemma PrefixCountIs(list: seq<uint64>, n: nat)
    requires n <= |list| && (forall k | 0 <= k < n :: list[k] != 0)
    requires n < |list| ==> list[n] == 0
    ensures PrefixCount(list) == n
  {
  }

  // The list that holds exactly these nodes, cut to its capacity.
  function Holding(nodes: seq<uint64>): (r: NodeList) {
    if |nodes| >= MAX_NODE_LIST then nodes[..MAX_NODE_LIST]
    else nodes + ZeroNodes(MAX_NODE_LIST - |nodes|)
  }

  lemma HoldingNodes(list: NodeList)
    requires Tidy(list)
    ensures Holding(Nodes(list)) == list
  {
  }

  lemma NodesOfHolding(nodes: seq<uint64>)
    requires 0 !in nodes
    ensures Tidy(Holding(nodes))
    ensures Nodes(Holding(nodes)) == if |nodes| >= MAX_NODE_LIST then nodes[..MAX_NODE_LIST] else nodes
  {
    PrefixCountIs(Holding(nodes), if |nodes| >= MAX_NODE_LIST then MAX_NODE_LIST else |nodes|);
  }

  // A list that has been set to zero.
  function Empty(): NodeList {
    ZeroNodes(MAX_NODE_LIST)
  }

  lemma EmptyTidy()
    ensures Tidy(Empty()) && Nodes(Empty()) == []
  {
  }

  // nodelist_add: the new list and whether 0 is returned.
  function Add(list: NodeList, node: uint64): (r: (NodeList, bool)) {
    if node in list then (list, true)
    else if PrefixCount(list) < |list| then (list[PrefixCount(list) := node], true)
    else (list, false)
  }

  // nodelist_append: the source list is read as far as its first zero.
  function Append(target: NodeList, append: NodeList): (r: NodeList) {
    var t, a := PrefixCount(target), PrefixCount(append);
    var n := if t + a > MAX_NODE_LIST then MAX_NODE_LIST - t else a;
    target[..t] + append[..n] + target[t + n..]
  }

  function Count(list: seq<uint64>): (n: nat)
    ensures n <= |list|
  {
    if list == [] then 0
    else Count(list[..|list| - 1]) + if list[|list| - 1] != 0 then 1 else 0
  }

  // ----- the array methods -----

  method NodelistAdd(list: array<uint64>, newNode: uint64) returns (ok: bool)
    requires list.Length == MAX_NODE_LIST
    modifies list
    ensures (list[..], ok) == Add(old(list[..]), newNode)
  {
    for i := 0 to MAX_NODE_LIST
      invariant newNode !in list[..i]
      invariant list[..] == old(list[..])
    {
      if list[i] == newNode {
        return true;
      }
    }
    assert list[..MAX_NODE_LIST] == list[..];
    for i := 0 to MAX_NODE_LIST
      invariant forall k | 0 <= k < i :: list[k] != 0
      invariant list[..] == old(list[..])
    {
      if list[i] == 0 {
        PrefixCountIs(list[..], i);
        list[i] := newNode;
        return true;
      }
    }
    ok := false;
  }

  method NodelistAppend(target: array<uint64>, append: array<uint64>)
    requires target.Length == append.Length == MAX_NODE_LIST && target != append
    modifies target
    ensures target[..] == Append(old(target[..]), append[..])
  {
    var targetCount, appendCount := 0, 0;
    while targetCount < MAX_NODE_LIST && target[targetCount] != 0
      invariant targetCount <= MAX_NODE_LIST
      invariant forall k | 0 <= k < targetCount :: target[k] != 0
    {
      targetCount := targetCount + 1;
    }
    while appendCount < MAX_NODE_LIST && append[appendCount] != 0
      invariant appendCount <= MAX_NODE_LIST
      invariant forall k | 0 <= k < appendCount :: append[k] != 0
    {
      appendCount := appendCount + 1;
    }
    PrefixCountIs(target[..], targetCount);
    PrefixCountIs(append[..], appendCount);
    var n := if targetCount + appendCount > MAX_NODE_LIST then MAX_NODE_LIST - targetCount else appendCount;
    for i := 0 to n
      invariant forall k | 0 <= k < MAX_NODE_LIST ::
                  target[k] == if targetCount <= k < targetCount + i then append[k - targetCount] else old(target[k])
    {
      target[i + targetCount] := append[i];
    }
  }

  method NodelistFind(list: array<uint64>, node: uint64) returns (found: bool)
    requires list.Length == MAX_NODE_LIST
    ensures found <==> node in list[..]
  {
    for i := 0 to MAX_NODE_LIST
      invariant node !in list[..i]
    {
      if list[i] == node {
        return true;
      }
    }
    assert list[..MAX_NODE_LIST] == list[..];
    found := false;
  }

  method NodelistCount(list: array<uint64>) returns (found: nat)
    requires list.Length == MAX_NODE_LIST
    ensures found == Count(list[..])
  {
    found := 0;
    for i := 0 to MAX_NODE_LIST
      invariant found == Count(list[..i])
    {
      assert list[..i + 1][..i] == list[..i];
      if list[i] != 0 {
        found := found + 1;
      }
    }
    assert list[..MAX_NODE_LIST] == list[..];
  }

  // ----- what the operations do to tidy lists -----

  // Appending concatenates the node sequences and cuts at the capacity.
  lemma AppendConcatenates(target: NodeList, append: NodeList)
    requires Tidy(target)
    ensures Append(target, append) == Holding(Nodes(target) + Nodes(append))
    ensures Tidy(Append(target, append))
  {
    NodesOfHolding(Nodes(target) + Nodes(append));
  }

  lemma AddToTidy(list: NodeList, node: uint64)
    requires Tidy(list) && node !in list && PrefixCount(list) < MAX_NODE_LIST
    ensures node != 0
    ensures Add(list, node) == (Holding(Nodes(list) + [node]), true)
    ensures var list' := Holding(Nodes(list) + [node]);
      node in list' && Tidy(list') && Nodes(list') == Nodes(list) + [node]
  {
    var n := PrefixCount(list);
    assert list[n] == 0;
    var list' := Holding(Nodes(list) + [node]);
    assert list' == list[n := node] && list'[n] == node;
    NodesOfHolding(Nodes(list) + [node]);
  }

  // Any address ends up in the list unless the list is full, no address is
  // listed twice, and address 0 is never given an entry of its own.
  lemma AddKeepsDistinct(list: NodeList, node: uint64)
    requires Tidy(list) && Distinct(Nodes(list))
    ensures var (list', ok) := Add(list, node);
      && list' == Holding(if node in list then Nodes(list) else Nodes(list) + [node])
      && Tidy(list') && Distinct(Nodes(list'))
      && (ok <==> node in list')
      && (!ok <==> node !in list && PrefixCount(list) == MAX_NODE_LIST)
  {
    if node in list {
      HoldingNodes(list);
    } else if PrefixCount(list) == MAX_NODE_LIST {
      assert Nodes(list) == list;
    } else {
      AddToTidy(list, node);
    }
  }

  // The search runs over unused entries too: address 0 is found in every tidy
  // list that is not full.
  lemma FindOnTidy(list: NodeList, node: uint64)
    requires Tidy(list)
    ensures node in list <==> node in Nodes(list) || (node == 0 && |Nodes(list)| < MAX_NODE_LIST)
  {
    if node == 0 && |Nodes(list)| < MAX_NODE_LIST {
      assert list[|Nodes(list)|] == 0;
    }
  }

  lemma {:induction false} CountUpTo(list: seq<uint64>, n: nat)
    requires Tidy(list) && n <= |list|
    ensures Count(list[..n]) == if n <= PrefixCount(list) then n else PrefixCount(list)
  {
    if n > 0 {
      assert list[..n][..n - 1] == list[..n - 1];
      CountUpTo(list, n - 1);
    }
  }

  // nodelist_count agrees with the prefix count that append computes.
  lemma CountIsPrefixCount(list: NodeList)
    requires Tidy(list)
    ensures Count(list) == PrefixCount(list)
  {
    CountUpTo(list, |list|);
    assert list[..|list|] == list;
  }
}
