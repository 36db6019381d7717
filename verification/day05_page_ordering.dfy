/** Day 5: page-ordering rules `parent|child`, a rule graph built from them,
    Kahn's topological sort, and validation of a report's page order. */
module PageOrdering {
  import opened Wrappers
  import opened Seqs

  /** One parsed rule `parent|child`: `parent` must be printed before `child`. */
  datatype Rule = Rule(parent: int, child: int)

  function Elems(s: seq<int>): set<int> {
    set x | x in s
  }

  /** Parents of the rules, collected rule by rule. */
  function Parents(rules: seq<Rule>): set<int> {
    if |rules| == 0 then {} else Parents(rules[..|rules| - 1]) + {rules[|rules| - 1].parent}
  }

  /** Every page a rule mentions. */
  function Nodes(rules: seq<Rule>): set<int> {
    if |rules| == 0 then {}
    else Nodes(rules[..|rules| - 1]) + {rules[|rules| - 1].parent, rules[|rules| - 1].child}
  }

  /** Children of `p`, in rule order. */
  function ChildrenOf(rules: seq<Rule>, p: int): seq<int> {
    if |rules| == 0 then []
    else
      var r := rules[|rules| - 1];
      ChildrenOf(rules[..|rules| - 1], p) + (if r.parent == p then [r.child] else [])
  }

  /** Rules into `n` whose parent is not in `done`. */
  function Remaining(rules: seq<Rule>, done: set<int>, n: int): nat {
    if |rules| == 0 then 0
    else
      var r := rules[|rules| - 1];
      Remaining(rules[..|rules| - 1], done, n)
      + (if r.child == n && r.parent !in done then 1 else 0)
  }

  /** Number of rules whose child is `n`. */
  function InDegree(rules: seq<Rule>, n: int): nat {
    Remaining(rules, {}, n)
  }

  /** The adjacency list and in-degree map of `rules`, as promised by the
      builder below. */
  predicate Describes(rules: seq<Rule>, adj: map<int, seq<int>>, deg: map<int, nat>) {
    && adj.Keys == Parents(rules)
    && (forall p :: p in adj ==> adj[p] == ChildrenOf(rules, p))
    && deg.Keys == Nodes(rules)
    && (forall n :: n in deg ==> deg[n] == InDegree(rules, n))
  }

  /** The loop body of `create_adjacency_list_and_indegree_map` for one rule. */
  function AddRule(adj: map<int, seq<int>>, deg: map<int, nat>, rule: Rule): (map<int, seq<int>>, map<int, nat>) {
    var adj' := adj[rule.parent := (if rule.parent in adj then adj[rule.parent] else []) + [rule.child]];
    var deg' := deg[rule.child := (if rule.child in deg then deg[rule.child] else 0) + 1];
    (adj', if rule.parent in deg' then deg' else deg'[rule.parent := 0])
  }

  lemma AddRuleDescribes(rules: seq<Rule>, adj: map<int, seq<int>>, deg: map<int, nat>, rule: Rule)
    requires Describes(rules, adj, deg)
    ensures var r := AddRule(adj, deg, rule); Describes(rules + [rule], r.0, r.1)
  {
    var rs := rules + [rule];
    assert rs[..|rs| - 1] == rules;
    var r := AddRule(adj, deg, rule);
    forall p | p in r.0
      ensures r.0[p] == ChildrenOf(rs, p)
    {
      assert ChildrenOf(rs, p) == ChildrenOf(rules, p) + (if rule.parent == p then [rule.child] else []);
      if p !in adj {
        assert p !in Parents(rules);
        EmptyChildren(rules, p);
      }
    }
    forall n | n in r.1
      ensures r.1[n] == InDegree(rs, n)
    {
      assert InDegree(rs, n) == InDegree(rules, n) + (if rule.child == n then 1 else 0);
      if n !in deg {
        assert n !in Nodes(rules);
        NoInDegree(rules, n);
      }
    }
  }

  lemma {:induction false} EmptyChildren(rules: seq<Rule>, p: int)
    requires p !in Parents(rules)
    ensures ChildrenOf(rules, p) == []
  {
    if |rules| > 0 {
      EmptyChildren(rules[..|rules| - 1], p);
    }
  }

  lemma {:induction false} NoInDegree(rules: seq<Rule>, n: int)
    requires n !in Nodes(rules)
    ensures InDegree(rules, n) == 0
  {
    if |rules| > 0 {
      NoInDegree(rules[..|rules| - 1], n);
    }
  }

  /** `create_adjacency_list_and_indegree_map` over parsed rules: each rule
      appends its child to the parent's list, adds one to the child's
      in-degree and makes sure the parent has an in-degree entry. The maps
      list every parent's children in rule order and count every node's
      incoming rules. */
  function CreateAdjacencyListAndIndegreeMap(rules: seq<Rule>): (r: (map<int, seq<int>>, map<int, nat>))
    ensures Describes(rules, r.0, r.1)
  {
    if |rules| == 0 then (map[], map[])
    else
      var prev := CreateAdjacencyListAndIndegreeMap(rules[..|rules| - 1]);
      var rule := rules[|rules| - 1];
      AddRuleDescribes(rules[..|rules| - 1], prev.0, prev.1, rule);
      assert rules == rules[..|rules| - 1] + [rule];
      AddRule(prev.0, prev.1, rule)
  }

  // ---------------------------------------------------------------------
  // Facts about Remaining used by the sort

  /** Rules from `c` to `n`. */
  function Between(rules: seq<Rule>, c: int, n: int): nat {
    if |rules| == 0 then 0
    else
      var r := rules[|rules| - 1];
      Between(rules[..|rules| - 1], c, n) + (if r.parent == c && r.child == n then 1 else 0)
  }

  lemma {:induction false} ChildrenCount(rules: seq<Rule>, c: int, n: int)
    ensures multiset(ChildrenOf(rules, c))[n] == Between(rules, c, n)
  {
    if |rules| > 0 {
      ChildrenCount(rules[..|rules| - 1], c, n);
    }
  }

  lemma {:induction false} RemainingSplit(rules: seq<Rule>, done: set<int>, c: int, n: int)
    requires c !in done
    ensures Remaining(rules, done, n) == Remaining(rules, done + {c}, n) + Between(rules, c, n)
  {
    if |rules| > 0 {
      RemainingSplit(rules[..|rules| - 1], done, c, n);
    }
  }

  lemma {:induction false} RemainingZero(rules: seq<Rule>, done: set<int>, n: int, r: Rule)
    requires Remaining(rules, done, n) == 0
    requires r in rules && r.child == n
    ensures r.parent in done
  {
    var last := rules[|rules| - 1];
    if r != last {
      assert r in rules[..|rules| - 1];
      RemainingZero(rules[..|rules| - 1], done, n, r);
    }
  }

  lemma {:induction false} RemainingMonotone(rules: seq<Rule>, done: set<int>, more: set<int>, n: int)
    requires done <= more
    ensures Remaining(rules, more, n) <= Remaining(rules, done, n)
  {
    if |rules| > 0 {
      RemainingMonotone(rules[..|rules| - 1], done, more, n);
    }
  }

  lemma ChildIsNode(rules: seq<Rule>, p: int, k: nat)
    requires k < |ChildrenOf(rules, p)|
    ensures ChildrenOf(rules, p)[k] in Nodes(rules)
  {
    var n := ChildrenOf(rules, p)[k];
    assert multiset(ChildrenOf(rules, p))[n] > 0;
    ChildrenCount(rules, p, n);
    BetweenWitness(rules, p, n);
  }

  lemma {:induction false} BetweenWitness(rules: seq<Rule>, c: int, n: int)
    requires Between(rules, c, n) > 0
    ensures Rule(c, n) in rules && n in Nodes(rules)
  {
    var last := rules[|rules| - 1];
    if !(last.parent == c && last.child == n) {
      BetweenWitness(rules[..|rules| - 1], c, n);
    }
  }

  // ---------------------------------------------------------------------
  // Kahn's algorithm

  /** Every rule into an emitted node comes from a node emitted earlier. */
  predicate ParentsFirst(rules: seq<Rule>, order: seq<int>) {
    forall i, r :: 0 <= i < |order| && r in rules && r.child == order[i] ==> r.parent in order[..i]
  }

  /** The bookkeeping of Kahn's algorithm: emitted and queued nodes are
      distinct known nodes, and exactly they have no unmet incoming rule. */
  ghost predicate Queued(order: seq<int>, queue: seq<int>, deg: map<int, int>) {
    && NoDup(order) && NoDup(queue)
    && (forall n :: n in queue ==> n !in order)
    && (forall n :: n in order || n in queue ==> n in deg)
    && (forall n :: n in deg ==> (deg[n] == 0 <==> n in order || n in queue))
  }

  /** The inner loop of `topological_sort`: each child of the node just
      emitted loses one incoming rule and is queued when none is left. */
  method ReleaseChildren(ghost rules: seq<Rule>, ghost before: set<int>, current: int, children: seq<int>,
                         order: seq<int>, queue0: seq<int>, deg0: map<int, int>)
    returns (queue: seq<int>, deg: map<int, int>)
    requires current !in before && children == ChildrenOf(rules, current)
    requires Nodes(rules) <= deg0.Keys
    requires Queued(order, queue0, deg0)
    requires forall n :: n in deg0 ==> deg0[n] == Remaining(rules, before, n)
    ensures Queued(order, queue, deg)
    ensures deg.Keys == deg0.Keys
    ensures forall n :: n in deg ==> deg[n] == Remaining(rules, before + {current}, n)
  {
    queue, deg := queue0, deg0;
    var k := 0;
    while k < |children|
      invariant 0 <= k <= |children|
      invariant Queued(order, queue, deg)
      invariant deg.Keys == deg0.Keys
      invariant forall n :: n in deg ==>
                  deg[n] == Remaining(rules, before, n) - multiset(children[..k])[n]
    {
      var neighbor := children[k];
      ChildIsNode(rules, current, k);
      ChildPending(rules, before, current, children, k);
      QueuedRelease(order, queue, deg, neighbor);
      deg := deg[neighbor := deg[neighbor] - 1];
      if deg[neighbor] == 0 {
        queue := queue + [neighbor];
      }
      k := k + 1;
    }
    assert children[..k] == children;
    forall n | n in deg
      ensures deg[n] == Remaining(rules, before + {current}, n)
    {
      ChildrenCount(rules, current, n);
      RemainingSplit(rules, before, current, n);
    }
  }

  /** Lowering one node's count keeps the bookkeeping when the node is
      queued exactly as its count reaches zero. */
  lemma QueuedRelease(order: seq<int>, queue: seq<int>, deg: map<int, int>, n: int)
    requires Queued(order, queue, deg) && n in deg && deg[n] > 0
    ensures var deg' := deg[n := deg[n] - 1];
            Queued(order, if deg'[n] == 0 then queue + [n] else queue, deg')
  {
    assert n !in order && n !in queue;
  }

  /** The `k`-th child still has an incoming rule pending from `current`,
      and counting it moves the tally one step. */
  lemma ChildPending(rules: seq<Rule>, before: set<int>, current: int, children: seq<int>, k: nat)
    requires current !in before && children == ChildrenOf(rules, current) && k < |children|
    ensures Remaining(rules, before, children[k]) - multiset(children[..k])[children[k]] > 0
    ensures multiset(children[..k + 1]) == multiset(children[..k]) + multiset{children[k]}
  {
    var n := children[k];
    ChildrenCount(rules, current, n);
    RemainingSplit(rules, before, current, n);
    assert children[..k + 1] == children[..k] + [n];
    assert multiset(children[..k + 1])[n] <= multiset(children)[n] by {
      assert children == children[..k + 1] + children[k + 1..];
    }
  }

  /** Moving the head of the queue to the output keeps the bookkeeping, and
      all its incoming rules come from nodes already emitted. */
  lemma Emit(rules: seq<Rule>, order: seq<int>, queue: seq<int>, deg: map<int, int>)
    requires Queued(order, queue, deg) && |queue| > 0
    requires forall n :: n in deg ==> deg[n] == Remaining(rules, Elems(order), n)
    requires ParentsFirst(rules, order)
    ensures var order' := order + [queue[0]];
            && Queued(order', queue[1..], deg)
            && ParentsFirst(rules, order')
            && Elems(order') == Elems(order) + {queue[0]}
            && queue[0] !in Elems(order)
  {
    var c := queue[0];
    var order' := order + [c];
    forall r | r in rules && r.child == c
      ensures r.parent in order
    {
      RemainingZero(rules, Elems(order), c, r);
    }
    assert order'[..|order|] == order;
    forall i, r | 0 <= i < |order'| && r in rules && r.child == order'[i]
      ensures r.parent in order'[..i]
    {
      if i < |order| {
        assert order'[..i] == order[..i];
      }
    }
    assert forall n :: n in queue[1..] ==> n in queue;
  }

  /** `topological_sort`. The initial queue comes from iterating a hash map,
      so its order is a parameter: any duplicate-free listing of the nodes of
      in-degree zero. The maps are those built from `rules`. */
  method TopologicalSort(adj: map<int, seq<int>>, indeg: map<int, nat>, zeroOrder: seq<int>, ghost rules: seq<Rule>)
    returns (order: seq<int>)
    requires (adj, indeg) == CreateAdjacencyListAndIndegreeMap(rules)
    requires NoDup(zeroOrder)
    requires forall n :: n in zeroOrder <==> n in indeg && indeg[n] == 0
    ensures NoDup(order)
    ensures forall n :: n in order ==> n in indeg
    ensures ParentsFirst(rules, order)
    ensures forall n :: n in indeg && n !in order ==> Remaining(rules, Elems(order), n) > 0
  {
    var queue := zeroOrder;
    var deg: map<int, int> := map n | n in indeg :: indeg[n];
    order := [];
    assert Elems(order) == {};
    while |queue| > 0
      invariant Queued(order, queue, deg)
      invariant deg.Keys == indeg.Keys
      invariant forall n :: n in deg ==> deg[n] == Remaining(rules, Elems(order), n)
      invariant ParentsFirst(rules, order)
      decreases indeg.Keys - Elems(order), |queue|
    {
      var current := queue[0];
      ghost var before := Elems(order);
      Emit(rules, order, queue, deg);
      order, queue := order + [current], queue[1..];
      var children := if current in adj then adj[current] else [];
      if current !in adj {
        EmptyChildren(rules, current);
      }
      queue, deg := ReleaseChildren(rules, before, current, children, order, queue, deg);
    }
  }

  /** A node that still has pending incoming rules has one from a node
      outside `done`: together with the sort's last guarantee, every page
      left unsorted has a rule from another unsorted page. */
  lemma {:induction false} PendingParent(rules: seq<Rule>, done: set<int>, n: int) returns (r: Rule)
    requires Remaining(rules, done, n) > 0
    ensures r in rules && r.child == n && r.parent !in done
  {
    var last := rules[|rules| - 1];
    if last.child == n && last.parent !in done {
      r := last;
    } else {
      r := PendingParent(rules[..|rules| - 1], done, n);
    }
  }

  /** A set of nodes each of which has a rule from another member (`pred`
      names one such member) never reaches the output: every cycle of rules
      is such a set, so no page on a cycle is ever sorted. */
  lemma ClosedSetOmitted(rules: seq<Rule>, order: seq<int>, s: set<int>, pred: map<int, int>)
    requires ParentsFirst(rules, order)
    requires forall x :: x in s ==> x in pred && pred[x] in s && Rule(pred[x], x) in rules
    ensures forall x :: x in s ==> x !in order
  {
    ClosedSetAbsentBelow(rules, order, s, pred, |order|);
    assert order[..|order|] == order;
  }

  lemma {:induction false} ClosedSetAbsentBelow(rules: seq<Rule>, order: seq<int>, s: set<int>, pred: map<int, int>, i: nat)
    requires ParentsFirst(rules, order) && i <= |order|
    requires forall x :: x in s ==> x in pred && pred[x] in s && Rule(pred[x], x) in rules
    ensures forall x :: x in s ==> x !in order[..i]
  {
    if i > 0 {
      ClosedSetAbsentBelow(rules, order, s, pred, i - 1);
      var last := order[i - 1];
      assert order[..i] == order[..i - 1] + [last];
    }
  }

  // ---------------------------------------------------------------------
  // Reports

  /** `get_valid_rules_pairs`: the rules whose parent is one of the report's
      pages, in their original order. */
  function GetValidRulesPairs(rules: seq<Rule>, pageOrder: seq<int>): (r: seq<Rule>)
    ensures forall x :: x in r <==> x in rules && x.parent in pageOrder
  {
    if |rules| == 0 then []
    else
      var prev := GetValidRulesPairs(rules[..|rules| - 1], pageOrder);
      var last := rules[|rules| - 1];
      assert rules == rules[..|rules| - 1] + [last];
      prev + (if last.parent in pageOrder then [last] else [])
  }

  /** Filtering distributes over concatenation: kept rules stay in order. */
  lemma {:induction false} ValidRulesKeepOrder(a: seq<Rule>, b: seq<Rule>, pageOrder: seq<int>)
    ensures GetValidRulesPairs(a + b, pageOrder)
            == GetValidRulesPairs(a, pageOrder) + GetValidRulesPairs(b, pageOrder)
    decreases |b|
  {
    if |b| == 0 {
      assert a + b == a;
    } else {
      assert (a + b)[..|a + b| - 1] == a + b[..|b| - 1];
      ValidRulesKeepOrder(a, b[..|b| - 1], pageOrder);
    }
  }

  /** `iter().position`: the first index holding `x`. */
  function Position(s: seq<int>, x: int): (r: Option<nat>)
    ensures r.Some? <==> x in s
    ensures r.Some? ==> r.value < |s| && s[r.value] == x
  {
    if |s| == 0 then None
    else if s[0] == x then Some(0)
    else
      match Position(s[1..], x)
      case None => None
      case Some(i) => Some(i + 1)
  }

  /** No earlier index holds `x`: the position is the first one. */
  lemma {:induction false} PositionFirst(s: seq<int>, x: int)
    ensures Position(s, x).Some? ==> x !in s[..Position(s, x).value]
  {
    if |s| > 0 && s[0] != x {
      PositionFirst(s[1..], x);
      if Position(s, x).Some? {
        var i := Position(s[1..], x).value;
        assert s[..i + 1] == [s[0]] + s[1..][..i];
      }
    }
  }

  /** Every page occurs in the sorted order, and each page's first position
      is at least that of the page before it. */
  predicate InSortedOrder(sorted: seq<int>, pages: seq<int>) {
    && (forall p :: p in pages ==> p in sorted)
    && forall i :: 0 <= i < |pages| - 1 ==>
         Position(sorted, pages[i]).value <= Position(sorted, pages[i + 1]).value
  }

  /** The first `k` pages pass the check: each occurs in the sorted order,
      and no page comes before the one preceding it. */
  predicate OrderedPrefix(sorted: seq<int>, pages: seq<int>, k: nat)
    requires k <= |pages|
  {
    && (forall i :: 0 <= i < k ==> pages[i] in sorted)
    && forall i :: 0 <= i < k - 1 ==>
         Position(sorted, pages[i]).value <= Position(sorted, pages[i + 1]).value
  }

  /** The whole report passes exactly when it is in sorted order. */
  lemma OrderedPrefixAll(sorted: seq<int>, pages: seq<int>)
    ensures OrderedPrefix(sorted, pages, |pages|) <==> InSortedOrder(sorted, pages)
  {
    if OrderedPrefix(sorted, pages, |pages|) {
      forall p | p in pages
        ensures p in sorted
      {
        var i :| 0 <= i < |pages| && pages[i] == p;
      }
    }
    if InSortedOrder(sorted, pages) {
      OrderedPrefixShrinks(sorted, pages, |pages|);
    }
  }

  /** A prefix that fails the check rules out the whole report. */
  lemma OrderedPrefixShrinks(sorted: seq<int>, pages: seq<int>, k: nat)
    requires k <= |pages| && InSortedOrder(sorted, pages)
    ensures OrderedPrefix(sorted, pages, k)
  {
    assert forall i :: 0 <= i < k ==> pages[i] in pages;
  }

  /** Page `k` passes the check against its predecessor, so the prefix
      grows by one. */
  lemma OrderedPrefixGrows(sorted: seq<int>, pages: seq<int>, k: nat)
    requires k < |pages| && OrderedPrefix(sorted, pages, k) && pages[k] in sorted
    requires k > 0 ==> Position(sorted, pages[k - 1]).value <= Position(sorted, pages[k]).value
    ensures OrderedPrefix(sorted, pages, k + 1)
  {
    assert forall i :: 0 <= i < k + 1 ==> pages[i] in sorted by {
      forall i | 0 <= i < k + 1
        ensures pages[i] in sorted
      {
        if i < k {
          assert pages[i] in sorted;
        }
      }
    }
    forall i | 0 <= i < k
      ensures Position(sorted, pages[i]).value <= Position(sorted, pages[i + 1]).value
    {
      if i < k - 1 {
        assert Position(sorted, pages[i]).value <= Position(sorted, pages[i + 1]).value;
      }
    }
  }

  /** Page `k` is missing or out of place, so the report is not in order. */
  lemma OrderedPrefixStops(sorted: seq<int>, pages: seq<int>, k: nat)
    requires k < |pages|
    requires pages[k] !in sorted
             || (k > 0 && pages[k - 1] in sorted && pages[k] in sorted
                 && Position(sorted, pages[k - 1]).value > Position(sorted, pages[k]).value)
    ensures !InSortedOrder(sorted, pages)
  {
    if InSortedOrder(sorted, pages) {
      OrderedPrefixShrinks(sorted, pages, k + 1);
    }
  }

  /** `validate_page_order`: 0 when a page is missing from the sorted order
      or comes before its predecessor there, the middle page otherwise. The
      source subtracts one from the report length, so a report has pages. */
  method ValidatePageOrder(sorted: seq<int>, pages: seq<int>) returns (r: int)
    requires |pages| > 0
    ensures r == if InSortedOrder(sorted, pages) then pages[(|pages| - 1) / 2] else 0
  {
    var prevIndex := 0;
    var k := 0;
    while k < |pages|
      invariant 0 <= k <= |pages|
      invariant OrderedPrefix(sorted, pages, k)
      invariant k > 0 ==> prevIndex == Position(sorted, pages[k - 1]).value
      invariant k == 0 ==> prevIndex == 0
    {
      var found := Position(sorted, pages[k]);
      if found.None? || found.value < prevIndex {
        OrderedPrefixStops(sorted, pages, k);
        return 0;
      }
      OrderedPrefixGrows(sorted, pages, k);
      prevIndex := found.value;
      k := k + 1;
    }
    OrderedPrefixAll(sorted, pages);
    return pages[(|pages| - 1) / 2];
  }

  /** One report as `main` handles it: keep the applicable rules, build the
      graph, sort it (zero-in-degree nodes queued in `zeroOrder`), validate.
      A non-zero answer means no rule is broken: no page is followed by a
      page that a rule says must precede it. */
  method CheckReport(rules: seq<Rule>, pages: seq<int>, zeroOrder: seq<int>) returns (r: int)
    requires |pages| > 0
    requires NoDup(zeroOrder)
    requires var deg := CreateAdjacencyListAndIndegreeMap(GetValidRulesPairs(rules, pages)).1;
             forall n :: n in zeroOrder <==> n in deg && deg[n] == 0
    ensures r == 0 || r == pages[(|pages| - 1) / 2]
    ensures r != 0 ==> forall i, j :: 0 <= i < j < |pages| ==> Rule(pages[j], pages[i]) !in rules
  {
    var valid := GetValidRulesPairs(rules, pages);
    var graph := CreateAdjacencyListAndIndegreeMap(valid);
    var sorted := TopologicalSort(graph.0, graph.1, zeroOrder, valid);
    r := ValidatePageOrder(sorted, pages);
    if r != 0 {
      forall i, j | 0 <= i < j < |pages|
        ensures Rule(pages[j], pages[i]) !in rules
      {
        SortedPagesBreakNoRule(valid, sorted, pages, i, j);
      }
    }
  }

  /** In an order where parents come first, a later page cannot be the
      parent of an earlier one. */
  lemma SortedPagesBreakNoRule(rules: seq<Rule>, sorted: seq<int>, pages: seq<int>, i: nat, j: nat)
    requires ParentsFirst(rules, sorted) && InSortedOrder(sorted, pages)
    requires i < j < |pages|
    ensures Rule(pages[j], pages[i]) !in rules
  {
    InSortedOrderMonotone(sorted, pages, i, j);
    PositionFirst(sorted, pages[j]);
    var pi := Position(sorted, pages[i]).value;
    var pj := Position(sorted, pages[j]).value;
    assert sorted[..pi] == sorted[..pj][..pi];
    assert pages[j] !in sorted[..pi];
  }

  lemma {:induction false} InSortedOrderMonotone(sorted: seq<int>, pages: seq<int>, i: nat, j: nat)
    requires InSortedOrder(sorted, pages)
    requires i <= j < |pages|
    ensures Position(sorted, pages[i]).value <= Position(sorted, pages[j]).value
    decreases j - i
  {
    if i < j {
      InSortedOrderMonotone(sorted, pages, i + 1, j);
    }
  }
}
