/** Bounded discovery over a DNS tree, kinetic-network/src/dns_tree.rs: a depth-first search with a lookup budget. */
module DnsTree {
  import opened Results

  type Address = string

  /** A TXT record of a branch: child branch hashes, one parsed leaf address, or something ignored. */
  datatype Txt = Branch(hashes: seq<string>) | Leaf(address: Address) | Ignored

  /** A TXT record of the root domain. */
  datatype RootTxt = Root(hash: string) | Flat(address: Address) | Unrelated

  /** What a lookup of `<hash>.<domain>` returns; None when the lookup fails. */
  type Zone = string -> Option<seq<Txt>>

  const MAX_LOOKUPS: nat := 20
  const MAX_ADDRESSES: nat := 50

  function NonEmpty(hashes: seq<string>): seq<string> {
    if |hashes| == 0 then []
    else NonEmpty(hashes[..|hashes| - 1]) + (if hashes[|hashes| - 1] == "" then [] else [hashes[|hashes| - 1]])
  }

  function ChildrenIn(records: seq<Txt>): seq<string> {
    if |records| == 0 then []
    else
      var last := records[|records| - 1];
      ChildrenIn(records[..|records| - 1]) + (if last.Branch? then NonEmpty(last.hashes) else [])
  }

  function LeavesIn(records: seq<Txt>): seq<Address> {
    if |records| == 0 then []
    else
      var last := records[|records| - 1];
      LeavesIn(records[..|records| - 1]) + (if last.Leaf? then [last.address] else [])
  }

  function Records(zone: Zone, h: string): seq<Txt> {
    if zone(h).Some? then zone(h).value else []
  }

  function Children(zone: Zone, h: string): seq<string> { ChildrenIn(Records(zone, h)) }

  function Leaves(zone: Zone, h: string): seq<Address> { LeavesIn(Records(zone, h)) }

  /** Which hashes a response sends onto the stack: the nonempty ones in its branch records. */
  ghost predicate Lists(records: seq<Txt>, h: string) {
    exists i :: 0 <= i < |records| && records[i].Branch? && h in records[i].hashes && h != ""
  }

  lemma {:induction false} NonEmptyMembers(hashes: seq<string>, h: string)
    ensures h in NonEmpty(hashes) <==> h in hashes && h != ""
    decreases |hashes|
  {
    if |hashes| > 0 {
      NonEmptyMembers(hashes[..|hashes| - 1], h);
      assert hashes == hashes[..|hashes| - 1] + [hashes[|hashes| - 1]];
    }
  }

  lemma {:induction false} ChildrenAreListed(records: seq<Txt>, h: string)
    ensures h in ChildrenIn(records) <==> Lists(records, h)
    decreases |records|
  {
    hide NonEmpty;
    if |records| > 0 {
      var n := |records| - 1;
      var front := records[..n];
      ChildrenAreListed(front, h);
      if records[n].Branch? {
        NonEmptyMembers(records[n].hashes, h);
      }
      if i :| 0 <= i < |records| && records[i].Branch? && h in records[i].hashes && h != "" {
        assert i < n ==> front[i] == records[i];
      }
      if i :| 0 <= i < |front| && front[i].Branch? && h in front[i].hashes && h != "" {
        assert records[i] == front[i];
      }
    }
  }

  /** A failed lookup yields nothing; otherwise the children are the listed hashes. */
  lemma ChildrenExactlyWhen(zone: Zone, h: string, child: string)
    ensures child in Children(zone, h) <==> zone(h).Some? && Lists(zone(h).value, child)
    ensures Leaves(zone, h) == if zone(h).Some? then LeavesIn(zone(h).value) else []
  {
    ChildrenAreListed(Records(zone, h), child);
    hide ChildrenIn;
  }

  /** The leaves of a response are the addresses of its leaf records, in order: the records before record i yield as
      many addresses as there are leaves among them, and leaf i comes next. */
  lemma {:induction false} LeavesInOrder(records: seq<Txt>, i: nat)
    requires i < |records|
    ensures LeavesIn(records[..i]) <= LeavesIn(records)
    ensures records[i].Leaf? ==> LeavesIn(records[..i]) + [records[i].address] <= LeavesIn(records)
    ensures (forall r :: r in records ==> !r.Leaf?) ==> LeavesIn(records) == []
    decreases |records|
  {
    var n := |records| - 1;
    var front := records[..n];
    if i < n {
      LeavesInOrder(front, i);
      assert front[..i] == records[..i] && front[i] == records[i];
      assert forall r :: r in front ==> r in records;
    } else if n > 0 {
      LeavesInOrder(front, n - 1);
      assert forall r :: r in front ==> r in records;
    }
    assert records[n] in records;
  }

  lemma {:induction false} LeafCount(records: seq<Txt>)
    ensures |LeavesIn(records)| == |LeafIndices(records)|
    decreases |records|
  {
    if |records| > 0 {
      var n := |records| - 1;
      var front := records[..n];
      LeafCount(front);
      assert LeafIndices(front) == LeafIndices(records) - {n};
    }
  }

  ghost function LeafIndices(records: seq<Txt>): set<int> { set i | 0 <= i < |records| && records[i].Leaf? }

  /** The leaves of the given branches, in order. */
  function LeavesOf(zone: Zone, branches: seq<string>): seq<Address> {
    if |branches| == 0 then []
    else LeavesOf(zone, branches[..|branches| - 1]) + Leaves(zone, branches[|branches| - 1])
  }

  ghost predicate IsPath(zone: Zone, root: string, p: seq<string>, h: string) {
    && |p| > 0 && p[0] == root && p[|p| - 1] == h
    && forall i :: 0 < i < |p| ==> p[i] in Children(zone, p[i - 1])
  }

  ghost predicate Reachable(zone: Zone, root: string, h: string) {
    exists p :: IsPath(zone, root, p, h)
  }

  lemma RootReachable(zone: Zone, root: string)
    ensures Reachable(zone, root, root)
  {
    assert IsPath(zone, root, [root], root);
  }

  lemma ChildReachable(zone: Zone, root: string, h: string, child: string)
    requires Reachable(zone, root, h) && child in Children(zone, h)
    ensures Reachable(zone, root, child)
  {
    hide Children;
    var p :| IsPath(zone, root, p, h);
    assert IsPath(zone, root, p + [child], child);
  }

  /** A set with the root in it and closed under children contains every reachable branch. */
  lemma {:induction false} ClosedContainsPath(zone: Zone, root: string, seen: set<string>, p: seq<string>, h: string)
    requires root in seen && IsPath(zone, root, p, h)
    requires forall v, child :: v in seen && child in Children(zone, v) ==> child in seen
    ensures h in seen
    decreases |p|
  {
    hide Children;
    if |p| > 1 {
      var front := p[..|p| - 1];
      assert IsPath(zone, root, front, front[|front| - 1]);
      ClosedContainsPath(zone, root, seen, front, front[|front| - 1]);
    }
  }

  ghost predicate Distinct(s: seq<string>) { forall i, j :: 0 <= i < j < |s| ==> s[i] != s[j] }

  lemma {:induction false} DistinctSize(s: seq<string>)
    requires Distinct(s)
    ensures |set h | h in s| == |s|
    decreases |s|
  {
    if |s| == 0 {
      assert (set h | h in s) == {};
    } else {
      var front, last := s[..|s| - 1], s[|s| - 1];
      DistinctSize(front);
      assert (set h | h in s) == (set h | h in front) + {last};
    }
  }

  lemma {:induction false} SameSizeSubset(a: set<string>, b: set<string>)
    requires a <= b && |a| >= |b|
    ensures a == b
  {
    assert b == a + (b - a);
  }

  /** Splits a branch record's payload onto the stack. */
  method PushBranches(stack: seq<string>, hashes: seq<string>) returns (out: seq<string>)
    ensures out == stack + NonEmpty(hashes)
  {
    out := stack;
    for i := 0 to |hashes|
      invariant out == stack + NonEmpty(hashes[..i])
    {
      assert hashes[..i + 1][..i] == hashes[..i];
      if hashes[i] != "" {
        out := out + [hashes[i]];
      }
    }
    assert hashes[..|hashes|] == hashes;
  }

  /** Files each record of one response: branches onto the stack, leaves into the result. */
  method ReadResponse(records: seq<Txt>, stack: seq<string>, addrs: seq<Address>)
    returns (stack': seq<string>, addrs': seq<Address>)
    ensures stack' == stack + ChildrenIn(records) && addrs' == addrs + LeavesIn(records)
  {
    stack', addrs' := stack, addrs;
    for i := 0 to |records|
      invariant stack' == stack + ChildrenIn(records[..i]) && addrs' == addrs + LeavesIn(records[..i])
    {
      assert records[..i + 1][..i] == records[..i];
      match records[i] {
        case Branch(hashes) => stack' := PushBranches(stack', hashes);
        case Leaf(address) => addrs' := addrs' + [address];
        case Ignored =>
      }
    }
    assert records[..|records|] == records;
  }

  function FlatIn(records: seq<RootTxt>): seq<Address> {
    if |records| == 0 then []
    else
      var last := records[|records| - 1];
      FlatIn(records[..|records| - 1]) + (if last.Flat? then [last.address] else [])
  }

  /** The last root record wins. */
  function RootIn(records: seq<RootTxt>): Option<string> {
    if |records| == 0 then None
    else
      var last := records[|records| - 1];
      if last.Root? then Some(last.hash) else RootIn(records[..|records| - 1])
  }

  /** The root is that of the last root record. */
  ghost predicate LastRoot(records: seq<RootTxt>, i: int, h: string) {
    0 <= i < |records| && records[i] == Root(h) && forall j :: i < j < |records| ==> !records[j].Root?
  }

  lemma {:induction false} RootIsLast(records: seq<RootTxt>, h: string)
    ensures RootIn(records) == Some(h) <==> exists i :: LastRoot(records, i, h)
    ensures RootIn(records).None? <==> forall i :: 0 <= i < |records| ==> !records[i].Root?
    decreases |records|
  {
    if |records| > 0 {
      var n := |records| - 1;
      var front := records[..n];
      RootIsLast(front, h);
      if records[n].Root? {
        assert LastRoot(records, n, records[n].hash);
        if i :| LastRoot(records, i, h) {
          assert i == n;
        }
      } else {
        forall i
          ensures LastRoot(records, i, h) <==> LastRoot(front, i, h)
        {
        }
      }
    }
  }

  /** The flat addresses of the root records, in order and nothing else. */
  lemma {:induction false} FlatInOrder(records: seq<RootTxt>, i: nat)
    requires i < |records|
    ensures FlatIn(records[..i]) <= FlatIn(records)
    ensures records[i].Flat? ==> FlatIn(records[..i]) + [records[i].address] <= FlatIn(records)
    ensures |FlatIn(records)| == |FlatIndices(records)|
    decreases |records|
  {
    var n := |records| - 1;
    var front := records[..n];
    assert FlatIndices(front) == FlatIndices(records) - {n};
    if i < n {
      FlatInOrder(front, i);
      assert front[..i] == records[..i] && front[i] == records[i];
    } else if n > 0 {
      FlatInOrder(front, n - 1);
    }
  }

  ghost function FlatIndices(records: seq<RootTxt>): set<int> { set i | 0 <= i < |records| && records[i].Flat? }

  /** The search has stopped with branches possibly left unexplored. */
  predicate BudgetSpent(looked: seq<string>, addrs: seq<Address>) {
    |looked| >= MAX_LOOKUPS || |addrs| >= MAX_ADDRESSES
  }

  /** Everything found so far is reachable, and everything adjacent to it is found or still on the stack. */
  ghost predicate Frontier(zone: Zone, root: string, looked: seq<string>, stack: seq<string>) {
    && (forall h :: h in looked || h in stack ==> Reachable(zone, root, h))
    && (root in looked || root in stack)
    && (forall v, child :: v in looked && child in Children(zone, v) ==> child in looked || child in stack)
  }

  lemma ExpandFrontier(zone: Zone, root: string, looked: seq<string>, stack: seq<string>, h: string)
    requires |stack| > 0 && h == stack[|stack| - 1] && Frontier(zone, root, looked, stack)
    ensures Frontier(zone, root, looked + [h], stack[..|stack| - 1] + Children(zone, h))
  {
    hide Children;
    hide Reachable;
    var rest := stack[..|stack| - 1];
    assert stack == rest + [h];
    forall child | child in Children(zone, h)
      ensures Reachable(zone, root, child)
    {
      ChildReachable(zone, root, h, child);
    }
  }

  lemma SkipKeepsFrontier(zone: Zone, root: string, looked: seq<string>, stack: seq<string>)
    requires |stack| > 0 && stack[|stack| - 1] in looked && Frontier(zone, root, looked, stack)
    ensures Frontier(zone, root, looked, stack[..|stack| - 1])
  {
    hide Children;
    hide Reachable;
    assert stack == stack[..|stack| - 1] + [stack[|stack| - 1]];
  }

  /** With nothing left on the stack, the branches looked up are exactly the reachable ones. */
  lemma ExhaustedIsExact(zone: Zone, root: string, looked: seq<string>)
    requires Frontier(zone, root, looked, [])
    ensures forall h :: h in looked <==> Reachable(zone, root, h)
  {
    hide Children;
    var seen := set h | h in looked;
    forall h | Reachable(zone, root, h)
      ensures h in looked
    {
      var p :| IsPath(zone, root, p, h);
      ClosedContainsPath(zone, root, seen, p, h);
    }
  }

  /** Every lookup was made while fewer than 50 addresses had been found. */
  ghost predicate WithinAddressBudget(zone: Zone, flat: seq<Address>, looked: seq<string>) {
    forall i :: 0 <= i < |looked| ==> |flat + LeavesOf(zone, looked[..i])| < 50
  }

  lemma BudgetNext(zone: Zone, flat: seq<Address>, looked: seq<string>, branch: string)
    requires WithinAddressBudget(zone, flat, looked) && |flat + LeavesOf(zone, looked)| < MAX_ADDRESSES
    ensures WithinAddressBudget(zone, flat, looked + [branch])
  {
    hide LeavesOf;
    var longer := looked + [branch];
    forall i | 0 <= i < |longer|
      ensures |flat + LeavesOf(zone, longer[..i])| < MAX_ADDRESSES
    {
      assert longer[..i] == looked[..i];
      if i == |looked| {
        assert looked[..i] == looked;
      }
    }
  }

  /** What a finished search guarantees on every zone, cyclic ones included: at most 20 lookups, none repeated, all
      of them reachable, their leaves in lookup order, and every reachable branch unless a budget ran out. */
  ghost predicate Explored(zone: Zone, root: string, flat: seq<Address>, looked: seq<string>, addrs: seq<Address>) {
    && |looked| <= 20 && Distinct(looked)
    && addrs == flat + LeavesOf(zone, looked)
    && WithinAddressBudget(zone, flat, looked)
    && (forall h :: h in looked ==> Reachable(zone, root, h))
    && (BudgetSpent(looked, addrs) || forall h :: h in looked <==> Reachable(zone, root, h))
  }

  lemma LookupNext(zone: Zone, looked: seq<string>, branch: string)
    requires Distinct(looked) && branch !in looked
    ensures Distinct(looked + [branch])
    ensures LeavesOf(zone, looked + [branch]) == LeavesOf(zone, looked) + Leaves(zone, branch)
    ensures (set h | h in looked + [branch]) == (set h | h in looked) + {branch}
  {
    hide Leaves;
    assert (looked + [branch])[..|looked|] == looked;
  }

  /** The traversal loop; `looked` lists the branches in lookup order. */
  method Traverse(zone: Zone, root: string, flat: seq<Address>)
    returns (addrs: seq<Address>, looked: seq<string>)
    ensures Explored(zone, root, flat, looked, addrs)
  {
    hide Children;
    hide LeavesOf;
    hide Leaves;
    hide Reachable;
    addrs, looked := flat, [];
    var stack := [root];
    var visited: set<string> := {};
    var lookups := 0;
    RootReachable(zone, root);
    NoLeavesYet(zone);
    while |stack| > 0
      invariant lookups == |looked| <= MAX_LOOKUPS && Distinct(looked)
      invariant visited == set h | h in looked
      invariant addrs == flat + LeavesOf(zone, looked)
      invariant WithinAddressBudget(zone, flat, looked)
      invariant Frontier(zone, root, looked, stack)
      decreases MAX_LOOKUPS - lookups, |stack|
    {
      var branch := stack[|stack| - 1];
      if lookups >= MAX_LOOKUPS || |addrs| >= MAX_ADDRESSES {
        return;
      }
      if branch in visited {
        SkipKeepsFrontier(zone, root, looked, stack);
        stack := stack[..|stack| - 1];
        continue;
      }
      ExpandFrontier(zone, root, looked, stack, branch);
      stack := stack[..|stack| - 1];
      visited := visited + {branch};
      lookups := lookups + 1;
      LookupNext(zone, looked, branch);
      BudgetNext(zone, flat, looked, branch);
      looked := looked + [branch];
      stack, addrs := Visit(zone, branch, stack, addrs);
    }
    assert stack == [];
    ExhaustedIsExact(zone, root, looked);
  }

  lemma NoLeavesYet(zone: Zone)
    ensures LeavesOf(zone, []) == []
  {
  }

  /** One TXT lookup; a failed lookup contributes nothing. */
  method Visit(zone: Zone, branch: string, stack: seq<string>, addrs: seq<Address>)
    returns (stack': seq<string>, addrs': seq<Address>)
    ensures stack' == stack + Children(zone, branch) && addrs' == addrs + Leaves(zone, branch)
  {
    stack', addrs' := stack, addrs;
    var response := zone(branch);
    if response.Some? {
      stack', addrs' := ReadResponse(response.value, stack, addrs);
    }
  }

  /** `resolve_dns_tree` after the root lookup. */
  method Resolve(zone: Zone, rootRecords: seq<RootTxt>) returns (addrs: seq<Address>, looked: seq<string>)
    ensures match RootIn(rootRecords)
            case None => addrs == FlatIn(rootRecords) && looked == []
            case Some(root) => Explored(zone, root, FlatIn(rootRecords), looked, addrs)
  {
    hide Explored;
    addrs, looked := [], [];
    var rootHash: Option<string> := None;
    for i := 0 to |rootRecords|
      invariant addrs == FlatIn(rootRecords[..i]) && rootHash == RootIn(rootRecords[..i])
    {
      assert rootRecords[..i + 1][..i] == rootRecords[..i];
      match rootRecords[i] {
        case Root(h) => rootHash := Some(h);
        case Flat(a) => addrs := addrs + [a];
        case Unrelated =>
      }
    }
    assert rootRecords[..|rootRecords|] == rootRecords;
    if rootHash.Some? {
      addrs, looked := Traverse(zone, rootHash.value, addrs);
    }
  }

  /** If at most 20 branches are reachable and the address budget did not run out, nothing is missed: the lookups
      are exactly the reachable branches, each once. */
  lemma SmallTreesAreExact(
    zone: Zone, root: string, flat: seq<Address>, looked: seq<string>, addrs: seq<Address>, reachable: set<string>)
    requires Explored(zone, root, flat, looked, addrs)
    requires forall h :: h in reachable <==> Reachable(zone, root, h)
    requires |reachable| <= 20 && |addrs| < 50
    ensures (set h | h in looked) == reachable && |looked| == |reachable|
  {
    hide Reachable;
    hide LeavesOf;
    var seen := set h | h in looked;
    DistinctSize(looked);
    assert seen <= reachable;
    if |looked| >= MAX_LOOKUPS {
      SameSizeSubset(seen, reachable);
    }
  }

  lemma {:induction false} LeavesOfConcat(zone: Zone, a: seq<string>, b: seq<string>)
    ensures LeavesOf(zone, a + b) == LeavesOf(zone, a) + LeavesOf(zone, b)
    decreases |b|
  {
    hide LeavesOf;
    hide Leaves;
    NoLeavesYet(zone);
    if |b| == 0 {
      assert a + b == a;
      assert LeavesOf(zone, a) + [] == LeavesOf(zone, a);
    } else {
      var front, last := b[..|b| - 1], b[|b| - 1];
      LeavesOfConcat(zone, a, front);
      assert a + b == (a + front) + [last] && b == front + [last];
      LeavesOfNext(zone, a + front, last);
      LeavesOfNext(zone, front, last);
    }
  }

  lemma LeavesOfNext(zone: Zone, front: seq<string>, last: string)
    ensures LeavesOf(zone, front + [last]) == LeavesOf(zone, front) + Leaves(zone, last)
  {
    assert (front + [last])[..|front|] == front;
  }

  /** Taking one branch out of a list takes its leaves out. */
  lemma LeavesWithout(zone: Zone, s: seq<string>, k: nat)
    requires k < |s|
    ensures multiset(LeavesOf(zone, s)) == multiset(LeavesOf(zone, s[..k] + s[k + 1..])) + multiset(Leaves(zone, s[k]))
  {
    hide LeavesOf;
    hide Leaves;
    var a, b := s[..k], s[k + 1..];
    assert s == a + [s[k]] + b;
    LeavesOfConcat(zone, a + [s[k]], b);
    LeavesOfNext(zone, a, s[k]);
    LeavesOfConcat(zone, a, b);
  }

  /** Among lists without repeats, fewer branches have fewer leaves. */
  lemma {:induction false} FewerBranchesFewerLeaves(zone: Zone, a: seq<string>, b: seq<string>)
    requires Distinct(a) && forall h :: h in a ==> h in b
    ensures multiset(LeavesOf(zone, a)) <= multiset(LeavesOf(zone, b))
    decreases |a|
  {
    hide LeavesOf;
    hide Leaves;
    NoLeavesYet(zone);
    if |a| > 0 {
      var front, last := a[..|a| - 1], a[|a| - 1];
      assert last in a && a == front + [last];
      var k :| 0 <= k < |b| && b[k] == last;
      var rest := b[..k] + b[k + 1..];
      forall h | h in front
        ensures h in rest
      {
        StillListed(b, k, h);
      }
      FewerBranchesFewerLeaves(zone, front, rest);
      LeavesWithout(zone, b, k);
      LeavesOfNext(zone, front, last);
    }
  }

  lemma StillListed(s: seq<string>, k: nat, h: string)
    requires k < |s| && h in s && h != s[k]
    ensures h in s[..k] + s[k + 1..]
  {
    var j :| 0 <= j < |s| && s[j] == h;
    var rest := s[..k] + s[k + 1..];
    assert rest[if j < k then j else j - 1] == h;
  }

  /** Small trees, in terms of the input alone: when at most 20 branches are reachable and they and the flat records
      hold fewer than 50 addresses, the result is exactly those addresses, and every reachable branch is looked up
      once. */
  lemma SmallInputsAreExact(
    zone: Zone, root: string, flat: seq<Address>, looked: seq<string>, addrs: seq<Address>, all: seq<string>)
    requires Explored(zone, root, flat, looked, addrs)
    requires Distinct(all) && forall h :: h in all <==> Reachable(zone, root, h)
    requires |all| <= 20 && |flat| + |LeavesOf(zone, all)| < 50
    ensures Distinct(looked) && forall h :: h in looked <==> h in all
    ensures multiset(addrs) == multiset(flat) + multiset(LeavesOf(zone, all))
  {
    hide Reachable;
    hide LeavesOf;
    FewerBranchesFewerLeaves(zone, looked, all);
    SubMultisetSize(LeavesOf(zone, looked), LeavesOf(zone, all));
    DistinctSize(all);
    var reachable := set h | h in all;
    SmallTreesAreExact(zone, root, flat, looked, addrs, reachable);
    forall h
      ensures h in looked <==> h in all
    {
      assert h in looked <==> h in reachable;
    }
    FewerBranchesFewerLeaves(zone, all, looked);
  }

  lemma SubMultisetSize(a: seq<Address>, b: seq<Address>)
    requires multiset(a) <= multiset(b)
    ensures |a| <= |b|
  {
    var rest := multiset(b) - multiset(a);
    assert multiset(b) == multiset(a) + rest;
    assert |multiset(a)| == |a| && |multiset(b)| == |b|;
  }
}
