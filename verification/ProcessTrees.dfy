/** `LocalProcessInfo::build_tree` of `procinfo/src/lib.rs`: a tree out of an arbitrary parent graph. */
module ProcessTrees {

  type Pid = p: int | 0 <= p < 0x1_0000_0000

  /** One record of the snapshot. */
  datatype Process<T> = Process(pid: Pid, ppid: Pid, details: T)

  datatype ProcessTree<T> = Node(entry: Process<T>, children: seq<ProcessTree<T>>)

  const MAX_TREE_DEPTH := 128

  // ---------------------------------------------------------------- what a tree holds

  /** How often `p` occurs in the tree. */
  function Count<T>(t: ProcessTree<T>, p: Pid): nat {
    (if t.entry.pid == p then 1 else 0) + CountAll(t.children, p)
  }

  function CountAll<T>(ts: seq<ProcessTree<T>>, p: Pid): nat {
    if ts == [] then 0 else CountAll(ts[..|ts| - 1], p) + Count(ts[|ts| - 1], p)
  }

  /** `p` occurs `d` edges below the root of the tree. */
  ghost predicate Occurs<T>(t: ProcessTree<T>, p: Pid, d: nat)
    decreases d
  {
    if d == 0 then t.entry.pid == p
    else exists i {:trigger t.children[i]} :: 0 <= i < |t.children| && Occurs(t.children[i], p, d - 1)
  }

  /** Every edge is one of the snapshot, and at most `height` edges follow each other. */
  ghost predicate RealEdges<T>(t: ProcessTree<T>, procs: seq<Process<T>>, height: int)
    decreases t
  {
    && (t.children != [] ==> 0 < height)
    && forall i {:trigger t.children[i]} :: 0 <= i < |t.children| ==>
         && t.children[i].entry in procs && t.children[i].entry.ppid == t.entry.pid
         && RealEdges(t.children[i], procs, height - 1)
  }

  /** Every process whose parent stands above the depth limit is in `pids`. */
  ghost predicate Saturated<T>(t: ProcessTree<T>, procs: seq<Process<T>>, height: int, pids: set<Pid>)
    decreases t
  {
    && (0 < height ==> KidsIn(t.entry.pid, procs, pids))
    && forall i {:trigger t.children[i]} :: 0 <= i < |t.children| ==>
         Saturated(t.children[i], procs, height - 1, pids)
  }

  ghost predicate KidsIn<T>(pid: Pid, procs: seq<Process<T>>, pids: set<Pid>) {
    forall k {:trigger procs[k]} :: 0 <= k < |procs| && procs[k].ppid == pid ==> procs[k].pid in pids
  }

  /** The trees hold exactly the pids that `after` has more than `before`, each once. */
  ghost predicate Holds<T>(ts: seq<ProcessTree<T>>, before: set<Pid>, after: set<Pid>) {
    && before <= after
    && forall p: Pid {:trigger CountAll(ts, p)} :: CountAll(ts, p) == if p in after && p !in before then 1 else 0
  }

  lemma {:induction false} SaturatedGrows<T>(t: ProcessTree<T>, procs: seq<Process<T>>, height: int,
                                             pids: set<Pid>, more: set<Pid>)
    requires Saturated(t, procs, height, pids) && pids <= more
    ensures Saturated(t, procs, height, more)
    decreases t
  {
    forall i {:trigger t.children[i]} | 0 <= i < |t.children|
      ensures Saturated(t.children[i], procs, height - 1, more)
    {
      SaturatedGrows(t.children[i], procs, height - 1, pids, more);
    }
  }

  lemma HoldsOneMore<T>(ts: seq<ProcessTree<T>>, t: ProcessTree<T>, before: set<Pid>, v: set<Pid>, after: set<Pid>)
    requires Holds(ts, before, v) && t.entry.pid !in v && Holds(t.children, v + {t.entry.pid}, after)
    ensures Holds(ts + [t], before, after)
  {
    assert (ts + [t])[..|ts|] == ts;
    forall p: Pid {:trigger CountAll(ts + [t], p)}
      ensures CountAll(ts + [t], p) == if p in after && p !in before then 1 else 0
    {
      assert CountAll(ts, p) == if p in v && p !in before then 1 else 0;
      assert CountAll(t.children, p) == if p in after && p !in v + {t.entry.pid} then 1 else 0;
      assert CountAll(ts + [t], p) == CountAll(ts, p) + Count(t, p);
    }
  }

  // ---------------------------------------------------------------- the walk

  class TreeWalk<T> {
    const procs: seq<Process<T>>
    var visited: set<Pid>

    constructor (procs: seq<Process<T>>, root: Pid)
      ensures this.procs == procs && visited == {root}
    {
      this.procs, visited := procs, {root};
    }

    method Build(entry: Process<T>, depth: nat) returns (node: ProcessTree<T>)
      requires entry.pid in visited && depth <= MAX_TREE_DEPTH
      modifies this
      decreases MAX_TREE_DEPTH - depth
      ensures node.entry == entry && Holds(node.children, old(visited), visited)
      ensures RealEdges(node, procs, MAX_TREE_DEPTH - depth)
      ensures Saturated(node, procs, MAX_TREE_DEPTH - depth, visited)
    {
      node := Node(entry, []);
      if depth >= MAX_TREE_DEPTH {
        return;
      }
      var height := MAX_TREE_DEPTH - depth;
      for k := 0 to |procs|
        invariant node.entry == entry && Holds(node.children, old(visited), visited)
        invariant RealEdges(node, procs, height)
        invariant forall i {:trigger node.children[i]} :: 0 <= i < |node.children| ==>
          Saturated(node.children[i], procs, height - 1, visited)
        invariant forall j {:trigger procs[j]} :: 0 <= j < k && procs[j].ppid == entry.pid ==> procs[j].pid in visited
      {
        var kid := procs[k];
        if kid.ppid == entry.pid && kid.pid !in visited {
          ghost var v := visited;
          visited := visited + {kid.pid};
          var child := Build(kid, depth + 1);
          HoldsOneMore(node.children, child, old(visited), v, visited);
          forall i {:trigger node.children[i]} | 0 <= i < |node.children|
            ensures Saturated(node.children[i], procs, height - 1, visited)
          {
            SaturatedGrows(node.children[i], procs, height - 1, v, visited);
          }
          node := node.(children := node.children + [child]);
        }
      }
    }
  }

  /** What `build_tree` promises for every snapshot, whatever its parent graph looks like. */
  ghost predicate IsTreeOf<T>(t: ProcessTree<T>, root: Process<T>, procs: seq<Process<T>>, pids: set<Pid>) {
    && t.entry == root && root.pid in pids
    && (forall p: Pid {:trigger Count(t, p)} :: Count(t, p) == if p in pids then 1 else 0)
    && RealEdges(t, procs, MAX_TREE_DEPTH) && Saturated(t, procs, MAX_TREE_DEPTH, pids)
  }

  method BuildTree<T>(root: Process<T>, procs: seq<Process<T>>) returns (t: ProcessTree<T>, ghost pids: set<Pid>)
    ensures IsTreeOf(t, root, procs, pids)
    ensures IsExact(t, root.pid, procs) <==> UniqueDepths(procs, root.pid)
    ensures DistinctPids(procs) ==> IsExact(t, root.pid, procs)
  {
    var walk := new TreeWalk(procs, root.pid);
    t := walk.Build(root, 0);
    pids := walk.visited;
    ExactIffUniqueDepths(t, root, procs, pids);
    if DistinctPids(procs) {
      DistinctIsUnique(procs, root.pid);
    }
  }

  // ---------------------------------------------------------------- parent chains

  /** The parent chain of `p` comes to `root` for the first time after `d` steps. */
  ghost predicate ChainTo<T>(procs: seq<Process<T>>, root: Pid, p: Pid, d: nat)
    decreases d
  {
    if d == 0 then p == root
    else
      && p != root
      && exists k {:trigger procs[k]} ::
           0 <= k < |procs| && procs[k].pid == p && ChainTo(procs, root, procs[k].ppid, d - 1)
  }

  ghost predicate DistinctPids<T>(procs: seq<Process<T>>) {
    forall j, k {:trigger procs[j], procs[k]} :: 0 <= j < k < |procs| ==> procs[j].pid != procs[k].pid
  }

  /** No process has parent chains of different lengths within the depth limit. */
  ghost predicate UniqueDepths<T>(procs: seq<Process<T>>, root: Pid) {
    forall p: Pid, d: nat, d': nat {:trigger ChainTo(procs, root, p, d), ChainTo(procs, root, p, d')} ::
      d <= MAX_TREE_DEPTH && d' <= MAX_TREE_DEPTH && ChainTo(procs, root, p, d) && ChainTo(procs, root, p, d') ==>
        d == d'
  }

  /** The tree shows a process at a depth if and only if it has a parent chain of that length to the
      root, of 128 steps at most. */
  ghost predicate IsExact<T>(t: ProcessTree<T>, root: Pid, procs: seq<Process<T>>) {
    forall p: Pid, d: nat {:trigger Occurs(t, p, d)} {:trigger ChainTo(procs, root, p, d)} ::
      Occurs(t, p, d) <==> ChainTo(procs, root, p, d) && d <= MAX_TREE_DEPTH
  }

  /** Distinct pids are enough. */
  lemma DistinctIsUnique<T>(procs: seq<Process<T>>, root: Pid)
    requires DistinctPids(procs)
    ensures UniqueDepths(procs, root)
  {
    forall p: Pid, d: nat, d': nat {:trigger ChainTo(procs, root, p, d), ChainTo(procs, root, p, d')}
      | d <= MAX_TREE_DEPTH && d' <= MAX_TREE_DEPTH && ChainTo(procs, root, p, d) && ChainTo(procs, root, p, d')
      ensures d == d'
    {
      ChainLengthUnique(procs, root, p, d, d');
    }
  }

  lemma {:induction false} ChainLengthUnique<T>(procs: seq<Process<T>>, root: Pid, p: Pid, d: nat, d': nat)
    requires DistinctPids(procs) && ChainTo(procs, root, p, d) && ChainTo(procs, root, p, d')
    ensures d == d'
    decreases d
  {
    if 0 < d && 0 < d' {
      var j :| 0 <= j < |procs| && procs[j].pid == p && ChainTo(procs, root, procs[j].ppid, d - 1);
      var k :| 0 <= k < |procs| && procs[k].pid == p && ChainTo(procs, root, procs[k].ppid, d' - 1);
      assert j == k;
      ChainLengthUnique(procs, root, procs[j].ppid, d - 1, d' - 1);
    }
  }

  lemma {:induction false} CountOfChild<T>(ts: seq<ProcessTree<T>>, i: nat, p: Pid)
    requires i < |ts|
    ensures Count(ts[i], p) <= CountAll(ts, p)
    decreases |ts|
  {
    if i < |ts| - 1 {
      CountOfChild(ts[..|ts| - 1], i, p);
    }
  }

  lemma {:induction false} OccursCounts<T>(t: ProcessTree<T>, p: Pid, d: nat)
    requires Occurs(t, p, d)
    ensures 0 < Count(t, p)
    ensures 0 < d ==> 0 < CountAll(t.children, p)
    decreases d
  {
    if 0 < d {
      var i :| 0 <= i < |t.children| && Occurs(t.children[i], p, d - 1);
      OccursCounts(t.children[i], p, d - 1);
      CountOfChild(t.children, i, p);
    }
  }

  lemma {:induction false} CountedChild<T>(ts: seq<ProcessTree<T>>, p: Pid) returns (i: nat)
    requires 0 < CountAll(ts, p)
    ensures i < |ts| && 0 < Count(ts[i], p)
    decreases |ts|
  {
    i := |ts| - 1;
    if Count(ts[i], p) == 0 {
      i := CountedChild(ts[..i], p);
    }
  }

  lemma {:induction false} CountedOccurs<T>(t: ProcessTree<T>, p: Pid) returns (d: nat)
    requires 0 < Count(t, p)
    ensures Occurs(t, p, d)
    decreases t
  {
    d := 0;
    if t.entry.pid != p {
      var i := CountedChild(t.children, p);
      d := CountedOccurs(t.children[i], p);
      d := d + 1;
    }
  }

  /** What occurs below the root has its parent one edge higher, and its children are saturated. */
  lemma {:induction false} ParentOccurs<T>(t: ProcessTree<T>, procs: seq<Process<T>>, height: int, p: Pid, d: nat)
    returns (k: nat)
    requires RealEdges(t, procs, height) && Occurs(t, p, d) && 0 < d
    ensures k < |procs| && procs[k].pid == p && Occurs(t, procs[k].ppid, d - 1) && d <= height
    decreases d
  {
    var i :| 0 <= i < |t.children| && Occurs(t.children[i], p, d - 1);
    if d == 1 {
      k :| 0 <= k < |procs| && procs[k] == t.children[i].entry;
    } else {
      k := ParentOccurs(t.children[i], procs, height - 1, p, d - 1);
    }
  }

  lemma {:induction false} KidsOccur<T>(t: ProcessTree<T>, procs: seq<Process<T>>, height: int, pids: set<Pid>,
                                        q: Pid, d: nat)
    requires Saturated(t, procs, height, pids) && Occurs(t, q, d) && d < height
    ensures KidsIn(q, procs, pids)
    decreases d
  {
    if 0 < d {
      var i :| 0 <= i < |t.children| && Occurs(t.children[i], q, d - 1);
      KidsOccur(t.children[i], procs, height - 1, pids, q, d - 1);
    }
  }

  /** Every process of the tree stands at the end of a real parent chain of that length. */
  lemma {:induction false} OccursHasChain<T>(t: ProcessTree<T>, root: Process<T>, procs: seq<Process<T>>,
                                             pids: set<Pid>, p: Pid, d: nat)
    requires IsTreeOf(t, root, procs, pids) && Occurs(t, p, d)
    ensures ChainTo(procs, root.pid, p, d) && d <= MAX_TREE_DEPTH
    decreases d
  {
    if 0 < d {
      var k := ParentOccurs(t, procs, MAX_TREE_DEPTH, p, d);
      OccursHasChain(t, root, procs, pids, procs[k].ppid, d - 1);
      OccursCounts(t, p, d);
      assert Count(t, p) <= 1;
    }
  }

  /** With unique depths, every process with a chain short enough is in the tree, at that depth. */
  lemma {:induction false} ChainOccurs<T>(t: ProcessTree<T>, root: Process<T>, procs: seq<Process<T>>,
                                          pids: set<Pid>, p: Pid, d: nat)
    requires UniqueDepths(procs, root.pid) && IsTreeOf(t, root, procs, pids)
    requires ChainTo(procs, root.pid, p, d) && d <= MAX_TREE_DEPTH
    ensures Occurs(t, p, d)
    decreases d
  {
    if 0 < d {
      var k :| 0 <= k < |procs| && procs[k].pid == p && ChainTo(procs, root.pid, procs[k].ppid, d - 1);
      ChainOccurs(t, root, procs, pids, procs[k].ppid, d - 1);
      KidsOccur(t, procs, MAX_TREE_DEPTH, pids, procs[k].ppid, d - 1);
      assert Count(t, p) == 1;
      var d' := CountedOccurs(t, p);
      OccursHasChain(t, root, procs, pids, p, d');
    }
  }

  lemma UniqueDepthsExact<T>(t: ProcessTree<T>, root: Process<T>, procs: seq<Process<T>>, pids: set<Pid>)
    requires UniqueDepths(procs, root.pid) && IsTreeOf(t, root, procs, pids)
    ensures IsExact(t, root.pid, procs)
  {
    forall p: Pid, d: nat {:trigger Occurs(t, p, d)} {:trigger ChainTo(procs, root.pid, p, d)}
      ensures Occurs(t, p, d) <==> ChainTo(procs, root.pid, p, d) && d <= MAX_TREE_DEPTH
    {
      if Occurs(t, p, d) {
        OccursHasChain(t, root, procs, pids, p, d);
      }
      if ChainTo(procs, root.pid, p, d) && d <= MAX_TREE_DEPTH {
        ChainOccurs(t, root, procs, pids, p, d);
      }
    }
  }

  // ---------------------------------------------------------------- without distinct pids

  lemma {:induction false} CountOfTwo<T>(ts: seq<ProcessTree<T>>, i: nat, j: nat, p: Pid)
    requires i < j < |ts|
    ensures Count(ts[i], p) + Count(ts[j], p) <= CountAll(ts, p)
    decreases |ts|
  {
    if j < |ts| - 1 {
      CountOfTwo(ts[..|ts| - 1], i, j, p);
    } else {
      CountOfChild(ts[..|ts| - 1], i, p);
    }
  }

  /** In any snapshot a pid stands at one depth only. */
  lemma {:induction false} OccursOnce<T>(t: ProcessTree<T>, p: Pid, d: nat, d': nat)
    requires Count(t, p) <= 1 && Occurs(t, p, d) && Occurs(t, p, d')
    ensures d == d'
    decreases d
  {
    OccursCounts(t, p, d);
    OccursCounts(t, p, d');
    if 0 < d && 0 < d' {
      var i :| 0 <= i < |t.children| && Occurs(t.children[i], p, d - 1);
      var j :| 0 <= j < |t.children| && Occurs(t.children[j], p, d' - 1);
      OccursCounts(t.children[i], p, d - 1);
      OccursCounts(t.children[j], p, d' - 1);
      if i != j {
        CountOfTwo(t.children, if i < j then i else j, if i < j then j else i, p);
      }
      CountOfChild(t.children, i, p);
      OccursOnce(t.children[i], p, d - 1, d' - 1);
    }
  }

  lemma ExactHasUniqueDepths<T>(t: ProcessTree<T>, root: Process<T>, procs: seq<Process<T>>, pids: set<Pid>)
    requires IsTreeOf(t, root, procs, pids) && IsExact(t, root.pid, procs)
    ensures UniqueDepths(procs, root.pid)
  {
    forall p: Pid, d: nat, d': nat {:trigger ChainTo(procs, root.pid, p, d), ChainTo(procs, root.pid, p, d')}
      | d <= MAX_TREE_DEPTH && d' <= MAX_TREE_DEPTH
        && ChainTo(procs, root.pid, p, d) && ChainTo(procs, root.pid, p, d')
      ensures d == d'
    {
      assert Count(t, p) <= 1;
      OccursOnce(t, p, d, d');
    }
  }

  /** The tree of any snapshot is exact if and only if the snapshot gives no process two depths. */
  lemma ExactIffUniqueDepths<T>(t: ProcessTree<T>, root: Process<T>, procs: seq<Process<T>>, pids: set<Pid>)
    requires IsTreeOf(t, root, procs, pids)
    ensures IsExact(t, root.pid, procs) <==> UniqueDepths(procs, root.pid)
  {
    if UniqueDepths(procs, root.pid) {
      UniqueDepthsExact(t, root, procs, pids);
    }
    if IsExact(t, root.pid, procs) {
      ExactHasUniqueDepths(t, root, procs, pids);
    }
  }

  /** A snapshot that lists pid 2 under two parents of different depth has two chains for it. */
  lemma DuplicatePidsBreakExactness<T>(details: T, t: ProcessTree<T>, pids: set<Pid>)
    ensures var root := Process(1, 0, details);
            var procs := [Process(2, 1, details), Process(3, 1, details), Process(2, 3, details)];
            !UniqueDepths(procs, root.pid) && (IsTreeOf(t, root, procs, pids) ==> !IsExact(t, root.pid, procs))
  {
    var root := Process(1, 0, details);
    var procs := [Process(2, 1, details), Process(3, 1, details), Process(2, 3, details)];
    assert procs[0].pid == 2 && ChainTo(procs, 1, procs[0].ppid, 0);
    assert ChainTo(procs, 1, 2, 1);
    assert procs[1].pid == 3 && ChainTo(procs, 1, procs[1].ppid, 0);
    assert procs[2].pid == 2 && ChainTo(procs, 1, procs[2].ppid, 1);
    assert ChainTo(procs, 1, 2, 2);
    if IsTreeOf(t, root, procs, pids) {
      ExactIffUniqueDepths(t, root, procs, pids);
    }
  }
}
