/** The processes below a root process, found through their parent links. */
module ProcessTree {
  import opened Text

  /** A readable process: its number and its parent's. */
  datatype Process = Process(pid: int, ppid: int)

  predicate IsChild(entries: seq<Process>, parent: int, child: int) {
    Process(child, parent) in entries
  }

  /** Each process on the path is a child of the one before it. */
  predicate IsPath(entries: seq<Process>, path: seq<int>) {
    && path != []
    && forall i :: 0 <= i < |path| - 1 ==> IsChild(entries, path[i], path[i + 1])
  }

  ghost predicate Descends(entries: seq<Process>, root: int, pid: int) {
    exists path :: IsPath(entries, path) && path[0] == root && path[|path| - 1] == pid
  }

  predicate Known(entries: seq<Process>, pid: int) {
    exists p <- entries :: p.pid == pid
  }

  lemma DescendsToChild(entries: seq<Process>, root: int, parent: int, child: int)
    requires Descends(entries, root, parent) && IsChild(entries, parent, child)
    ensures Descends(entries, root, child)
  {
    var path :| IsPath(entries, path) && path[0] == root && path[|path| - 1] == parent;
    assert IsPath(entries, path + [child]);
  }

  /** A set that holds the root and every child of a member holds all below it. */
  lemma {:induction false} ClosedHoldsPaths(entries: seq<Process>, closed: set<int>, path: seq<int>)
    requires IsPath(entries, path) && path[0] in closed
    requires forall p <- entries :: p.ppid in closed ==> p.pid in closed
    ensures path[|path| - 1] in closed
  {
    if |path| > 1 {
      assert IsChild(entries, path[0], path[1]);
      forall i | 0 <= i < |path[1..]| - 1 ensures IsChild(entries, path[1..][i], path[1..][i + 1]) {
        assert IsChild(entries, path[i + 1], path[i + 2]);
      }
      ClosedHoldsPaths(entries, closed, path[1..]);
    }
  }

  /** The pids whose parent is the given one, in reading order. */
  function ChildrenOf(entries: seq<Process>, parent: int): (r: seq<int>)
    ensures forall pid :: pid in r <==> IsChild(entries, parent, pid)
  {
    if entries == [] then []
    else
      var last := entries[|entries| - 1];
      ChildrenOf(entries[..|entries| - 1], parent) + if last.ppid == parent then [last.pid] else []
  }

  function Kids(children: map<int, seq<int>>, parent: int): seq<int> {
    if parent in children then children[parent] else []
  }

  ghost predicate Indexed(entries: seq<Process>, stats: map<int, Process>, children: map<int, seq<int>>) {
    && (forall pid :: pid in stats <==> Known(entries, pid))
    && (forall pid :: pid in stats ==> stats[pid] in entries && stats[pid].pid == pid)
    && (forall parent :: Kids(children, parent) == ChildrenOf(entries, parent))
  }

  lemma IndexOne(entries: seq<Process>, stats: map<int, Process>, children: map<int, seq<int>>, stat: Process)
    requires Indexed(entries, stats, children)
    ensures Indexed(entries + [stat], stats[stat.pid := stat], children[stat.ppid := Kids(children, stat.ppid) + [stat.pid]])
  {
    hide Known, ChildrenOf;
    var all, more := entries + [stat], Kids(children, stat.ppid) + [stat.pid];
    forall parent ensures Kids(children[stat.ppid := more], parent) == ChildrenOf(all, parent) {
      OneMoreChild(entries, stat, parent);
    }
    forall pid ensures pid in stats[stat.pid := stat] <==> Known(all, pid) {
      OneMoreKnown(entries, stat, pid);
    }
  }

  lemma OneMoreChild(entries: seq<Process>, stat: Process, parent: int)
    ensures ChildrenOf(entries + [stat], parent) == ChildrenOf(entries, parent) + if stat.ppid == parent then [stat.pid] else []
  {
    var all := entries + [stat];
    assert all[|all| - 1] == stat && all[..|all| - 1] == entries;
  }

  lemma OneMoreKnown(entries: seq<Process>, stat: Process, pid: int)
    ensures Known(entries + [stat], pid) <==> Known(entries, pid) || pid == stat.pid
  {
  }

  method ReadProcesses(entries: seq<Process>) returns (stats: map<int, Process>, children: map<int, seq<int>>)
    ensures Indexed(entries, stats, children)
  {
    stats, children := map[], map[];
    for i := 0 to |entries|
      invariant Indexed(entries[..i], stats, children)
    {
      var stat := entries[i];
      IndexOne(entries[..i], stats, children, stat);
      assert entries[..i + 1] == entries[..i] + [stat];
      hide Indexed;
      stats := stats[stat.pid := stat];
      children := children[stat.ppid := Kids(children, stat.ppid) + [stat.pid]];
    }
    assert entries[..|entries|] == entries;
  }

  /** Everything met descends from the root, and what the seen ones lead to has
      been met. */
  ghost predicate Searching(entries: seq<Process>, root: int, seen: set<int>, queue: seq<int>) {
    && (root in seen || root in queue)
    && (forall pid :: pid in seen || pid in queue ==> Descends(entries, root, pid) && (pid == root || Known(entries, pid)))
    && (forall p <- entries :: p.ppid in seen ==> p.pid in seen || p.pid in queue)
  }

  lemma Skip(entries: seq<Process>, root: int, seen: set<int>, queue: seq<int>)
    requires queue != [] && queue[0] in seen && Searching(entries, root, seen, queue)
    ensures Searching(entries, root, seen, queue[1..])
  {
    hide Descends, Known;
    assert queue == [queue[0]] + queue[1..];
  }

  lemma Visit(entries: seq<Process>, root: int, seen: set<int>, queue: seq<int>)
    requires queue != [] && queue[0] !in seen && Searching(entries, root, seen, queue)
    ensures Searching(entries, root, seen + {queue[0]}, queue[1..] + ChildrenOf(entries, queue[0]))
  {
    hide Descends, ChildrenOf;
    var pid := queue[0];
    assert queue == [pid] + queue[1..];
    forall child | IsChild(entries, pid, child) ensures Descends(entries, root, child) && Known(entries, child) {
      DescendsToChild(entries, root, pid, child);
      assert Process(child, pid).pid == child;
    }
    assert forall p <- entries :: p.ppid == pid ==> IsChild(entries, pid, p.pid);
  }

  ghost predicate Listed(out: seq<int>, entries: seq<Process>, seen: set<int>) {
    Distinct(out) && forall pid :: pid in out <==> pid in seen && Known(entries, pid)
  }

  lemma ListOne(out: seq<int>, entries: seq<Process>, seen: set<int>, pid: int)
    requires Listed(out, entries, seen) && pid !in seen
    ensures Listed(if Known(entries, pid) then out + [pid] else out, entries, seen + {pid})
  {
    hide Known;
    assert forall i :: 0 <= i < |out| ==> out[i] in out;
  }

  /** Ends on every parent relation, cycles included, with exactly the known
      pids below the root, in ascending order and once each. */
  method ProcessTree(entries: seq<Process>, root: int) returns (out: seq<int>, stats: map<int, Process>)
    ensures Increasing(out)
    ensures forall pid :: pid in out <==> Known(entries, pid) && Descends(entries, root, pid)
    ensures forall pid :: pid in stats <==> Known(entries, pid)
  {
    var children;
    stats, children := ReadProcesses(entries);
    out := [];
    var queue := [root];
    var seen: set<int> := {};
    ghost var pids := stats.Keys + {root};
    hide Searching, Descends, ChildrenOf, Known, Listed, Distinct, SortInts;
    SearchStarts(entries, root);
    while queue != []
      invariant seen <= pids && forall pid <- queue :: pid in pids
      invariant Searching(entries, root, seen, queue)
      invariant Listed(out, entries, seen)
      decreases |pids - seen|, |queue|
    {
      var pid := queue[0];
      if pid in seen {
        Skip(entries, root, seen, queue);
        queue := queue[1..];
        continue;
      }
      Visit(entries, root, seen, queue);
      ListOne(out, entries, seen, pid);
      queue := queue[1..];
      assert pid in pids && pids - (seen + {pid}) == (pids - seen) - {pid};
      seen := seen + {pid};
      if pid in stats { out := out + [pid]; }
      queue := queue + Kids(children, pid);
    }
    AllSeen(entries, seen, root);
    ListedOnes(out, entries, seen);
    out := SortInts(out);
  }

  lemma SearchStarts(entries: seq<Process>, root: int)
    ensures Searching(entries, root, {}, [root]) && Listed([], entries, {})
  {
    assert IsPath(entries, [root]);
  }

  lemma ListedOnes(out: seq<int>, entries: seq<Process>, seen: set<int>)
    requires Listed(out, entries, seen)
    ensures Distinct(out) && forall pid :: pid in out <==> pid in seen && Known(entries, pid)
  {
  }

  lemma AllSeen(entries: seq<Process>, seen: set<int>, root: int)
    requires Searching(entries, root, seen, [])
    ensures forall pid :: Descends(entries, root, pid) <==> pid in seen
  {
    forall pid | Descends(entries, root, pid) ensures pid in seen {
      var path :| IsPath(entries, path) && path[0] == root && path[|path| - 1] == pid;
      ClosedHoldsPaths(entries, seen, path);
    }
  }
}
