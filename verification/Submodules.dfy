/** `updateSubmodules`: a first-in first-out work list over a tree of repositories. */
module Submodules {
  import opened Wrappers

  /** A repository with the repositories of its submodules, in the order `submodules()` lists them. */
  datatype Repo = Repo(name: string, subs: seq<Repo>)

  /** A repository and where it sits below the root: the submodule index taken at each depth. */
  datatype Site = Site(path: seq<nat>, repo: Repo)

  function Children(s: Site): (cs: seq<Site>)
    ensures |cs| == |s.repo.subs|
    ensures forall i :: 0 <= i < |cs| ==> cs[i] == Site(s.path + [i], s.repo.subs[i])
  {
    seq(|s.repo.subs|, i requires 0 <= i < |s.repo.subs| => Site(s.path + [i], s.repo.subs[i]))
  }

  /** Number of repositories in a tree, and below a work list. */
  function Nodes(r: Repo): nat
    decreases r, 0
  {
    1 + NodesOf(r.subs)
  }

  function NodesOf(rs: seq<Repo>): nat
    decreases rs, 1
  {
    if rs == [] then 0 else NodesOf(rs[..|rs| - 1]) + Nodes(rs[|rs| - 1])
  }

  function Weight(sites: seq<Site>): nat {
    if sites == [] then 0 else Weight(sites[..|sites| - 1]) + Nodes(sites[|sites| - 1].repo)
  }

  lemma {:induction false} WeightJoin(a: seq<Site>, b: seq<Site>)
    ensures Weight(a + b) == Weight(a) + Weight(b)
  {
    if b == [] {
      assert a + b == a;
    } else {
      WeightJoin(a, b[..|b| - 1]);
      assert (a + b)[..|a + b| - 1] == a + b[..|b| - 1];
    }
  }

  lemma {:induction false} WeightOfSites(rs: seq<Repo>, sites: seq<Site>)
    requires |sites| == |rs| && forall i :: 0 <= i < |rs| ==> sites[i].repo == rs[i]
    ensures Weight(sites) == NodesOf(rs)
  {
    if rs != [] {
      WeightOfSites(rs[..|rs| - 1], sites[..|rs| - 1]);
    }
  }

  /** Taking the first repository off the list and adding its submodules makes the list lighter. */
  lemma WeightFalls(queue: seq<Site>)
    requires queue != []
    ensures Weight(queue[1..] + Children(queue[0])) < Weight(queue)
  {
    var head := queue[0];
    WeightJoin(queue[1..], Children(head));
    WeightJoin([head], queue[1..]);
    assert [head] + queue[1..] == queue;
    assert [head][..0] == [];
    WeightOfSites(head.repo.subs, Children(head));
  }

  /** What a run with work list `queue` still updates, in order. */
  function Future(queue: seq<Site>): seq<Site>
    decreases Weight(queue)
  {
    if queue == [] then []
    else
      WeightFalls(queue);
      Children(queue[0]) + Future(queue[1..] + Children(queue[0]))
  }

  // ---------- Levels of the tree ----------

  function Below(sites: seq<Site>): seq<Site> {
    if sites == [] then [] else Below(sites[..|sites| - 1]) + Children(sites[|sites| - 1])
  }

  lemma {:induction false} BelowIsLighter(sites: seq<Site>)
    ensures Weight(Below(sites)) + |sites| == Weight(sites)
  {
    if sites != [] {
      var init, last := sites[..|sites| - 1], sites[|sites| - 1];
      BelowIsLighter(init);
      WeightJoin(Below(init), Children(last));
      WeightOfSites(last.repo.subs, Children(last));
    }
  }

  /** The levels below `sites`, one after the other. */
  function Levels(sites: seq<Site>): seq<Site>
    decreases Weight(sites)
  {
    if sites == [] then []
    else
      BelowIsLighter(sites);
      Below(sites) + Levels(Below(sites))
  }

  lemma BelowSnoc(sites: seq<Site>, last: Site)
    ensures Below(sites + [last]) == Below(sites) + Children(last)
  {
    assert (sites + [last])[..|sites|] == sites;
  }

  lemma Regroup(a: seq<Site>, b: seq<Site>, c: seq<Site>)
    ensures a + b + c == a + (b + c)
  {
  }

  lemma {:induction false} BelowHead(head: Site, tail: seq<Site>)
    ensures Below([head] + tail) == Children(head) + Below(tail)
  {
    if tail == [] {
      assert [head] + tail == [head];
      assert Below([head][..0]) == [];
    } else {
      var init, last := tail[..|tail| - 1], tail[|tail| - 1];
      BelowHead(head, init);
      Regroup([head], init, [last]);
      assert init + [last] == tail;
      BelowSnoc([head] + init, last);
      Regroup(Children(head), Below(init), Children(last));
    }
  }

  lemma FutureOfFirst(head: Site, rest: seq<Site>)
    ensures Future([head] + rest) == Children(head) + Future(rest + Children(head))
  {
    assert ([head] + rest)[1..] == rest;
  }

  lemma {:induction false} FutureOfLevel(a: seq<Site>, b: seq<Site>)
    ensures Future(a + b) == Below(a) + Future(b + Below(a))
    decreases |a|
  {
    if a == [] {
      assert a + b == b && b + Below(a) == b;
    } else {
      var head, tail := a[0], a[1..];
      var c := Children(head);
      assert a == [head] + tail;
      Regroup([head], tail, b);
      FutureOfFirst(head, tail + b);
      Regroup(tail, b, c);
      FutureOfLevel(tail, b + c);
      BelowHead(head, tail);
      Regroup(b, c, Below(tail));
      Regroup(c, Below(tail), Future(b + Below(a)));
    }
  }

  /** The work list visits the tree level by level. */
  lemma {:induction false} FutureIsLevels(sites: seq<Site>)
    ensures Future(sites) == Levels(sites)
    decreases Weight(sites)
  {
    if sites != [] {
      BelowIsLighter(sites);
      FutureOfLevel(sites, []);
      assert sites + [] == sites && [] + Below(sites) == Below(sites);
      FutureIsLevels(Below(sites));
    }
  }

  function Root(r: Repo): seq<Site> {
    [Site([], r)]
  }

  // ---------- The walk ----------

  /** Outcome of `update(true)` and `open()` on one submodule; a failure is thrown out of the walk. */
  datatype Outcome = Done | UpdateFailed | OpenFailed

  /** Index of the first submodule that fails, or the length. */
  function FirstFailure(order: seq<Site>, outcome: Site -> Outcome): (k: nat)
    ensures k <= |order|
    ensures k < |order| ==> outcome(order[k]) != Done
    ensures forall i :: 0 <= i < k ==> outcome(order[i]) == Done
  {
    if order == [] || outcome(order[0]) != Done then 0 else 1 + FirstFailure(order[1..], outcome)
  }

  /** The updates made over `order`: all up to the first failure, which counts if only its open failed. */
  function Updated(order: seq<Site>, outcome: Site -> Outcome): seq<Site> {
    var k := FirstFailure(order, outcome);
    order[..k] + (if k < |order| && outcome(order[k]).OpenFailed? then [order[k]] else [])
  }

  predicate Succeeds(order: seq<Site>, outcome: Site -> Outcome) {
    FirstFailure(order, outcome) == |order|
  }

  /** The walk ends at the first failure.  What was updated is the part of the order before it, and the failed
      submodule too if it was updated and only could not be opened. */
  lemma UpdatedMeaning(order: seq<Site>, outcome: Site -> Outcome)
    ensures var done, n := Updated(order, outcome), |Updated(order, outcome)|;
            && done <= order
            && (forall i :: 0 <= i < n - 1 ==> outcome(order[i]) == Done)
            && (n > 0 ==> outcome(order[n - 1]) == Done || outcome(order[n - 1]) == OpenFailed)
            && (n > 0 && outcome(order[n - 1]) == Done && n < |order| ==> outcome(order[n]) == UpdateFailed)
            && (n == 0 && order != [] ==> outcome(order[0]) == UpdateFailed)
    ensures Succeeds(order, outcome) <==> forall i :: 0 <= i < |order| ==> outcome(order[i]) == Done
  {
  }

  lemma FailureAt(order: seq<Site>, k: nat, outcome: Site -> Outcome)
    requires k <= |order| && (k < |order| ==> outcome(order[k]) != Done)
    requires forall i :: 0 <= i < k ==> outcome(order[i]) == Done
    ensures FirstFailure(order, outcome) == k
  {
  }

  lemma FailureInside(before: seq<Site>, rest: seq<Site>, outcome: Site -> Outcome)
    requires Succeeds(before, outcome)
    ensures Updated(before + rest, outcome) == before + Updated(rest, outcome)
    ensures Succeeds(before + rest, outcome) <==> Succeeds(rest, outcome)
  {
    var all, j := before + rest, FirstFailure(rest, outcome);
    assert j < |rest| ==> all[|before| + j] == rest[j];
    FailureAt(all, |before| + j, outcome);
    assert all[..|before| + j] == before + rest[..j];
  }

  lemma FailureEarly(before: seq<Site>, rest: seq<Site>, outcome: Site -> Outcome)
    requires !Succeeds(before, outcome)
    ensures Updated(before + rest, outcome) == Updated(before, outcome) && !Succeeds(before + rest, outcome)
  {
    var all, k := before + rest, FirstFailure(before, outcome);
    FailureAt(all, k, outcome);
    assert all[..k] == before[..k];
  }

  lemma Batch(order: seq<Site>, log: seq<Site>, cs: seq<Site>, rest: seq<Site>, outcome: Site -> Outcome)
    requires order == log + (cs + rest) && Succeeds(log, outcome)
    ensures if Succeeds(cs, outcome) then
              Updated(cs, outcome) == cs && Succeeds(log + cs, outcome) && order == log + cs + rest
            else
              Updated(order, outcome) == log + Updated(cs, outcome) && !Succeeds(order, outcome)
  {
    if Succeeds(cs, outcome) {
      FailureInside(log, cs, outcome);
      assert cs[..|cs|] + [] == cs;
    } else {
      FailureInside(log, cs + rest, outcome);
      FailureEarly(cs, rest, outcome);
    }
  }

  /** One round of the loop, with `log` already updated and `queue` waiting. */
  lemma Round(order: seq<Site>, log: seq<Site>, queue: seq<Site>, outcome: Site -> Outcome)
    requires queue != [] && order == log + Future(queue) && Succeeds(log, outcome)
    ensures var cs := Children(queue[0]);
            if Succeeds(cs, outcome) then
              Updated(cs, outcome) == cs && Succeeds(log + cs, outcome) && order == log + cs + Future(queue[1..] + cs)
            else
              Updated(order, outcome) == log + Updated(cs, outcome) && !Succeeds(order, outcome)
  {
    var cs := Children(queue[0]);
    Batch(order, log, cs, Future(queue[1..] + cs), outcome);
  }

  method AddSubRepos(site: Site, list: seq<Site>, log: seq<Site>, outcome: Site -> Outcome)
    returns (list': seq<Site>, log': seq<Site>, completed: bool)
    ensures completed <==> Succeeds(Children(site), outcome)
    ensures log' == log + Updated(Children(site), outcome)
    ensures completed ==> list' == list + Children(site)
  {
    var subs := Children(site);
    list', log' := list, log;
    for i := 0 to |subs|
      invariant forall j :: 0 <= j < i ==> outcome(subs[j]) == Done
      invariant list' == list + subs[..i] && log' == log + subs[..i]
    {
      assert subs[..i + 1] == subs[..i] + [subs[i]];
      match outcome(subs[i])
      case UpdateFailed =>
        return list', log', false;
      case OpenFailed =>
        return list', log' + [subs[i]], false;
      case Done =>
        log' := log' + [subs[i]];
        list' := list' + [subs[i]];
    }
    return list', log', true;
  }

  /** The submodules updated, in order, and whether the walk came to its end. */
  method UpdateSubmodules(root: Repo, outcome: Site -> Outcome) returns (log: seq<Site>, completed: bool)
    ensures completed <==> Succeeds(Levels(Root(root)), outcome)
    ensures log == Updated(Levels(Root(root)), outcome)
  {
    ghost var order := Levels(Root(root));
    FutureIsLevels(Root(root));
    assert Root(root)[1..] == [] && [] + order == order;
    Round(order, [], Root(root), outcome);
    var list: seq<Site>;
    list, log, completed := AddSubRepos(Site([], root), [], [], outcome);
    while completed && list != []
      invariant completed ==> Succeeds(log, outcome) && order == log + Future(list)
      invariant !completed ==> log == Updated(order, outcome) && !Succeeds(order, outcome)
      decreases completed, Weight(list)
    {
      var repo := list[0];
      WeightFalls(list);
      Round(order, log, list, outcome);
      list := list[1..];
      list, log, completed := AddSubRepos(repo, list, log, outcome);
    }
    if completed {
      assert log + [] == log && log[..|log|] + [] == log;
    }
  }

  // ---------- What the levels contain ----------

  /** The repository at `path` below `root`. */
  function At(root: Repo, path: seq<nat>): Option<Repo> {
    if path == [] then Some(root)
    else
      var i := path[|path| - 1];
      match At(root, path[..|path| - 1])
      case Some(parent) => if i < |parent.subs| then Some(parent.subs[i]) else None
      case None => None
  }

  function Level(root: Repo, depth: nat): seq<Site> {
    if depth == 0 then Root(root) else Below(Level(root, depth - 1))
  }

  predicate DistinctPaths(sites: seq<Site>) {
    forall i, j :: 0 <= i < j < |sites| ==> sites[i].path != sites[j].path
  }

  function Parent(path: seq<nat>): seq<nat>
    requires path != []
  {
    path[..|path| - 1]
  }

  lemma {:induction false} BelowHas(sites: seq<Site>, k: nat, i: nat)
    requires k < |sites| && i < |sites[k].repo.subs|
    ensures Children(sites[k])[i] in Below(sites)
  {
    if k < |sites| - 1 {
      BelowHas(sites[..|sites| - 1], k, i);
    }
  }

  lemma {:induction false} BelowFind(sites: seq<Site>, s: Site) returns (k: nat, i: nat)
    requires s in Below(sites)
    ensures k < |sites| && i < |sites[k].repo.subs| && s == Children(sites[k])[i]
  {
    var n := |sites| - 1;
    if s in Below(sites[..n]) {
      k, i := BelowFind(sites[..n], s);
    } else {
      k := n;
      i :| 0 <= i < |Children(sites[n])| && s == Children(sites[n])[i];
    }
  }

  predicate Sits(root: Repo, depth: nat, s: Site) {
    |s.path| == depth && At(root, s.path) == Some(s.repo)
  }

  lemma AtChild(root: Repo, parent: Site, i: nat, s: Site)
    requires At(root, parent.path) == Some(parent.repo) && i < |parent.repo.subs| && s == Children(parent)[i]
    ensures |s.path| == |parent.path| + 1 && At(root, s.path) == Some(s.repo)
  {
    assert Parent(s.path) == parent.path && s.path[|parent.path|] == i;
  }

  lemma BelowSits(root: Repo, depth: nat, above: seq<Site>, s: Site)
    requires forall p :: p in above ==> Sits(root, depth, p)
    requires s in Below(above)
    ensures Sits(root, depth + 1, s)
  {
    var k, i := BelowFind(above, s);
    assert Sits(root, depth, above[k]);
    AtChild(root, above[k], i, s);
  }

  lemma {:induction false} LevelSound(root: Repo, depth: nat)
    ensures forall s :: s in Level(root, depth) ==> Sits(root, depth, s)
  {
    if depth > 0 {
      LevelSound(root, depth - 1);
      forall s | s in Level(root, depth) ensures Sits(root, depth, s) {
        BelowSits(root, depth - 1, Level(root, depth - 1), s);
      }
    }
  }

  lemma ParentSite(root: Repo, s: Site) returns (parent: Site)
    requires s.path != [] && At(root, s.path) == Some(s.repo)
    ensures parent.path == Parent(s.path) && At(root, parent.path) == Some(parent.repo)
    ensures s.path[|s.path| - 1] < |parent.repo.subs| && s == Children(parent)[s.path[|s.path| - 1]]
  {
    parent := Site(Parent(s.path), At(root, Parent(s.path)).value);
    assert parent.path + [s.path[|s.path| - 1]] == s.path;
  }

  lemma {:induction false} LevelComplete(root: Repo, depth: nat, s: Site)
    requires |s.path| == depth && At(root, s.path) == Some(s.repo)
    ensures s in Level(root, depth)
  {
    if depth > 0 {
      var above := Level(root, depth - 1);
      var parent := ParentSite(root, s);
      LevelComplete(root, depth - 1, parent);
      var k :| 0 <= k < |above| && above[k] == parent;
      BelowHas(above, k, s.path[depth - 1]);
    }
  }

  /** A level holds every repository of its depth. */
  lemma LevelMembers(root: Repo, depth: nat, s: Site)
    ensures s in Level(root, depth) <==> |s.path| == depth && At(root, s.path) == Some(s.repo)
  {
    LevelSound(root, depth);
    if |s.path| == depth && At(root, s.path) == Some(s.repo) {
      LevelComplete(root, depth, s);
    }
  }

  lemma {:induction false} BelowDistinct(sites: seq<Site>)
    requires DistinctPaths(sites)
    ensures DistinctPaths(Below(sites))
  {
    if sites != [] {
      var init, last := sites[..|sites| - 1], sites[|sites| - 1];
      BelowDistinct(init);
      var a, c := Below(init), Children(last);
      forall i, j | 0 <= i < |a| && 0 <= j < |c| ensures a[i].path != c[j].path {
        var k, m := BelowFind(init, a[i]);
        assert init[k] == sites[k];
        assert Parent(a[i].path) == init[k].path && Parent(c[j].path) == last.path;
      }
      forall i, j | 0 <= i < j < |c| ensures c[i].path != c[j].path {
        assert c[i].path[|last.path|] == i && c[j].path[|last.path|] == j;
      }
    }
  }

  lemma {:induction false} LevelDistinct(root: Repo, depth: nat)
    ensures DistinctPaths(Level(root, depth))
  {
    if depth > 0 {
      LevelDistinct(root, depth - 1);
      BelowDistinct(Level(root, depth - 1));
    }
  }

  // ---------- The order of siblings ----------

  /** Paths in the order of their first difference. */
  predicate PathLess(a: seq<nat>, b: seq<nat>) {
    a != [] && b != [] && (a[0] < b[0] || (a[0] == b[0] && PathLess(a[1..], b[1..])))
  }

  /** The shallower submodule first, and of one depth the one that is listed first. */
  ghost predicate Before(s: Site, t: Site) {
    |s.path| < |t.path| || (|s.path| == |t.path| && PathLess(s.path, t.path))
  }

  ghost predicate InOrder(sites: seq<Site>) {
    forall i, j :: 0 <= i < j < |sites| ==> Before(sites[i], sites[j])
  }

  lemma {:induction false} PathLessExtends(a: seq<nat>, b: seq<nat>, x: nat, y: nat)
    requires |a| == |b| && (PathLess(a, b) || (a == b && x < y))
    ensures PathLess(a + [x], b + [y])
  {
    if a != [] && a[0] == b[0] {
      PathLessExtends(a[1..], b[1..], x, y);
      assert (a + [x])[1..] == a[1..] + [x] && (b + [y])[1..] == b[1..] + [y];
    }
  }

  ghost predicate AllAtDepth(sites: seq<Site>, depth: nat) {
    forall i :: 0 <= i < |sites| ==> |sites[i].path| == depth
  }

  lemma JoinInOrder(a: seq<Site>, b: seq<Site>)
    requires InOrder(a) && InOrder(b) && forall i, j :: 0 <= i < |a| && 0 <= j < |b| ==> Before(a[i], b[j])
    ensures InOrder(a + b)
  {
    var all := a + b;
    forall i, j | 0 <= i < j < |all| ensures Before(all[i], all[j]) {
      if j < |a| {
        assert Before(a[i], a[j]);
      } else if i >= |a| {
        assert Before(b[i - |a|], b[j - |a|]);
      }
    }
  }

  lemma ChildrenInOrder(parent: Site)
    ensures InOrder(Children(parent))
  {
    var c := Children(parent);
    forall i, j | 0 <= i < j < |c| ensures Before(c[i], c[j]) {
      PathLessExtends(parent.path, parent.path, i, j);
    }
  }

  lemma {:induction false} BelowInOrder(sites: seq<Site>, depth: nat)
    requires InOrder(sites) && AllAtDepth(sites, depth)
    ensures InOrder(Below(sites)) && AllAtDepth(Below(sites), depth + 1)
  {
    if sites != [] {
      var init, last := sites[..|sites| - 1], sites[|sites| - 1];
      BelowInOrder(init, depth);
      var a, c := Below(init), Children(last);
      forall i, j | 0 <= i < |a| && 0 <= j < |c| ensures Before(a[i], c[j]) {
        var k, m := BelowFind(init, a[i]);
        assert Before(sites[k], sites[|sites| - 1]);
        PathLessExtends(sites[k].path, last.path, m, j);
      }
      ChildrenInOrder(last);
      JoinInOrder(a, c);
    }
  }

  lemma {:induction false} LevelInOrder(root: Repo, depth: nat)
    ensures InOrder(Level(root, depth)) && AllAtDepth(Level(root, depth), depth)
  {
    if depth > 0 {
      LevelInOrder(root, depth - 1);
      BelowInOrder(Level(root, depth - 1), depth - 1);
    }
  }

  ghost predicate AllDeeper(sites: seq<Site>, depth: nat) {
    forall i :: 0 <= i < |sites| ==> |sites[i].path| > depth
  }

  lemma {:induction false} LevelsInOrder(root: Repo, depth: nat)
    ensures InOrder(Levels(Level(root, depth))) && AllDeeper(Levels(Level(root, depth)), depth)
    decreases Weight(Level(root, depth))
  {
    var above := Level(root, depth);
    if above != [] {
      var next := Level(root, depth + 1);
      BelowIsLighter(above);
      LevelsInOrder(root, depth + 1);
      LevelInOrder(root, depth + 1);
      JoinInOrder(next, Levels(next));
    }
  }

  // ---------- The whole walk ----------

  /** Where the parent of a submodule is when the submodule's turn comes. */
  ghost predicate ParentEarlier(above: seq<Site>, order: seq<Site>, j: nat)
    requires j < |order| && order[j].path != []
  {
    || (exists k :: 0 <= k < |above| && above[k].path == Parent(order[j].path))
    || (exists i :: 0 <= i < j && order[i].path == Parent(order[j].path))
  }

  ghost predicate WellOrdered(root: Repo, depth: nat, order: seq<Site>) {
    && DistinctPaths(order)
    && (forall s :: s in order <==> |s.path| > depth && At(root, s.path) == Some(s.repo))
    && (forall j :: 0 <= j < |order| ==> order[j].path != [] && ParentEarlier(Level(root, depth), order, j))
  }

  lemma {:induction false} DeadEnd(root: Repo, depth: nat, path: seq<nat>)
    requires Level(root, depth) == [] && |path| >= depth
    ensures At(root, path).None?
    decreases |path|
  {
    if |path| == depth {
      if At(root, path).Some? {
        LevelMembers(root, depth, Site(path, At(root, path).value));
      }
    } else {
      DeadEnd(root, depth, Parent(path));
    }
  }

  lemma JoinDistinct(root: Repo, depth: nat, next: seq<Site>, rest: seq<Site>)
    requires next == Level(root, depth + 1) && DistinctPaths(next) && DistinctPaths(rest)
    requires forall s :: s in rest ==> |s.path| > depth + 1
    ensures DistinctPaths(next + rest)
  {
    forall i | 0 <= i < |next| ensures |next[i].path| == depth + 1 {
      LevelMembers(root, depth + 1, next[i]);
    }
    forall j | 0 <= j < |rest| ensures |rest[j].path| > depth + 1 {
      assert rest[j] in rest;
    }
  }

  lemma JoinParents(next: seq<Site>, rest: seq<Site>, m: nat)
    requires m < |rest| && rest[m].path != [] && ParentEarlier(next, rest, m)
    ensures exists i :: 0 <= i < |next| + m && (next + rest)[i].path == Parent(rest[m].path)
  {
    var order := next + rest;
    if k :| 0 <= k < |next| && next[k].path == Parent(rest[m].path) {
      assert order[k] == next[k];
    } else {
      var i :| 0 <= i < m && rest[i].path == Parent(rest[m].path);
      assert order[|next| + i] == rest[i];
    }
  }

  lemma InLevelAbove(root: Repo, depth: nat, s: Site)
    requires s in Level(root, depth + 1)
    ensures |s.path| == depth + 1
    ensures exists k :: 0 <= k < |Level(root, depth)| && Level(root, depth)[k].path == Parent(s.path)
  {
    LevelMembers(root, depth + 1, s);
    var parent := ParentSite(root, s);
    LevelMembers(root, depth, parent);
    var k :| 0 <= k < |Level(root, depth)| && Level(root, depth)[k] == parent;
  }

  lemma JoinLevel(root: Repo, depth: nat, next: seq<Site>, rest: seq<Site>)
    requires next == Level(root, depth + 1) && DistinctPaths(next) && WellOrdered(root, depth + 1, rest)
    ensures WellOrdered(root, depth, next + rest)
  {
    var order := next + rest;
    forall s ensures s in order <==> |s.path| > depth && At(root, s.path) == Some(s.repo) {
      LevelMembers(root, depth + 1, s);
    }
    JoinDistinct(root, depth, next, rest);
    forall j | 0 <= j < |order| ensures order[j].path != [] && ParentEarlier(Level(root, depth), order, j) {
      if j < |next| {
        InLevelAbove(root, depth, next[j]);
      } else {
        JoinParents(next, rest, j - |next|);
      }
    }
  }

  lemma {:induction false} LevelsWellOrdered(root: Repo, depth: nat)
    ensures WellOrdered(root, depth, Levels(Level(root, depth)))
    decreases Weight(Level(root, depth))
  {
    var above := Level(root, depth);
    if above == [] {
      forall s: Site | |s.path| > depth ensures At(root, s.path).None? {
        DeadEnd(root, depth, s.path);
      }
    } else {
      BelowIsLighter(above);
      LevelsWellOrdered(root, depth + 1);
      LevelDistinct(root, depth + 1);
      var next, rest := Level(root, depth + 1), Levels(Level(root, depth + 1));
      JoinLevel(root, depth, next, rest);
    }
  }

  lemma OrderFromRoot(root: Repo, order: seq<Site>)
    requires WellOrdered(root, 0, order)
    ensures DistinctPaths(order) && forall s :: s in order <==> s.path != [] && At(root, s.path) == Some(s.repo)
    ensures forall j :: 0 <= j < |order| && |order[j].path| > 1 ==>
              exists i :: 0 <= i < j && order[i].path == order[j].path[..|order[j].path| - 1]
  {
    assert forall s: Site :: s.path != [] <==> |s.path| > 0;
    forall j | 0 <= j < |order| && |order[j].path| > 1
      ensures exists i :: 0 <= i < j && order[i].path == order[j].path[..|order[j].path| - 1]
    {
      assert ParentEarlier(Root(root), order, j);
    }
  }

  /** The order of the walk is the concatenation of the levels, it holds every submodule at every depth
      exactly once and nothing else, a submodule comes after the one it is nested in, and the submodules of one
      depth come in the order of their listing. */
  lemma WalkOrder(root: Repo)
    ensures var order := Levels(Root(root));
            && order == Future(Root(root))
            && DistinctPaths(order)
            && InOrder(order)
            && (forall s :: s in order <==> s.path != [] && At(root, s.path) == Some(s.repo))
            && forall j :: 0 <= j < |order| && |order[j].path| > 1 ==>
                 exists i :: 0 <= i < j && order[i].path == order[j].path[..|order[j].path| - 1]
  {
    FutureIsLevels(Root(root));
    LevelsWellOrdered(root, 0);
    LevelsInOrder(root, 0);
    OrderFromRoot(root, Levels(Root(root)));
  }
}
