/** `IterableBase.InnerIterator` shared by several threads: `hasNext` reads the atomic index, `next`
    increments it, and nothing ties the two together. */
module SharedIterator {
  import opened Wrappers

  /** `ready` are the threads whose last `hasNext` was true and that have not called `next` since; `claims`
      are the indices that `next` took, in order. */
  datatype State = State(index: int, ready: set<nat>, claims: seq<int>)

  datatype Action = Check(thread: nat) | Claim(thread: nat)

  const START := State(-1, {}, [])

  /** What `hasNext` answers in a state. */
  predicate HasMore(size: nat, s: State) {
    s.index < size - 1
  }

  function Step(size: nat, s: State, a: Action): State {
    match a
    case Check(t) => s.(ready := if HasMore(size, s) then s.ready + {t} else s.ready - {t})
    case Claim(t) => State(s.index + 1, s.ready - {t}, s.claims + [s.index + 1])
  }

  function Run(size: nat, s: State, actions: seq<Action>): State {
    if actions == [] then s
    else Step(size, Run(size, s, actions[..|actions| - 1]), actions[|actions| - 1])
  }

  /** Only threads `0..threads` act, and each calls `next` only after a true `hasNext` of its own. */
  predicate By(size: nat, threads: nat, s: State, actions: seq<Action>) {
    actions != [] ==>
      var before, last := actions[..|actions| - 1], actions[|actions| - 1];
      && By(size, threads, s, before)
      && last.thread < threads
      && (last.Claim? ==> last.thread in Run(size, s, before).ready)
  }

  predicate Gapless(s: State) {
    |s.claims| == s.index + 1 && forall i :: 0 <= i < |s.claims| ==> s.claims[i] == i
  }

  function ThreadIds(threads: nat): (ids: set<nat>)
    ensures |ids| == threads && forall t: nat :: t in ids <==> t < threads
  {
    if threads == 0 then {}
    else
      var others := ThreadIds(threads - 1);
      assert threads - 1 !in others;
      others + {threads - 1}
  }

  lemma {:induction false} SubsetSize(a: set<nat>, b: set<nat>)
    requires a <= b
    ensures |a| <= |b|
  {
    if a != {} {
      var x :| x in a;
      SubsetSize(a - {x}, b - {x});
    }
  }

  /** Claimed indices are distinct and gapless from 0, and at most one per thread beyond the first
      lies past the end. */
  lemma {:induction false} BoundedOvershoot(size: nat, threads: nat, actions: seq<Action>)
    requires threads >= 1 && By(size, threads, START, actions)
    ensures var s := Run(size, START, actions);
            && Gapless(s)
            && (forall t :: t in s.ready ==> t < threads)
            && s.index + |s.ready| <= size - 1 + (threads - 1)
            && s.index <= size - 1 + (threads - 1)
  {
    if actions != [] {
      BoundedOvershoot(size, threads, actions[..|actions| - 1]);
      var s := Run(size, START, actions[..|actions| - 1]);
      var last := actions[|actions| - 1];
      if last.Check? && HasMore(size, s) {
        assert s.ready + {last.thread} <= ThreadIds(threads);
        SubsetSize(s.ready + {last.thread}, ThreadIds(threads));
      }
    }
  }

  predicate InRange(size: nat, s: State) {
    forall i :: 0 <= i < |s.claims| ==> s.claims[i] < size
  }

  // ---------- The bound is reached ----------

  /** One thread takes all elements but the last. */
  function Approach(n: nat): seq<Action> {
    if n == 0 then [] else Approach(n - 1) + [Check(0)] + [Claim(0)]
  }

  function AllCheck(threads: nat): seq<Action> {
    if threads == 0 then [] else AllCheck(threads - 1) + [Check(threads - 1)]
  }

  function AllClaim(threads: nat): seq<Action> {
    if threads == 0 then [] else AllClaim(threads - 1) + [Claim(threads - 1)]
  }

  lemma {:induction false} RunJoin(size: nat, threads: nat, s: State, a: seq<Action>, b: seq<Action>)
    requires By(size, threads, s, a) && By(size, threads, Run(size, s, a), b)
    ensures Run(size, s, a + b) == Run(size, Run(size, s, a), b)
    ensures By(size, threads, s, a + b)
  {
    if b == [] {
      assert a + b == a;
    } else {
      RunJoin(size, threads, s, a, b[..|b| - 1]);
      assert (a + b)[..|a + b| - 1] == a + b[..|b| - 1];
    }
  }

  lemma RunThen(size: nat, threads: nat, s: State, a: seq<Action>, last: Action)
    requires By(size, threads, s, a) && last.thread < threads
    requires last.Claim? ==> last.thread in Run(size, s, a).ready
    ensures Run(size, s, a + [last]) == Step(size, Run(size, s, a), last)
    ensures By(size, threads, s, a + [last])
  {
    assert (a + [last])[..|a|] == a;
  }

  lemma {:induction false} ApproachRun(size: nat, threads: nat, n: nat)
    requires n < size && threads >= 1
    ensures Run(size, START, Approach(n)).index == n - 1 && Run(size, START, Approach(n)).ready == {}
    ensures By(size, threads, START, Approach(n))
  {
    if n > 0 {
      ApproachRun(size, threads, n - 1);
      RunThen(size, threads, START, Approach(n - 1), Check(0));
      RunThen(size, threads, START, Approach(n - 1) + [Check(0)], Claim(0));
    }
  }

  lemma CheckAdds(size: nat, s: State, ids: set<nat>, t: nat)
    requires HasMore(size, s)
    ensures Step(size, s.(ready := ids), Check(t)) == s.(ready := ids + {t})
  {
  }

  lemma {:induction false} AllCheckRun(size: nat, threads: nat, s: State, n: nat)
    requires s.ready == {} && HasMore(size, s) && n <= threads
    ensures Run(size, s, AllCheck(n)) == s.(ready := ThreadIds(n))
    ensures By(size, threads, s, AllCheck(n))
  {
    if n > 0 {
      AllCheckRun(size, threads, s, n - 1);
      RunThen(size, threads, s, AllCheck(n - 1), Check(n - 1));
      CheckAdds(size, s, ThreadIds(n - 1), n - 1);
    }
  }

  lemma {:induction false} AllClaimRun(size: nat, threads: nat, s: State, n: nat)
    requires n <= threads && forall t: nat :: t < n ==> t in s.ready
    ensures Run(size, s, AllClaim(n)).index == s.index + n
    ensures forall t :: t in s.ready && t >= n ==> t in Run(size, s, AllClaim(n)).ready
    ensures By(size, threads, s, AllClaim(n))
  {
    if n > 0 {
      AllClaimRun(size, threads, s, n - 1);
      RunThen(size, threads, s, AllClaim(n - 1), Claim(n - 1));
    }
  }

  lemma WorstCase(size: nat, threads: nat) returns (actions: seq<Action>)
    requires size >= 1 && threads >= 1
    ensures By(size, threads, START, actions)
    ensures Run(size, START, actions).index == size - 1 + (threads - 1)
  {
    var a, b, c := Approach(size - 1), AllCheck(threads), AllClaim(threads);
    actions := a + b + c;
    ApproachRun(size, threads, size - 1);
    var s := Run(size, START, a);
    AllCheckRun(size, threads, s, threads);
    AllClaimRun(size, threads, s.(ready := ThreadIds(threads)), threads);
    RunJoin(size, threads, START, a, b);
    RunJoin(size, threads, START, a + b, c);
  }

  lemma {:induction false} NothingReady(threads: nat, actions: seq<Action>)
    requires By(0, threads, START, actions)
    ensures Run(0, START, actions) == START
  {
    if actions != [] {
      NothingReady(threads, actions[..|actions| - 1]);
    }
  }

  /** No run asks the owner for an index past its end, exactly when one thread uses the iterator or
      there is nothing to iterate over. */
  lemma InRangeExactly(size: nat, threads: nat)
    requires threads >= 1
    ensures (forall actions :: By(size, threads, START, actions) ==> InRange(size, Run(size, START, actions))) <==>
            threads == 1 || size == 0
  {
    if threads == 1 || size == 0 {
      forall actions | By(size, threads, START, actions) ensures InRange(size, Run(size, START, actions)) {
        if size == 0 {
          NothingReady(threads, actions);
        } else {
          BoundedOvershoot(size, threads, actions);
        }
      }
    } else {
      var actions := WorstCase(size, threads);
      BoundedOvershoot(size, threads, actions);
      var claims := Run(size, START, actions).claims;
      assert claims[|claims| - 1] >= size;
    }
  }

  /** Once `hasNext` answers no, every element has been claimed; a single thread has then claimed each
      index below the size once and in order, and nothing else. */
  lemma NoMeansAllClaimed(size: nat, threads: nat, actions: seq<Action>)
    requires threads >= 1 && By(size, threads, START, actions) && !HasMore(size, Run(size, START, actions))
    ensures var claims := Run(size, START, actions).claims;
            && |claims| >= size
            && (forall i :: 0 <= i < size ==> claims[i] == i)
            && (threads == 1 ==> |claims| == size)
  {
    BoundedOvershoot(size, threads, actions);
  }

  // ---------- The object ----------

  /** Each call takes the step of the model for the thread that makes it; `ready` and `claims` record which
      calls were made. */
  class InnerIterator<E> {
    const owner: seq<E>
    var index: int
    ghost var ready: set<nat>
    ghost var claims: seq<int>

    ghost function View(): State
      reads this
    {
      State(index, ready, claims)
    }

    constructor (owner: seq<E>)
      ensures this.owner == owner && View() == START
    {
      this.owner, index := owner, -1;
      ready, claims := {}, [];
    }

    method HasNext(ghost thread: nat) returns (more: bool)
      modifies this`ready
      ensures View() == Step(|owner|, old(View()), Check(thread))
      ensures more <==> thread in View().ready
    {
      more := index < |owner| - 1;
      ready := if more then ready + {thread} else ready - {thread};
    }

    /** The element at the index claimed last; None stands for whatever the owner's `get` does past its
        end. */
    method Next(ghost thread: nat) returns (element: Option<E>)
      requires index >= -1
      modifies this
      ensures View() == Step(|owner|, old(View()), Claim(thread))
      ensures var i := claims[|claims| - 1]; element == if i < |owner| then Some(owner[i]) else None
    {
      index := index + 1;
      element := if index < |owner| then Some(owner[index]) else None;
      ready, claims := ready - {thread}, claims + [index];
    }
  }
}
