/** `NativeMutableList`: an immutable list behind a shared reference, swapped by an identity
    compare-and-set.  Each mutator takes three atomic steps: it reads the reference it expects, reads
    the reference again to compute the new list, and compares and sets once, without a retry. */
module NativeList {
  import opened Wrappers

  /** A list object: its identity and its elements. */
  datatype ListObject<E> = ListObject(id: nat, items: seq<E>)

  /** Identity of the object that every `emptyList()` returns. */
  const EMPTY_ID: nat := 0

  function EmptyList<E>(): ListObject<E> {
    ListObject(EMPTY_ID, [])
  }

  datatype Op<E> =
    | Add(element: E)
    | AddAll(elements: seq<E>)
    | Remove(unwanted: E)
    | RetainAll(keep: seq<E>)
    | Clear

  function Without<E(==)>(s: seq<E>, x: E): seq<E> {
    if s == [] then [] else if s[0] == x then s[1..] else [s[0]] + Without(s[1..], x)
  }

  function Retained<E(==)>(s: seq<E>, keep: seq<E>): seq<E> {
    if s == [] then [] else (if s[0] in keep then [s[0]] else []) + Retained(s[1..], keep)
  }

  /** `r` holds the elements of `s` at `positions`, in the order of `s`. */
  ghost predicate Picked<E>(s: seq<E>, positions: seq<nat>, r: seq<E>) {
    && |r| == |positions|
    && (forall k :: 0 <= k < |r| ==> positions[k] < |s| && r[k] == s[positions[k]])
    && forall k, l :: 0 <= k < l < |positions| ==> positions[k] < positions[l]
  }

  /** `positions` are those of the elements that `wanted` accepts. */
  ghost predicate Marked<E>(s: seq<E>, wanted: E -> bool, positions: seq<nat>) {
    forall i: nat :: i < |s| ==> (i in positions <==> wanted(s[i]))
  }

  /** `r` holds exactly the elements of `s` that `wanted` accepts, each as often as `s` and in the same order. */
  ghost predicate Filtered<E(!new)>(s: seq<E>, wanted: E -> bool, r: seq<E>) {
    exists positions :: Picked(s, positions, r) && Marked(s, wanted, positions)
  }

  /** The positions for a sequence with one more element in front. */
  function Shifted(head: bool, positions: seq<nat>): (r: seq<nat>) {
    (if head then [0] else []) + seq(|positions|, k requires 0 <= k < |positions| => positions[k] + 1)
  }

  lemma ShiftedHolds(head: bool, positions: seq<nat>, i: nat)
    ensures i in Shifted(head, positions) <==> if i == 0 then head else i - 1 in positions
  {
    var all, off := Shifted(head, positions), if head then 1 else 0;
    assert forall k :: 0 <= k < |positions| ==> all[k + off] == positions[k] + 1;
    assert forall k :: off <= k < |all| ==> all[k] == positions[k - off] + 1;
    if i > 0 && i - 1 in positions {
      var k :| 0 <= k < |positions| && positions[k] == i - 1;
      assert all[k + off] == i;
    }
  }

  lemma PickedCons<E>(s: seq<E>, positions: seq<nat>, r: seq<E>, head: bool)
    requires s != [] && Picked(s[1..], positions, r)
    ensures Picked(s, Shifted(head, positions), (if head then [s[0]] else []) + r)
  {
    var all, off := Shifted(head, positions), if head then 1 else 0;
    forall k | off <= k < |all| ensures all[k] < |s| && s[all[k]] == r[k - off] {
      assert s[1..][positions[k - off]] == r[k - off];
    }
  }

  /** One more element in front. */
  lemma FilteredCons<E(!new)>(s: seq<E>, wanted: E -> bool, r: seq<E>)
    requires s != [] && Filtered(s[1..], wanted, r)
    ensures Filtered(s, wanted, (if wanted(s[0]) then [s[0]] else []) + r)
  {
    var positions :| Picked(s[1..], positions, r) && Marked(s[1..], wanted, positions);
    PickedCons(s, positions, r, wanted(s[0]));
    forall i: nat | i < |s| ensures i in Shifted(wanted(s[0]), positions) <==> wanted(s[i]) {
      ShiftedHolds(wanted(s[0]), positions, i);
      assert i > 0 ==> s[i] == s[1..][i - 1];
    }
  }

  lemma {:induction false} RetainedIsFilter<E(!new)>(s: seq<E>, keep: seq<E>)
    ensures Filtered(s, x => x in keep, Retained(s, keep))
  {
    if s == [] {
      var none: seq<nat> := [];
      assert Picked(s, none, Retained(s, keep));
    } else {
      RetainedIsFilter(s[1..], keep);
      FilteredCons(s, x => x in keep, Retained(s[1..], keep));
    }
  }

  /** `r` is `s` without the element at `i`, the first that equals `x`. */
  ghost predicate RemovedAt<E>(s: seq<E>, x: E, i: int, r: seq<E>) {
    0 <= i < |s| && s[i] == x && x !in s[..i] && r == s[..i] + s[i + 1..]
  }

  lemma RemovedAtCons<E>(s: seq<E>, x: E, i: int, r: seq<E>)
    requires s != [] && s[0] != x && RemovedAt(s[1..], x, i, r)
    ensures RemovedAt(s, x, i + 1, [s[0]] + r)
  {
    assert s[..i + 1] == [s[0]] + s[1..][..i];
    assert s[i + 2..] == s[1..][i + 1..];
  }

  /** A removal takes out the first occurrence and nothing else. */
  lemma {:induction false} WithoutFirst<E>(s: seq<E>, x: E)
    ensures x !in s ==> Without(s, x) == s
    ensures x in s ==> exists i :: RemovedAt(s, x, i, Without(s, x))
  {
    if s != [] && s[0] == x {
      assert s[..0] + s[1..] == Without(s, x);
      assert RemovedAt(s, x, 0, Without(s, x));
    } else if s != [] {
      WithoutFirst(s[1..], x);
      assert s == [s[0]] + s[1..];
      if x in s[1..] {
        var i :| RemovedAt(s[1..], x, i, Without(s[1..], x));
        RemovedAtCons(s, x, i, Without(s[1..], x));
        assert RemovedAt(s, x, i + 1, Without(s, x));
      }
    }
  }

  /** The list a mutator computes from the one it reads. */
  function Apply<E(==)>(op: Op<E>, s: seq<E>): seq<E> {
    match op
    case Add(x) => s + [x]
    case AddAll(xs) => s + xs
    case Remove(x) => Without(s, x)
    case RetainAll(keep) => Retained(s, keep)
    case Clear => []
  }

  function ApplyAll<E(==)>(ops: seq<Op<E>>, s: seq<E>): seq<E> {
    if ops == [] then s else Apply(ops[|ops| - 1], ApplyAll(ops[..|ops| - 1], s))
  }

  predicate Grows<E>(op: Op<E>) {
    op.Add? || (op.AddAll? && op.elements != [])
  }

  // ---------- The three-step protocol under any number of threads ----------

  datatype Pc<E> =
    | Expecting(op: Op<E>, expected: ListObject<E>)
    | Ready(op: Op<E>, expected: ListObject<E>, update: ListObject<E>)

  datatype Attempt<E> = Attempt(thread: nat, op: Op<E>, succeeded: bool)

  datatype State<E> = State(
    current: ListObject<E>,
    nextId: nat,
    pcs: map<nat, Pc<E>>,
    attempts: seq<Attempt<E>>)

  datatype Action<E> =
    | Begin(thread: nat, op: Op<E>)
    | Compute(thread: nat)
    | CompareAndSet(thread: nat)

  /** One atomic step; an action its thread cannot take changes nothing. */
  function Step<E(==)>(s: State<E>, a: Action<E>): State<E> {
    var t := a.thread;
    match a
    case Begin(_, op) =>
      if t in s.pcs then s
      else s.(pcs := s.pcs[t := if op.Clear? then Ready(op, s.current, EmptyList()) else Expecting(op, s.current)])
    case Compute(_) =>
      if t !in s.pcs || !s.pcs[t].Expecting? then s
      else
        var pc := s.pcs[t];
        s.(nextId := s.nextId + 1,
           pcs := s.pcs[t := Ready(pc.op, pc.expected, ListObject(s.nextId, Apply(pc.op, s.current.items)))])
    case CompareAndSet(_) =>
      if t !in s.pcs || !s.pcs[t].Ready? then s
      else
        var pc := s.pcs[t];
        var ok := pc.expected.id == s.current.id;
        s.(current := if ok then pc.update else s.current,
           pcs := s.pcs - {t},
           attempts := s.attempts + [Attempt(t, pc.op, ok)])
  }

  function Run<E(==)>(s: State<E>, actions: seq<Action<E>>): State<E> {
    if actions == [] then s else Step(Run(s, actions[..|actions| - 1]), actions[|actions| - 1])
  }

  /** No thread inside a mutator; the list object is the one the constructor was given. */
  predicate Initial<E>(s: State<E>) {
    s.current.id < s.nextId && EMPTY_ID < s.nextId && (s.current.id == EMPTY_ID ==> s.current.items == []) &&
    s.pcs == map[] && s.attempts == []
  }

  /** The operations whose compare-and-set succeeded, in the order of their compare-and-sets. */
  function Published<E>(attempts: seq<Attempt<E>>): seq<Op<E>> {
    if attempts == [] then []
    else
      var last := attempts[|attempts| - 1];
      Published(attempts[..|attempts| - 1]) + (if last.succeeded then [last.op] else [])
  }

  /** No update was lost or invented: the published list is the fold of the successful operations. */
  ghost predicate NoLostUpdates<E>(start: State<E>, s: State<E>) {
    s.current.items == ApplyAll(Published(s.attempts), start.current.items)
  }

  ghost predicate Uses<E(!new)>(actions: seq<Action<E>>, allowed: iset<Op<E>>) {
    forall i :: 0 <= i < |actions| && actions[i].Begin? ==> actions[i].op in allowed
  }

  /** A program never clears a list it also grows. */
  ghost predicate NeverClearsWhatGrows<E(!new)>(allowed: iset<Op<E>>) {
    Clear in allowed ==> forall op :: op in allowed ==> !Grows(op)
  }

  // ---------- Invariant ----------

  /** Identities handed out before. */
  ghost predicate KnownIds<E>(s: State<E>) {
    && s.current.id < s.nextId && EMPTY_ID < s.nextId
    && (s.current.id == EMPTY_ID ==> s.current.items == [])
    && forall t :: t in s.pcs ==> s.pcs[t].expected.id < s.nextId && (s.pcs[t].Ready? ==> s.pcs[t].update.id < s.nextId)
  }

  /** An update that is not the shared empty list is known to its thread only. */
  ghost predicate Unpublished<E>(s: State<E>, t: nat)
    requires t in s.pcs && s.pcs[t].Ready?
  {
    var id := s.pcs[t].update.id;
    && id != s.current.id
    && forall u :: u in s.pcs ==> s.pcs[u].expected.id != id && (u != t && s.pcs[u].Ready? ==> s.pcs[u].update.id != id)
  }

  ghost predicate UpdateIsCurrent<E>(s: State<E>, t: nat)
    requires t in s.pcs && s.pcs[t].Ready?
  {
    var pc := s.pcs[t];
    && (pc.update.id == EMPTY_ID <==> pc.op.Clear?)
    && (pc.op.Clear? ==> pc.update == EmptyList())
    && (pc.expected.id == s.current.id ==> pc.update.items == Apply(pc.op, s.current.items))
  }

  /** Once a thread that never grows the list saw it empty, it stays empty. */
  ghost predicate StaysEmpty<E>(s: State<E>) {
    forall t :: t in s.pcs && s.pcs[t].expected.id == EMPTY_ID ==>
      s.current.items == [] && !Grows(s.pcs[t].op) && (s.pcs[t].Ready? ==> s.pcs[t].update.items == [])
  }

  ghost predicate Inv<E(!new)>(s: State<E>, allowed: iset<Op<E>>) {
    && KnownIds(s)
    && (forall t :: t in s.pcs ==> s.pcs[t].op in allowed && (s.pcs[t].Expecting? ==> !s.pcs[t].op.Clear?))
    && (forall t :: t in s.pcs && s.pcs[t].Ready? ==> UpdateIsCurrent(s, t))
    && (forall t :: t in s.pcs && s.pcs[t].Ready? && s.pcs[t].update.id != EMPTY_ID ==> Unpublished(s, t))
    && (Clear in allowed ==> StaysEmpty(s))
  }

  lemma NothingFromNothing<E>(op: Op<E>)
    requires !Grows(op)
    ensures Apply(op, []) == []
  {
  }

  lemma BeginKeepsInv<E(!new)>(s: State<E>, t: nat, op: Op<E>, allowed: iset<Op<E>>)
    requires Inv(s, allowed) && NeverClearsWhatGrows(allowed) && op in allowed
    ensures Inv(Step(s, Begin(t, op)), allowed)
  {
    var s' := Step(s, Begin(t, op));
    forall u | u in s'.pcs && s'.pcs[u].Ready? ensures UpdateIsCurrent(s', u) {
      if u in s.pcs {
        assert UpdateIsCurrent(s, u);
      }
    }
    forall u | u in s'.pcs && s'.pcs[u].Ready? && s'.pcs[u].update.id != EMPTY_ID ensures Unpublished(s', u) {
      assert Unpublished(s, u);
    }
  }

  lemma ComputeKeepsInv<E(!new)>(s: State<E>, t: nat, allowed: iset<Op<E>>)
    requires Inv(s, allowed) && NeverClearsWhatGrows(allowed)
    ensures Inv(Step(s, Compute(t)), allowed)
  {
    var s' := Step(s, Compute(t));
    if t in s.pcs && s.pcs[t].Expecting? {
      if s.pcs[t].expected.id == EMPTY_ID && s.current.items == [] && !Grows(s.pcs[t].op) {
        NothingFromNothing(s.pcs[t].op);
      }
      forall u | u in s'.pcs && s'.pcs[u].Ready? ensures UpdateIsCurrent(s', u) {
        assert u != t ==> UpdateIsCurrent(s, u);
      }
      forall u | u in s'.pcs && s'.pcs[u].Ready? && s'.pcs[u].update.id != EMPTY_ID ensures Unpublished(s', u) {
        assert u != t ==> Unpublished(s, u);
      }
    }
  }

  lemma CasKeepsInv<E(!new)>(s: State<E>, t: nat, allowed: iset<Op<E>>)
    requires Inv(s, allowed) && NeverClearsWhatGrows(allowed)
    ensures Inv(Step(s, CompareAndSet(t)), allowed)
  {
    var s' := Step(s, CompareAndSet(t));
    if t in s.pcs && s.pcs[t].Ready? {
      assert UpdateIsCurrent(s, t);
      forall u | u in s'.pcs && s'.pcs[u].Ready? ensures UpdateIsCurrent(s', u) {
        assert UpdateIsCurrent(s, u);
        if s.pcs[t].update.id != EMPTY_ID {
          assert Unpublished(s, t);
        } else if s.pcs[u].expected.id == EMPTY_ID {
          NothingFromNothing(s.pcs[u].op);
        }
      }
      forall u | u in s'.pcs && s'.pcs[u].Ready? && s'.pcs[u].update.id != EMPTY_ID ensures Unpublished(s', u) {
        assert Unpublished(s, u);
      }
    }
  }

  // ---------- Theorems over every run ----------

  lemma PublishedAppend<E>(attempts: seq<Attempt<E>>, a: Attempt<E>)
    ensures Published(attempts + [a]) == Published(attempts) + (if a.succeeded then [a.op] else [])
  {
    assert (attempts + [a])[..|attempts|] == attempts;
  }

  lemma ApplyAllAppend<E>(ops: seq<Op<E>>, op: Op<E>, s: seq<E>)
    ensures ApplyAll(ops + [op], s) == Apply(op, ApplyAll(ops, s))
  {
    assert (ops + [op])[..|ops|] == ops;
  }

  lemma CasFolds<E(!new)>(start: State<E>, s: State<E>, t: nat, allowed: iset<Op<E>>)
    requires Inv(s, allowed) && NoLostUpdates(start, s)
    ensures NoLostUpdates(start, Step(s, CompareAndSet(t)))
  {
    if t in s.pcs && s.pcs[t].Ready? {
      var s' := Step(s, CompareAndSet(t));
      assert UpdateIsCurrent(s, t);
      var ok := s.pcs[t].expected.id == s.current.id;
      PublishedAppend(s.attempts, Attempt(t, s.pcs[t].op, ok));
      ApplyAllAppend(Published(s.attempts), s.pcs[t].op, start.current.items);
      assert Published(s.attempts) + [] == Published(s.attempts);
    }
  }

  lemma {:induction false} RunKeepsInv<E(!new)>(start: State<E>, actions: seq<Action<E>>, allowed: iset<Op<E>>)
    requires Initial(start) && Uses(actions, allowed) && NeverClearsWhatGrows(allowed)
    ensures Inv(Run(start, actions), allowed) && NoLostUpdates(start, Run(start, actions))
  {
    if actions != [] {
      var before, a := actions[..|actions| - 1], actions[|actions| - 1];
      RunKeepsInv(start, before, allowed);
      var s := Run(start, before);
      match a {
        case Begin(t, op) => BeginKeepsInv(s, t, op, allowed);
        case Compute(t) => ComputeKeepsInv(s, t, allowed);
        case CompareAndSet(t) =>
          CasKeepsInv(s, t, allowed);
          CasFolds(start, s, t, allowed);
      }
    }
  }

  /** Two threads append while a third clears: the first append installs the list it computed from
      elements that the clear has removed. */
  function LosingRun<E>(op: Op<E>): seq<Action<E>> {
    [Begin(0, op),
     Begin(1, op), Compute(1), CompareAndSet(1),
     Compute(0),
     Begin(2, Clear), CompareAndSet(2),
     CompareAndSet(0)]
  }

  function EmptyState<E>(): State<E> {
    State(EmptyList(), 1, map[], [])
  }

  lemma RunPrefix<E>(s: State<E>, r: seq<Action<E>>, n: nat)
    requires 0 < n <= |r|
    ensures Run(s, r[..n]) == Step(Run(s, r[..n - 1]), r[n - 1])
  {
    assert r[..n][..n - 1] == r[..n - 1];
  }

  lemma BothExpectEmpty<E>(op: Op<E>)
    requires Grows(op)
    ensures Run(EmptyState(), LosingRun(op)[..2]) ==
            EmptyState().(pcs := map[0 := Expecting(op, EmptyList()), 1 := Expecting(op, EmptyList())])
  {
    var s, r := EmptyState<E>(), LosingRun(op);
    assert r[..0] == [];
    RunPrefix(s, r, 1);
    RunPrefix(s, r, 2);
  }

  lemma OneAppends<E>(s: State<E>, op: Op<E>)
    requires s == EmptyState().(pcs := map[0 := Expecting(op, EmptyList()), 1 := Expecting(op, EmptyList())])
    ensures Step(Step(s, Compute(1)), CompareAndSet(1)) ==
            State(ListObject(1, Apply(op, [])), 2, map[0 := Expecting(op, EmptyList())], [Attempt(1, op, true)])
  {
    assert Step(s, Compute(1)).pcs - {1} == map[0 := Expecting(op, EmptyList())];
  }

  lemma LosingRunStarts<E>(op: Op<E>)
    requires Grows(op)
    ensures Run(EmptyState(), LosingRun(op)[..4]) ==
            State(ListObject(1, Apply(op, [])), 2, map[0 := Expecting(op, EmptyList())], [Attempt(1, op, true)])
  {
    var s, r := EmptyState<E>(), LosingRun(op);
    BothExpectEmpty(op);
    RunPrefix(s, r, 3);
    RunPrefix(s, r, 4);
    OneAppends(Run(s, r[..2]), op);
  }

  lemma LosingRunEnds<E>(op: Op<E>)
    requires Grows(op)
    ensures Run(EmptyState(), LosingRun(op)).current.items == Apply(op, Apply(op, []))
    ensures Run(EmptyState(), LosingRun(op)).attempts ==
            [Attempt(1, op, true)] + [Attempt(2, Clear, true)] + [Attempt(0, op, true)]
  {
    var s, r := EmptyState<E>(), LosingRun(op);
    var one, two := ListObject(1, Apply(op, [])), ListObject(2, Apply(op, Apply(op, [])));
    LosingRunStarts(op);
    RunPrefix(s, r, 5);
    assert Run(s, r[..5]) == State(one, 3, map[0 := Ready(op, EmptyList(), two)], [Attempt(1, op, true)]);
    RunPrefix(s, r, 6);
    RunPrefix(s, r, 7);
    var s7 := Run(s, r[..7]);
    assert s7.current == EmptyList() && s7.pcs[0] == Ready(op, EmptyList(), two);
    RunPrefix(s, r, 8);
    assert r[..8] == r;
  }

  lemma LosingRunLoses<E>(op: Op<E>)
    requires Grows(op)
    ensures !NoLostUpdates(EmptyState(), Run(EmptyState(), LosingRun(op)))
  {
    LosingRunEnds(op);
    var first := [Attempt(1, op, true)];
    PublishedAppend([], Attempt(1, op, true));
    assert [] + first == first && [] + [op] == [op];
    PublishedAppend(first, Attempt(2, Clear, true));
    PublishedAppend(first + [Attempt(2, Clear, true)], Attempt(0, op, true));
    assert Published(first + [Attempt(2, Clear, true)] + [Attempt(0, op, true)]) == [op] + [Clear] + [op];
    ApplyAllAppend([op], Clear, []);
    ApplyAllAppend([op] + [Clear], op, []);
    assert |Apply(op, Apply(op, []))| > |Apply(op, [])|;
  }

  /** In every run of every program over the allowed operations no update is lost, exactly when the
      program does not clear a list that it also grows. */
  lemma NoLostUpdatesExactly<E(!new)>(allowed: iset<Op<E>>)
    ensures
      (forall start: State<E>, actions :: Initial(start) && Uses(actions, allowed) ==>
          NoLostUpdates(start, Run(start, actions)))
      <==> NeverClearsWhatGrows(allowed)
  {
    if NeverClearsWhatGrows(allowed) {
      forall start: State<E>, actions | Initial(start) && Uses(actions, allowed)
        ensures NoLostUpdates(start, Run(start, actions))
      {
        RunKeepsInv(start, actions, allowed);
      }
    } else {
      var op :| op in allowed && Grows(op);
      LosingRunLoses(op);
      assert Initial(EmptyState<E>()) && Uses(LosingRun(op), allowed);
    }
  }

  /** The three steps of a mutator that no other thread interrupts. */
  function Alone<E(==)>(s: State<E>, t: nat, op: Op<E>): State<E> {
    Step(Step(Step(s, Begin(t, op)), Compute(t)), CompareAndSet(t))
  }

  /** A mutator that no other thread interrupts succeeds on the list it finds. */
  lemma UninterruptedSucceeds<E>(s: State<E>, t: nat, op: Op<E>)
    requires t !in s.pcs
    ensures var s' := Alone(s, t, op);
            && s'.current.items == Apply(op, s.current.items)
            && s'.pcs == s.pcs
            && s'.attempts == s.attempts + [Attempt(t, op, true)]
  {
    var s1 := Step(s, Begin(t, op));
    assert s1.pcs - {t} == s.pcs;
    var s2 := Step(s1, Compute(t));
    assert s2.pcs - {t} == s.pcs;
  }

  // ---------- The object as one thread uses it: every mutator is the run `Alone` ----------

  class NativeMutableList<E(==)> {
    var ref: ListObject<E>
    var nextId: nat
    // The delegate of `List<E> by ref.value` is fixed at construction, and with it `size`.
    const size: nat

    ghost predicate Valid()
      reads this
    {
      Initial(View())
    }

    /** The shared state between two calls. */
    ghost function View(): State<E>
      reads this
    {
      State(ref, nextId, map[], [])
    }

    /** The shared state after `op` alone. */
    ghost function After(op: Op<E>): State<E>
      reads this
    {
      Alone(View(), 0, op).(attempts := [])
    }

    constructor ()
      ensures Valid() && ref == EmptyList() && size == 0
    {
      ref, nextId, size := EmptyList(), EMPTY_ID + 1, 0;
    }

    constructor From(items: seq<E>)
      ensures Valid() && ref.items == items && size == |items|
    {
      ref, nextId, size := ListObject(EMPTY_ID + 1, items), EMPTY_ID + 2, |items|;
    }

    method NewList(items: seq<E>) returns (list: ListObject<E>)
      requires Valid()
      modifies this`nextId
      ensures Valid() && list == ListObject(old(nextId), items) && nextId == old(nextId) + 1
    {
      list, nextId := ListObject(nextId, items), nextId + 1;
    }

    method CompareAndSet(expected: ListObject<E>, update: ListObject<E>) returns (ok: bool)
      modifies this`ref
      ensures ok == (old(ref).id == expected.id)
      ensures ref == if ok then update else old(ref)
    {
      ok := ref.id == expected.id;
      if ok {
        ref := update;
      }
    }

    /** Returns the list that was there. */
    method CompareAndSwap(expected: ListObject<E>, update: ListObject<E>) returns (was: ListObject<E>)
      modifies this`ref
      ensures was == old(ref)
      ensures ref == if was.id == expected.id then update else was
    {
      was := ref;
      if was.id == expected.id {
        ref := update;
      }
    }

    method Add(element: E) returns (ok: bool)
      requires Valid()
      modifies this
      ensures Valid() && ok && ref.items == old(ref.items) + [element]
      ensures View() == old(After(Op.Add(element)))
    {
      UninterruptedSucceeds(View(), 0, Op.Add(element));
      var expected := ref;
      var update := NewList(ref.items + [element]);
      ok := CompareAndSet(expected, update);
    }

    method AddAll(elements: seq<E>) returns (ok: bool)
      requires Valid()
      modifies this
      ensures Valid() && ok && ref.items == old(ref.items) + elements
      ensures View() == old(After(Op.AddAll(elements)))
    {
      UninterruptedSucceeds(View(), 0, Op.AddAll(elements));
      var expected := ref;
      var update := NewList(ref.items + elements);
      ok := CompareAndSet(expected, update);
    }

    /** The answer compares the old length with the frozen `size`, not with the new length. */
    method Remove(element: E) returns (changed: bool)
      requires Valid()
      modifies this
      ensures Valid() && ref.items == Without(old(ref.items), element)
      ensures View() == old(After(Op.Remove(element)))
      ensures changed <==> |old(ref.items)| != size
    {
      UninterruptedSucceeds(View(), 0, Op.Remove(element));
      var expected := ref;
      var update := NewList(Without(ref.items, element));
      var was := CompareAndSwap(expected, update);
      changed := |was.items| != size;
    }

    method RetainAll(elements: seq<E>) returns (changed: bool)
      requires Valid()
      modifies this
      ensures Valid() && ref.items == Retained(old(ref.items), elements)
      ensures View() == old(After(Op.RetainAll(elements)))
      ensures changed <==> |old(ref.items)| != size
    {
      UninterruptedSucceeds(View(), 0, Op.RetainAll(elements));
      var expected := ref;
      var update := NewList(Retained(ref.items, elements));
      var was := CompareAndSwap(expected, update);
      changed := |was.items| != size;
    }

    method Clear()
      requires Valid()
      modifies this
      ensures Valid() && ref == EmptyList()
      ensures View() == old(After(Op.Clear))
    {
      UninterruptedSucceeds(View(), 0, Op.Clear);
      var _ := CompareAndSwap(ref, EmptyList());
    }

    /** The live list is read, whatever `size` says; None stands for the out-of-bounds exception. */
    method Get(index: int) returns (element: Option<E>)
      ensures element == if 0 <= index < |ref.items| then Some(ref.items[index]) else None
    {
      element := if 0 <= index < |ref.items| then Some(ref.items[index]) else None;
    }
  }
}
