/** `IteratorBase`: an iterator that pulls from a foreign source into a look-ahead cache.

    The cache is a `NativeMutableList` made empty, so its `size` stays 0 and the look-ahead test of
    `hasNext` never succeeds: every `hasNext` pulls once.  `next` advances the index before it reads
    the cache. */
module CachedIterator {
  import opened Wrappers
  import NativeList

  /** One answer of `nextRaw`: an element, the IterOver code, or another error. */
  datatype Pull<E> = Got(element: E) | Over | Failed(error: string)

  datatype Call = HasNext | Next

  datatype Reply<E> = Yes | No | Threw(error: string) | Value(element: E) | OutOfBounds

  datatype State<E> = State(cache: seq<E>, size: nat, index: int, pulled: nat) {
    /** A `next` failed that no later element has made up for: even after one more pull `next` fails. */
    predicate Behind() {
      |cache| <= index
    }
  }

  type Source<!E> = nat -> Pull<E>

  function Fresh<E>(pulled: nat): State<E> {
    State([], 0, -1, pulled)
  }

  function Step<E>(source: Source<E>, s: State<E>, call: Call): (State<E>, Reply<E>) {
    match call
    case HasNext =>
      if s.index < s.size - 1 then (s, Yes)
      else
        var s' := s.(pulled := s.pulled + 1);
        (match source(s.pulled)
         case Got(e) => (s'.(cache := s.cache + [e]), Yes)
         case Over => (s', No)
         case Failed(error) => (s', Threw(error)))
    case Next =>
      var i := s.index + 1;
      (s.(index := i), if 0 <= i < |s.cache| then Value(s.cache[i]) else OutOfBounds)
  }

  /** `hasNext` answers from the cache alone exactly when the size says that there is a further element; otherwise it
      pulls once, which with the size stuck at 0 is always. */
  lemma LookAheadExactly<E>(source: Source<E>, s: State<E>)
    ensures var (next, reply) := Step(source, s, HasNext);
            if s.index + 1 < s.size then next == s && reply == Yes else next.pulled == s.pulled + 1
  {
  }

  function Run<E>(source: Source<E>, s: State<E>, calls: seq<Call>): (r: (State<E>, seq<Reply<E>>))
    ensures |r.1| == |calls|
  {
    if calls == [] then (s, [])
    else
      var before := Run(source, s, calls[..|calls| - 1]);
      var last := Step(source, before.0, calls[|calls| - 1]);
      (last.0, before.1 + [last.1])
  }

  /** The elements among the pulls `lo..hi` of the source. */
  function Successes<E>(source: Source<E>, lo: nat, hi: nat): seq<E>
    requires lo <= hi
    decreases hi
  {
    if lo == hi then []
    else Successes(source, lo, hi - 1) + (match source(hi - 1) case Got(e) => [e] case _ => [])
  }

  function Count(calls: seq<Call>, call: Call): nat {
    if calls == [] then 0
    else Count(calls[..|calls| - 1], call) + (if calls[|calls| - 1] == call then 1 else 0)
  }

  function Affirmed<E>(replies: seq<Reply<E>>): nat {
    if replies == [] then 0
    else Affirmed(replies[..|replies| - 1]) + (if replies[|replies| - 1].Yes? then 1 else 0)
  }

  function Delivered<E>(replies: seq<Reply<E>>): seq<E> {
    if replies == [] then []
    else
      var last := replies[|replies| - 1];
      Delivered(replies[..|replies| - 1]) + (if last.Value? then [last.element] else [])
  }

  lemma {:induction false} SuccessesExtend<E>(source: Source<E>, lo: nat, mid: nat, hi: nat)
    requires lo <= mid <= hi
    ensures |Successes(source, lo, mid)| <= |Successes(source, lo, hi)|
    ensures Successes(source, lo, mid) == Successes(source, lo, hi)[..|Successes(source, lo, mid)|]
  {
    if mid < hi {
      SuccessesExtend(source, lo, mid, hi - 1);
    }
  }

  lemma {:induction false} SuccessesJoin<E>(source: Source<E>, lo: nat, mid: nat, hi: nat)
    requires lo <= mid <= hi
    ensures Successes(source, lo, hi) == Successes(source, lo, mid) + Successes(source, mid, hi)
  {
    if mid < hi {
      SuccessesJoin(source, lo, mid, hi - 1);
    }
  }

  lemma {:induction false} SuccessesOfElements<E>(source: Source<E>, lo: nat, hi: nat)
    requires lo <= hi && forall i :: lo <= i < hi ==> source(i).Got?
    ensures |Successes(source, lo, hi)| == hi - lo
  {
    if lo < hi {
      SuccessesOfElements(source, lo, hi - 1);
    }
  }

  /** What the source has given when `calls` have been made from pull `p` on. */
  function PulledBy<E>(source: Source<E>, p: nat, calls: seq<Call>): seq<E> {
    Successes(source, p, p + Count(calls, HasNext))
  }

  /** The cache is what was pulled, and the index counts the `next`s. */
  function Reached<E>(source: Source<E>, p: nat, calls: seq<Call>): State<E> {
    State(PulledBy(source, p, calls), 0, Count(calls, Next) - 1, p + Count(calls, HasNext))
  }

  lemma ReachedStep<E>(source: Source<E>, p: nat, calls: seq<Call>)
    requires calls != []
    ensures var before := calls[..|calls| - 1];
            var (s, reply) := Step(source, Reached(source, p, before), calls[|calls| - 1]);
            && s == Reached(source, p, calls)
            && |PulledBy(source, p, calls)| == |PulledBy(source, p, before)| + (if reply.Yes? then 1 else 0)
  {
  }

  lemma AffirmedAppend<E>(replies: seq<Reply<E>>, r: Reply<E>)
    ensures Affirmed(replies + [r]) == Affirmed(replies) + (if r.Yes? then 1 else 0)
  {
    assert (replies + [r])[..|replies|] == replies;
  }

  /** For every history, every true `hasNext` has put an element into the cache. */
  lemma {:induction false} EveryHistory<E>(source: Source<E>, p: nat, calls: seq<Call>)
    ensures Run(source, Fresh<E>(p), calls).0 == Reached(source, p, calls)
    ensures Affirmed(Run(source, Fresh<E>(p), calls).1) == |PulledBy(source, p, calls)|
  {
    if calls != [] {
      var before, call := calls[..|calls| - 1], calls[|calls| - 1];
      EveryHistory(source, p, before);
      ReachedStep(source, p, calls);
      AffirmedAppend(Run(source, Fresh<E>(p), before).1, Step(source, Reached(source, p, before), call).1);
    }
  }

  /** The reply to `call` after `before`: `hasNext` makes the next pull, and the k-th `next` gives the
      k-th element of the source if it was pulled before, or else fails and is used up all the same. */
  function Expected<E>(source: Source<E>, p: nat, before: seq<Call>, call: Call): Reply<E> {
    var n, got := Count(before, Next), PulledBy(source, p, before);
    match call
    case Next => if n < |got| then Value(got[n]) else OutOfBounds
    case HasNext =>
      match source(p + Count(before, HasNext))
      case Got(_) => Yes
      case Over => No
      case Failed(error) => Threw(error)
  }

  lemma StepAsExpected<E>(source: Source<E>, p: nat, before: seq<Call>, call: Call)
    ensures Step(source, Reached(source, p, before), call).1 == Expected(source, p, before, call)
  {
  }

  lemma KthNext<E>(source: Source<E>, p: nat, calls: seq<Call>)
    requires calls != []
    ensures Run(source, Fresh(p), calls).1 ==
            Run(source, Fresh(p), calls[..|calls| - 1]).1
            + [Expected(source, p, calls[..|calls| - 1], calls[|calls| - 1])]
  {
    var before, call := calls[..|calls| - 1], calls[|calls| - 1];
    EveryHistory(source, p, before);
    StepAsExpected(source, p, before, call);
  }

  ghost predicate EnoughAffirmed<E>(source: Source<E>, p: nat, calls: seq<Call>) {
    Count(calls, Next) <= Affirmed(Run(source, Fresh<E>(p), calls).1)
  }

  /** Every `next` has a true `hasNext` of its own before it: at each point of the history there were
      at least as many true `hasNext`s as `next`s. */
  ghost predicate Disciplined<E>(source: Source<E>, p: nat, calls: seq<Call>) {
    calls != [] ==> Disciplined(source, p, calls[..|calls| - 1]) && EnoughAffirmed(source, p, calls)
  }

  ghost predicate NeverOutOfBounds<E>(replies: seq<Reply<E>>) {
    forall i :: 0 <= i < |replies| ==> !replies[i].OutOfBounds?
  }

  lemma NeverAppend<E>(replies: seq<Reply<E>>, r: Reply<E>)
    ensures NeverOutOfBounds(replies + [r]) <==> NeverOutOfBounds(replies) && !r.OutOfBounds?
  {
    var all := replies + [r];
    assert all[|replies|] == r;
    assert forall i :: 0 <= i < |replies| ==> all[i] == replies[i];
  }

  lemma EnoughIsPulled<E>(source: Source<E>, p: nat, calls: seq<Call>)
    ensures EnoughAffirmed(source, p, calls) <==> Count(calls, Next) <= |PulledBy(source, p, calls)|
  {
    EveryHistory(source, p, calls);
  }

  /** No `next` fails exactly when the history is disciplined. */
  lemma {:induction false} DisciplineIsWhatCounts<E>(source: Source<E>, p: nat, calls: seq<Call>)
    ensures Disciplined(source, p, calls) <==> NeverOutOfBounds(Run(source, Fresh(p), calls).1)
  {
    if calls != [] {
      var before := calls[..|calls| - 1];
      DisciplineIsWhatCounts(source, p, before);
      KthNext(source, p, calls);
      EnoughIsPulled(source, p, calls);
      EnoughIsPulled(source, p, before);
      NeverAppend(Run(source, Fresh<E>(p), before).1, Expected(source, p, before, calls[|calls| - 1]));
      assert before == [] ==> PulledBy(source, p, before) == [];
    }
  }

  lemma DeliveredAppend<E>(replies: seq<Reply<E>>, r: Reply<E>)
    ensures Delivered(replies + [r]) == Delivered(replies) + (if r.Value? then [r.element] else [])
  {
    assert (replies + [r])[..|replies|] == replies;
  }

  /** A disciplined history delivers the elements of the source in order, from the first on, without
      a skip or a repeat, one for each `next`. */
  lemma {:induction false} DeliversAPrefix<E>(source: Source<E>, p: nat, calls: seq<Call>)
    requires Disciplined(source, p, calls)
    ensures Count(calls, Next) <= |PulledBy(source, p, calls)|
    ensures Delivered(Run(source, Fresh(p), calls).1) == PulledBy(source, p, calls)[..Count(calls, Next)]
  {
    if calls != [] {
      var before, last := calls[..|calls| - 1], calls[|calls| - 1];
      DeliversAPrefix(source, p, before);
      EnoughIsPulled(source, p, calls);
      KthNext(source, p, calls);
      DeliveredAppend(Run(source, Fresh<E>(p), before).1, Expected(source, p, before, last));
      var n, got, all := Count(before, Next), PulledBy(source, p, before), PulledBy(source, p, calls);
      SuccessesExtend(source, p, p + Count(before, HasNext), p + Count(calls, HasNext));
      assert all[..n] == got[..n];
      if last == Next {
        assert all == got;
        assert all[..n + 1] == all[..n] + [all[n]];
      } else {
        assert got[..n] + [] == all[..n];
      }
    }
  }

  lemma WholePrefix<E>(s: seq<E>, n: nat)
    requires n <= |s|
    ensures s[..n] == s <==> n == |s|
  {
    assert |s[..n]| == n;
    assert s[..|s|] == s;
  }

  /** When the next `hasNext` answers no, the source is over, and every element pulled was delivered exactly if
      no true `hasNext` is without its `next`; under strict alternation this is so. */
  lemma NoMeansAllDelivered<E>(source: Source<E>, p: nat, calls: seq<Call>)
    requires Disciplined(source, p, calls)
    requires Expected(source, p, calls, HasNext).No?
    ensures source(p + Count(calls, HasNext)).Over?
    ensures Delivered(Run(source, Fresh<E>(p), calls).1) == PulledBy(source, p, calls) <==>
            Count(calls, Next) == Affirmed(Run(source, Fresh<E>(p), calls).1)
  {
    EveryHistory(source, p, calls);
    DeliversAPrefix(source, p, calls);
    WholePrefix(PulledBy(source, p, calls), Count(calls, Next));
  }

  // ---------- `list` ----------

  /** After elements have been pulled and asked for in turn, up to pull `hi`. */
  ghost function Relisted<E>(source: Source<E>, s: State<E>, hi: nat): State<E>
    requires s.pulled <= hi
  {
    s.(cache := s.cache + Successes(source, s.pulled, hi), index := s.index + hi - s.pulled, pulled := hi)
  }

  /** What `list` gives from state `s` on, and the state it leaves.  A source gives elements until pull `end`. */
  ghost function Listed<E>(source: Source<E>, s: State<E>, end: nat): (Result<seq<E>, Reply<E>>, State<E>)
    requires s.pulled <= end && -1 <= s.index
    requires forall i :: s.pulled <= i < end ==> source(i).Got?
  {
    var n := end - s.pulled;
    if s.Behind() && n > 0 then (Err(OutOfBounds), Relisted(source, s, s.pulled + 1))
    else
      var after := Relisted(source, s, end).(pulled := end + 1);
      SuccessesOfElements(source, s.pulled, end);
      (if source(end).Failed? then Err(Threw(source(end).error))
       else if s.Behind() then Ok([])
       else Ok(after.cache[s.index + 1..s.index + 1 + n]), after)
  }

  lemma SlicesGoOn<T>(s: seq<T>, t: seq<T>, k: nat)
    requires k <= |s|
    ensures var seen := s[..k] + (s + t)[k..k + |t|]; seen <= s + t && |s + t| - |seen| == |s| - k
  {
  }

  lemma ListedAhead<E>(source: Source<E>, s: State<E>, end: nat)
    requires -1 <= s.index && !s.Behind() && s.pulled <= end && source(end).Over?
    requires forall i :: s.pulled <= i < end ==> source(i).Got?
    ensures Listed(source, s, end).0.Ok?
    ensures var all := s.cache + Successes(source, s.pulled, end);
            var seen := s.cache[..s.index + 1] + Listed(source, s, end).0.value;
            seen <= all && |all| - |seen| == |s.cache| - (s.index + 1)
  {
    SuccessesOfElements(source, s.pulled, end);
    SlicesGoOn(s.cache, Successes(source, s.pulled, end), s.index + 1);
  }

  lemma ListAfterCalls<E>(source: Source<E>, p: nat, calls: seq<Call>, end: nat)
    requires Count(calls, Next) <= |PulledBy(source, p, calls)|
    requires p + Count(calls, HasNext) <= end && source(end).Over?
    requires forall i :: p + Count(calls, HasNext) <= i < end ==> source(i).Got?
    ensures Listed(source, Reached(source, p, calls), end).0.Ok?
    ensures var all, got := Successes(source, p, end), PulledBy(source, p, calls);
            var seen := got[..Count(calls, Next)] + Listed(source, Reached(source, p, calls), end).0.value;
            seen <= all && |all| - |seen| == |got| - Count(calls, Next)
  {
    SuccessesJoin(source, p, p + Count(calls, HasNext), end);
    ListedAhead(source, Reached(source, p, calls), end);
  }

  /** `list` goes on where a disciplined history stopped, in order and without a skip or a repeat, and misses as many
      elements at the end as there were true `hasNext`s without a `next`. */
  lemma ListGoesOn<E>(source: Source<E>, p: nat, calls: seq<Call>, end: nat)
    requires Disciplined(source, p, calls)
    requires p + Count(calls, HasNext) <= end && source(end).Over?
    requires forall i :: p + Count(calls, HasNext) <= i < end ==> source(i).Got?
    ensures Listed(source, Reached(source, p, calls), end).0.Ok?
    ensures var all := Successes(source, p, end);
            var listed := Listed(source, Reached(source, p, calls), end).0.value;
            var seen := Delivered(Run(source, Fresh<E>(p), calls).1) + listed;
            seen <= all && |all| - |seen| == Affirmed(Run(source, Fresh<E>(p), calls).1) - Count(calls, Next)
  {
    EveryHistory(source, p, calls);
    DeliversAPrefix(source, p, calls);
    ListAfterCalls(source, p, calls, end);
  }

  /** How `list` ends after any history: with the first `next` when more were asked for than pulled and an element is
      still to come, and otherwise as the source ends. */
  lemma ListEnds<E>(source: Source<E>, p: nat, calls: seq<Call>, end: nat)
    requires p + Count(calls, HasNext) <= end && !source(end).Got?
    requires forall i :: p + Count(calls, HasNext) <= i < end ==> source(i).Got?
    ensures var n, listed := end - p - Count(calls, HasNext), Listed(source, Reached(source, p, calls), end).0;
            if Count(calls, Next) > |PulledBy(source, p, calls)| && n > 0 then listed == Err(OutOfBounds)
            else if source(end).Over? then listed.Ok? && |listed.value| == n
            else listed == Err(Threw(source(end).error))
  {
    SuccessesOfElements(source, p + Count(calls, HasNext), end);
  }

  /** The state it leaves: as after one more `hasNext` and `next`, or after all that are still to come. */
  lemma ListLeaves<E>(source: Source<E>, p: nat, calls: seq<Call>, end: nat)
    requires p + Count(calls, HasNext) <= end && !source(end).Got?
    requires forall i :: p + Count(calls, HasNext) <= i < end ==> source(i).Got?
    ensures var middle, asked := p + Count(calls, HasNext), Count(calls, Next);
            var after := Listed(source, Reached(source, p, calls), end).1;
            if asked > |PulledBy(source, p, calls)| && middle < end then
              after == State(Successes(source, p, middle + 1), 0, asked, middle + 1)
            else
              after == State(Successes(source, p, end), 0, asked - 1 + end - middle, end + 1)
  {
    var middle := p + Count(calls, HasNext);
    SuccessesJoin(source, p, middle, end);
    if middle < end {
      SuccessesJoin(source, p, middle, middle + 1);
    }
  }

  /** `now` is reached from `s` by pulling and asking in turn, and `elements` are what `next` gave. */
  ghost predicate Listing<E>(source: Source<E>, s: State<E>, now: State<E>, elements: seq<E>) {
    && s.pulled <= now.pulled && now == Relisted(source, s, now.pulled)
    && -1 <= s.index && s.size == 0 && |now.cache| - |s.cache| == now.pulled - s.pulled
    && (s.Behind() ==> now == s)
    && elements == if s.Behind() then [] else now.cache[s.index + 1..now.index + 1]
  }

  lemma SliceExtend<T>(s: seq<T>, x: T, lo: nat, hi: nat)
    requires lo <= hi <= |s|
    ensures (s + [x])[lo..hi + 1] == s[lo..hi] + [(s + [x])[hi]]
  {
  }

  lemma ListingGoesOn<E>(source: Source<E>, s: State<E>, now: State<E>, elements: seq<E>)
    requires Listing(source, s, now, elements) && source(now.pulled).Got?
    ensures var (next, reply) := Step(source, Step(source, now, HasNext).0, Next);
            if s.Behind() then next == Relisted(source, s, s.pulled + 1) && reply.OutOfBounds?
            else reply.Value? && Listing(source, s, next, elements + [reply.element])
  {
    var got, e := Successes(source, s.pulled, now.pulled), source(now.pulled).element;
    assert Successes(source, s.pulled, now.pulled + 1) == got + [e];
    assert s.cache + (got + [e]) == now.cache + [e];
    if !s.Behind() {
      SliceExtend(now.cache, e, s.index + 1, now.index + 1);
    }
  }

  lemma ListingEnds<E>(source: Source<E>, s: State<E>, now: State<E>, elements: seq<E>)
    requires Listing(source, s, now, elements) && !source(now.pulled).Got?
    requires forall i :: s.pulled <= i < now.pulled ==> source(i).Got?
    ensures Listed(source, s, now.pulled) ==
            (if source(now.pulled).Failed? then Err(Threw(source(now.pulled).error)) else Ok(elements),
             now.(pulled := now.pulled + 1))
  {
  }

  // ---------- The object ----------

  class IteratorBase<E(==)> {
    const source: Source<E>
    const cache: NativeList.NativeMutableList<E>
    var index: int
    var pulled: nat

    ghost predicate Valid()
      reads this, cache
    {
      cache.Valid() && cache.size == 0 && -1 <= index
    }

    ghost function View(): State<E>
      reads this, cache
    {
      State(cache.ref.items, cache.size, index, pulled)
    }

    constructor (source: Source<E>)
      ensures Valid() && fresh(cache) && View() == Fresh(0) && this.source == source
    {
      this.source := source;
      cache := new NativeList.NativeMutableList();
      index, pulled := -1, 0;
    }

    method NextRaw() returns (pull: Pull<E>)
      modifies this`pulled
      ensures pull == source(old(pulled)) && pulled == old(pulled) + 1
    {
      pull, pulled := source(pulled), pulled + 1;
    }

    method HasNext() returns (reply: Reply<E>)
      requires Valid()
      modifies this`pulled, cache
      ensures Valid() && (View(), reply) == Step(source, old(View()), Call.HasNext)
    {
      if index < cache.size - 1 {
        return Yes;
      }
      var pull := NextRaw();
      match pull
      case Got(e) =>
        var _ := cache.Add(e);
        reply := Yes;
      case Over =>
        reply := No;
      case Failed(error) =>
        reply := Threw(error);
    }

    method Next() returns (reply: Reply<E>)
      requires Valid()
      modifies this`index
      ensures Valid() && (View(), reply) == Step(source, old(View()), Call.Next)
    {
      index := index + 1;
      var element := cache.Get(index);
      reply := match element case Some(e) => Value(e) case None => OutOfBounds;
    }

    /** The iterator starts over with the next pull. */
    method ResetCache()
      requires Valid()
      modifies this`index, cache
      ensures Valid() && View() == Fresh(pulled) && pulled == old(pulled)
    {
      cache.Clear();
      index := -1;
    }

    /** `list` at any point of any history, over a source that gives elements up to pull `end` and then ends, or
        whose first new element is already too late for `next`: every element not yet delivered but for those that a
        `hasNext` without its `next` left behind, the error that is not IterOver, or the failing `next`. */
    method List(ghost end: nat) returns (result: Result<seq<E>, Reply<E>>)
      requires Valid()
      requires pulled <= end && forall i :: pulled <= i < end ==> source(i).Got?
      requires !source(end).Got? || (pulled < end && View().Behind())
      modifies this, cache
      ensures Valid() && (result, View()) == Listed(source, old(View()), end)
    {
      var elements := [];
      ghost var s := View();
      while true
        invariant Valid() && pulled <= end && Listing(source, s, View(), elements)
        decreases end - pulled
      {
        ghost var now := View();
        var more := HasNext();
        match more
        case Yes =>
          ListingGoesOn(source, s, now, elements);
          var element := Next();
          if element.OutOfBounds? {
            return Err(element);
          }
          elements := elements + [element.element];
        case Threw(error) =>
          ListingEnds(source, s, now, elements);
          return Err(more);
        case _ =>
          ListingEnds(source, s, now, elements);
          return Ok(elements);
      }
    }
  }
}
