/** Flag masks: the generated `flag`/`contains` pair and the hand-written `RepositoryInitOptions`. */
module Flags {

  // ---------- Folds over a history ----------

  function Fold<W, C>(step: (W, C) -> W, w: W, calls: seq<C>): W {
    if calls == [] then w else step(Fold(step, w, calls[..|calls| - 1]), calls[|calls| - 1])
  }

  lemma FoldAppend<W, C>(step: (W, C) -> W, w: W, calls: seq<C>, c: C)
    ensures Fold(step, w, calls + [c]) == step(Fold(step, w, calls), c)
  {
    assert (calls + [c])[..|calls|] == calls;
  }

  /** A view of the word that follows each step follows the whole history. */
  lemma {:induction false} FoldView<W(!new), V, C(!new)>(
    step: (W, C) -> W, view: W -> V, viewed: (V, C) -> V, w: W, calls: seq<C>)
    requires forall x, c :: view(step(x, c)) == viewed(view(x), c)
    ensures view(Fold(step, w, calls)) == Fold(viewed, view(w), calls)
  {
    if calls != [] {
      FoldView(step, view, viewed, w, calls[..|calls| - 1]);
    }
  }

  /** If `mix` of the word with a pair absorbs each step into the pair, it absorbs the history. */
  lemma {:induction false} FoldMix<W(!new), C(!new)>(
    step: (W, C) -> W, keep: (W, C) -> W, mix: (W, W, W) -> W, all: W, none: W, w: W, calls: seq<C>)
    requires forall x :: mix(x, all, none) == x
    requires forall x, k, s, c :: step(mix(x, k, s), c) == mix(x, keep(k, c), step(s, c))
    ensures Fold(step, w, calls) == mix(w, Fold(keep, all, calls), Fold(step, none, calls))
  {
    if calls != [] {
      FoldMix(step, keep, mix, all, none, w, calls[..|calls| - 1]);
    }
  }

  /** `i` is the last call that `touches` accepts. */
  ghost predicate LastTouch<C>(touches: C -> bool, calls: seq<C>, i: int) {
    0 <= i < |calls| && touches(calls[i]) && forall j :: i < j < |calls| ==> !touches(calls[j])
  }

  lemma {:induction false} FoldOfOverwrites<V(!new), C(!new)>(
    step: (V, C) -> V, touches: C -> bool, value: C -> V, v: V, calls: seq<C>)
    requires forall x, c :: step(x, c) == if touches(c) then value(c) else x
    ensures forall i :: LastTouch(touches, calls, i) ==> Fold(step, v, calls) == value(calls[i])
    ensures (forall i :: 0 <= i < |calls| ==> !touches(calls[i])) ==> Fold(step, v, calls) == v
  {
    if calls != [] {
      var n := |calls| - 1;
      FoldOfOverwrites(step, touches, value, v, calls[..n]);
      assert forall i :: 0 <= i < n ==> calls[..n][i] == calls[i];
      forall i | LastTouch(touches, calls, i) ensures Fold(step, v, calls) == value(calls[i]) {
        if i < n {
          assert LastTouch(touches, calls[..n], i);
        }
      }
    }
  }

  // ---------- Masks ----------

  /** One call of `flag`: a mask of any number of bits, and whether it is switched on. */
  datatype Call = Call(mask: bv32, on: bool)

  function Apply(flags: bv32, c: Call): bv32 {
    if c.on then flags | c.mask else flags & !c.mask
  }

  function ApplyAll(flags: bv32, calls: seq<Call>): bv32 {
    Fold(Apply, flags, calls)
  }

  predicate Contains(flags: bv32, mask: bv32) {
    flags & mask == mask
  }

  /** A mask of exactly one bit. */
  predicate IsBit(b: bv32) {
    b != 0 && b & (b - 1) == 0
  }

  predicate Touches(c: Call, b: bv32) {
    c.mask & b != 0
  }

  lemma TouchedBitInside(b: bv32, mask: bv32)
    requires IsBit(b) && mask & b != 0
    ensures b & mask == b
  {
  }

  lemma ApplyOutside(flags: bv32, c: Call, b: bv32)
    requires c.mask & b == 0
    ensures Apply(flags, c) & b == flags & b
  {
  }

  lemma SetInside(x: bv32, m: bv32, b: bv32)
    requires b & m == b
    ensures (x | m) & b == b
  {
  }

  lemma ClearedInside(x: bv32, m: bv32, b: bv32)
    requires b & m == b
    ensures (x & !m) & b == 0
  {
  }

  lemma ApplyOnBit(flags: bv32, c: Call, b: bv32)
    requires IsBit(b)
    ensures Apply(flags, c) & b == if !Touches(c, b) then flags & b else if c.on then b else 0
  {
    if Touches(c, b) {
      TouchedBitInside(b, c.mask);
      SetInside(flags, c.mask, b);
      ClearedInside(flags, c.mask, b);
    } else {
      ApplyOutside(flags, c, b);
    }
  }

  /** After any calls, each bit holds the setting of the last call whose mask touches it, or else what
      it held at first. */
  lemma LastCallDecides(flags: bv32, calls: seq<Call>, b: bv32)
    requires IsBit(b)
    ensures forall i :: LastTouch(c => Touches(c, b), calls, i) ==>
                          ApplyAll(flags, calls) & b == if calls[i].on then b else 0
    ensures (forall i :: 0 <= i < |calls| ==> !Touches(calls[i], b)) ==> ApplyAll(flags, calls) & b == flags & b
  {
    var touches, value := (c: Call) => Touches(c, b), (c: Call) => if c.on then b else 0;
    var view, viewed := (x: bv32) => x & b, (v: bv32, c: Call) => if Touches(c, b) then (if c.on then b else 0) else v;
    forall x, c ensures view(Apply(x, c)) == viewed(view(x), c) {
      ApplyOnBit(x, c, b);
    }
    FoldView(Apply, view, viewed, flags, calls);
    FoldOfOverwrites(viewed, touches, value, view(flags), calls);
  }

  function KeepStep(kept: bv32, c: Call): bv32 {
    kept & !c.mask
  }

  function Mix(flags: bv32, keep: bv32, set_: bv32): bv32 {
    (flags & keep) | set_
  }

  /** The pair a history amounts to: the bits it keeps and the bits it sets. */
  function Kept(calls: seq<Call>): bv32 {
    Fold(KeepStep, 0xFFFF_FFFF, calls)
  }

  function SetBits(calls: seq<Call>): bv32 {
    ApplyAll(0, calls)
  }

  lemma NoCalls(flags: bv32)
    ensures Mix(flags, 0xFFFF_FFFF, 0) == flags
  {
  }

  lemma SwitchOn(x: bv32, y: bv32, m: bv32)
    ensures (x | y) | m == (x & !m) | (y | m)
  {
  }

  lemma SwitchOff(x: bv32, y: bv32, m: bv32)
    ensures (x | y) & !m == (x & !m) | (y & !m)
  {
  }

  lemma KeepLess(x: bv32, y: bv32, m: bv32)
    ensures (x & y) & !m == x & (y & !m)
  {
  }

  lemma OneMoreMask(x: bv32, keep: bv32, set_: bv32, c: Call)
    ensures Apply((x & keep) | set_, c) == (x & (keep & !c.mask)) | Apply(set_, c)
  {
    KeepLess(x, keep, c.mask);
    if c.on {
      SwitchOn(x & keep, set_, c.mask);
    } else {
      SwitchOff(x & keep, set_, c.mask);
    }
  }

  lemma OneMoreCall(x: bv32, keep: bv32, set_: bv32, c: Call)
    ensures Apply(Mix(x, keep, set_), c) == Mix(x, KeepStep(keep, c), Apply(set_, c))
  {
    OneMoreMask(x, keep, set_, c);
  }

  /** Any history is one keep-and-set, whatever the flags were. */
  lemma HistoryIsKeepAndSet(flags: bv32, calls: seq<Call>)
    ensures ApplyAll(flags, calls) == Mix(flags, Kept(calls), SetBits(calls))
  {
    forall x ensures Mix(x, 0xFFFF_FFFF, 0) == x {
      NoCalls(x);
    }
    forall x, k, s, c ensures Apply(Mix(x, k, s), c) == Mix(x, KeepStep(k, c), Apply(s, c)) {
      OneMoreCall(x, k, s, c);
    }
    FoldMix(Apply, KeepStep, Mix, 0xFFFF_FFFF, 0, flags, calls);
  }

  // ---------- contains ----------

  /** The lowest bit of a mask. */
  function LowestBit(m: bv32): bv32 {
    m & (!m + 1)
  }

  lemma LowestBitIsBit(m: bv32)
    requires m != 0
    ensures IsBit(LowestBit(m)) && LowestBit(m) & m == LowestBit(m) && LowestBit(m) != 0
  {
  }

  lemma MissingNotZero(flags: bv32, mask: bv32)
    requires flags & mask != mask
    ensures mask & !flags != 0
  {
  }

  /** A mask bit that the flags lack, for whatever finds a bit in a mask. */
  lemma FindMissing(flags: bv32, mask: bv32, isBit: bv32 -> bool, find: bv32 -> bv32) returns (b: bv32)
    requires flags & mask != mask
    requires forall m :: m != 0 ==> isBit(find(m)) && find(m) & m == find(m) && find(m) != 0
    ensures isBit(b) && b != 0 && b & (mask & !flags) == b
  {
    MissingNotZero(flags, mask);
    b := find(mask & !flags);
  }

  lemma InsideMissing(flags: bv32, mask: bv32, b: bv32)
    requires b != 0 && b & (mask & !flags) == b
    ensures b & mask == b && flags & b != b
  {
  }

  lemma MissingBit(flags: bv32, mask: bv32, isBit: bv32 -> bool, find: bv32 -> bv32) returns (b: bv32)
    requires flags & mask != mask
    requires forall m :: m != 0 ==> isBit(find(m)) && find(m) & m == find(m) && find(m) != 0
    ensures isBit(b) && b & mask == b && flags & b != b
  {
    b := FindMissing(flags, mask, isBit, find);
    InsideMissing(flags, mask, b);
  }

  lemma SubMask(flags: bv32, mask: bv32, b: bv32)
    requires flags & mask == mask && b & mask == b
    ensures flags & b == b
  {
  }

  /** `contains` holds exactly when every single bit of the mask is set. */
  lemma ContainsIsBitwise(flags: bv32, mask: bv32)
    ensures Contains(flags, mask) <==> forall b: bv32 :: IsBit(b) && b & mask == b ==> flags & b == b
  {
    if Contains(flags, mask) {
      forall b: bv32 | IsBit(b) && b & mask == b ensures flags & b == b {
        SubMask(flags, mask, b);
      }
    } else {
      forall m: bv32 | m != 0 ensures IsBit(LowestBit(m)) && LowestBit(m) & m == LowestBit(m) && LowestBit(m) != 0 {
        LowestBitIsBit(m);
      }
      var b := MissingBit(flags, mask, IsBit, LowestBit);
    }
  }

  // ---------- The generated interface, with its change callback ----------

  class FlagMask {
    var flags: bv32
    // The field of the C struct that `onFlagsChanged` writes, when there is such a callback.
    var raw: bv32
    const mirrored: bool
    ghost const start: bv32
    ghost var history: seq<Call>

    /** The flags are what the history makes of the first ones, and the struct agrees. */
    ghost predicate Valid()
      reads this
    {
      flags == ApplyAll(start, history) && (mirrored ==> raw == flags)
    }

    constructor (raw: bv32, mirrored: bool)
      ensures Valid() && flags == raw && history == [] && start == raw && this.mirrored == mirrored
    {
      flags, this.raw, this.mirrored, start, history := raw, raw, mirrored, raw, [];
    }

    method Flag(value: bv32, on: bool)
      requires Valid()
      modifies this
      ensures Valid() && history == old(history) + [Call(value, on)]
      ensures flags == Apply(old(flags), Call(value, on))
      ensures raw == if mirrored then flags else old(raw)
    {
      FoldAppend(Apply, start, history, Call(value, on));
      if on {
        SetFlags(flags | value);
      } else {
        SetFlags(flags & !value);
      }
      OnFlagsChanged(flags);
      history := history + [Call(value, on)];
    }

    method SetFlags(value: bv32)
      modifies this`flags
      ensures flags == value
    {
      flags := value;
    }

    method OnFlagsChanged(value: bv32)
      modifies this`raw
      ensures raw == if mirrored then value else old(raw)
    {
      if mirrored {
        raw := value;
      }
    }

    /** `value in this`, and through it every generated `has...`. */
    method Has(value: bv32) returns (has: bool)
      ensures has <==> Contains(flags, value)
    {
      has := flags & value == value;
    }
  }

  // ---------- RepositoryInitOptions ----------

  // GIT_REPOSITORY_INIT_MKDIR, _MKPATH and _EXTERNAL_TEMPLATE of libgit2: three different bits.
  const MKDIR: bv32 := 8
  const MKPATH: bv32 := 16
  const EXTERNAL_TEMPLATE: bv32 := 32

  /** The Kotlin field starts from the three masks combined with `and`, and the struct keeps whatever it
      had; only the setter writes the struct. */
  class RepositoryInitOptions {
    var flags: bv32
    var raw: bv32
    ghost const given: bv32
    ghost var history: seq<Call>

    ghost predicate Valid()
      reads this
    {
      && flags == ApplyAll(0, history)
      && raw == if history == [] then given else flags
    }

    constructor (raw: bv32)
      ensures Valid() && history == [] && given == raw
      // The two sides agree from the start exactly when the struct has no flag set.
      ensures flags == this.raw <==> raw == 0
    {
      flags, this.raw, given, history := MKDIR & MKPATH & EXTERNAL_TEMPLATE, raw, raw, [];
    }

    method SetFlags(value: bv32)
      modifies this`flags, this`raw
      ensures flags == value && raw == value
    {
      flags := value;
      raw := value;
    }

    /** From the first call on the struct equals the field, and what the struct had before is gone. */
    method Flag(value: bv32, on: bool)
      requires Valid()
      modifies this
      ensures Valid() && history == old(history) + [Call(value, on)]
      ensures raw == flags == Apply(old(flags), Call(value, on))
    {
      FoldAppend(Apply, 0, history, Call(value, on));
      if on {
        SetFlags(flags | value);
      } else {
        SetFlags(flags & !value);
      }
      history := history + [Call(value, on)];
    }
  }
}
