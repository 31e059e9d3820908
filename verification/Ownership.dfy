/** Ownership of native memory under any interleaving: `Raw.free`, `Raw.move`, the cleaner of every
    wrapper, the second cleaner of callback wrappers, and `Memory.free`.

    A run is a list of actions of agents, each of which executes one call.  An agent takes one atomic
    step at a time; the two compare-and-sets on `freed` and `isFreed` decide who goes on. */
module Ownership {
  import opened Wrappers

  /** Which Memory each Raw was made with, which Raws have a `beforeFree`, and which Memories are also
      freed by someone who is not their Raw. */
  datatype Config = Config(memoryOf: nat -> nat, hooked: set<nat>, scoped: set<nat>)

  datatype Call =
    | Free(raw: nat) | Move(raw: nat)
    | BaseCleaner(raw: nat) | CallbackCleaner(raw: nat)
    | FreeMemory(memory: nat) | Alloc(memory: nat)

  datatype Pc =
    | AtDispose(raw: nat) | AtFree(raw: nat) | AtHook(raw: nat) | AtMove(raw: nat)
    | AtMemory(memory: nat) | AtArenaCheck(memory: nat) | AtClear(memory: nat) | AtAlloc(memory: nat)

  datatype Event = WonFree(raw: nat) | WonMove(raw: nat) | Before(raw: nat) | Disposed(raw: nat) | Cleared(memory: nat)

  datatype State = State(
    freed: set<nat>,
    memoryFreed: set<nat>,
    arenas: set<nat>,
    begun: set<Call>,
    pcs: map<nat, Pc>,
    log: seq<Event>)

  const START := State({}, {}, {}, {}, map[], [])

  datatype Action = Begin(agent: nat, call: Call) | Advance(agent: nat)

  /** A cleaner runs once; the other calls may come any number of times. */
  predicate MayBegin(cfg: Config, s: State, a: nat, call: Call) {
    && a !in s.pcs
    && match call
       case FreeMemory(m) => m in cfg.scoped
       case BaseCleaner(_) => call !in s.begun
       case CallbackCleaner(_) => call !in s.begun
       case _ => true
  }

  function Entry(call: Call): Pc {
    match call
    case Free(r) => AtFree(r)
    case Move(r) => AtMove(r)
    case BaseCleaner(r) => AtFree(r)
    case CallbackCleaner(r) => AtDispose(r)
    case FreeMemory(m) => AtMemory(m)
    case Alloc(m) => AtAlloc(m)
  }

  /** One atomic step of agent `a`, which is at `pc`. */
  function Proceed(cfg: Config, s: State, a: nat, pc: Pc): State {
    var done := s.(pcs := s.pcs - {a});
    match pc
    case AtDispose(r) => s.(pcs := s.pcs[a := AtFree(r)], log := s.log + [Disposed(r)])
    case AtFree(r) =>
      if r in s.freed then done
      else s.(freed := s.freed + {r}, pcs := s.pcs[a := AtHook(r)], log := s.log + [WonFree(r)])
    case AtHook(r) =>
      s.(pcs := s.pcs[a := AtMemory(cfg.memoryOf(r))],
         log := s.log + (if r in cfg.hooked then [Before(r)] else []))
    case AtMove(r) =>
      if r in s.freed then done else done.(freed := s.freed + {r}, log := s.log + [WonMove(r)])
    case AtMemory(m) =>
      if m in s.memoryFreed then done
      else s.(memoryFreed := s.memoryFreed + {m}, pcs := s.pcs[a := AtArenaCheck(m)])
    case AtArenaCheck(m) => if m in s.arenas then s.(pcs := s.pcs[a := AtClear(m)]) else done
    case AtClear(m) => done.(log := s.log + [Cleared(m)])
    case AtAlloc(m) => done.(arenas := s.arenas + {m})
  }

  function Step(cfg: Config, s: State, action: Action): State {
    match action
    case Begin(a, call) =>
      if !MayBegin(cfg, s, a, call) then s
      else s.(pcs := s.pcs[a := Entry(call)], begun := s.begun + {call})
    case Advance(a) => if a in s.pcs then Proceed(cfg, s, a, s.pcs[a]) else s
  }

  function Run(cfg: Config, s: State, actions: seq<Action>): State {
    if actions == [] then s else Step(cfg, Run(cfg, s, actions[..|actions| - 1]), actions[|actions| - 1])
  }

  // ---------- Invariant ----------

  predicate Once(log: seq<Event>) {
    forall i, j :: 0 <= i < j < |log| ==> log[i] != log[j]
  }

  /** Positions that at most one agent is ever at. */
  predicate Exclusive(pc: Pc) {
    pc.AtDispose? || pc.AtHook? || pc.AtArenaCheck? || pc.AtClear?
  }

  predicate SameTurn(p: Pc, q: Pc) {
    || p == q
    || (p.AtArenaCheck? && q.AtClear? && p.memory == q.memory)
    || (p.AtClear? && q.AtArenaCheck? && p.memory == q.memory)
  }

  /** What the position of an agent says about the shared state. */
  predicate Justified(s: State, pc: Pc) {
    match pc
    case AtDispose(r) => CallbackCleaner(r) in s.begun && Disposed(r) !in s.log
    case AtHook(r) => WonFree(r) in s.log && Before(r) !in s.log
    case AtArenaCheck(m) => m in s.memoryFreed && Cleared(m) !in s.log
    case AtClear(m) => m in s.memoryFreed && m in s.arenas && Cleared(m) !in s.log
    case _ => true
  }

  ghost predicate LogFits(cfg: Config, s: State) {
    && (forall r :: r in s.freed <==> WonFree(r) in s.log || WonMove(r) in s.log)
    && (forall r :: WonFree(r) in s.log ==> WonMove(r) !in s.log)
    && (forall r :: Before(r) in s.log ==> WonFree(r) in s.log && r in cfg.hooked)
    && (forall r :: Disposed(r) in s.log ==> CallbackCleaner(r) in s.begun)
    && (forall m :: Cleared(m) in s.log ==> m in s.memoryFreed && m in s.arenas)
  }

  ghost predicate Inv(cfg: Config, s: State) {
    && Once(s.log)
    && LogFits(cfg, s)
    && (forall a :: a in s.pcs ==> Justified(s, s.pcs[a]))
    && (forall a, b :: a in s.pcs && b in s.pcs && Exclusive(s.pcs[a]) && SameTurn(s.pcs[a], s.pcs[b]) ==> a == b)
  }

  lemma OnceAppend(log: seq<Event>, e: Event)
    requires Once(log) && e !in log
    ensures Once(log + [e])
  {
    assert forall i :: 0 <= i < |log| ==> log[i] in log;
  }

  lemma BeginKeepsInv(cfg: Config, s: State, a: nat, call: Call)
    requires Inv(cfg, s)
    ensures Inv(cfg, Step(cfg, s, Begin(a, call)))
  {
    var s' := Step(cfg, s, Begin(a, call));
    forall b | b in s'.pcs ensures Justified(s', s'.pcs[b]) {
      assert b in s.pcs ==> Justified(s, s.pcs[b]);
    }
    if MayBegin(cfg, s, a, call) && call.CallbackCleaner? {
      forall b | b in s.pcs ensures s.pcs[b] != AtDispose(call.raw) {
        assert Justified(s, s.pcs[b]);
      }
    }
  }

  lemma AdvanceKeepsLog(cfg: Config, s: State, a: nat)
    requires Inv(cfg, s) && a in s.pcs
    ensures Once(Step(cfg, s, Advance(a)).log) && LogFits(cfg, Step(cfg, s, Advance(a)))
  {
    var s' := Step(cfg, s, Advance(a));
    assert Justified(s, s.pcs[a]);
    if s'.log != s.log {
      OnceAppend(s.log, s'.log[|s.log|]);
      assert s'.log == s.log + [s'.log[|s.log|]];
    }
  }

  lemma AdvanceKeepsOthers(cfg: Config, s: State, a: nat, b: nat)
    requires Inv(cfg, s) && a in s.pcs && b in s.pcs && a != b
    ensures Justified(Step(cfg, s, Advance(a)), s.pcs[b])
  {
    assert Justified(s, s.pcs[a]) && Justified(s, s.pcs[b]);
    assert !(Exclusive(s.pcs[a]) && SameTurn(s.pcs[a], s.pcs[b]));
  }

  lemma AdvanceKeepsInv(cfg: Config, s: State, a: nat)
    requires Inv(cfg, s)
    ensures Inv(cfg, Step(cfg, s, Advance(a)))
  {
    if a in s.pcs {
      var s' := Step(cfg, s, Advance(a));
      AdvanceKeepsLog(cfg, s, a);
      assert Justified(s, s.pcs[a]);
      forall b | b in s'.pcs ensures Justified(s', s'.pcs[b]) {
        if b != a {
          AdvanceKeepsOthers(cfg, s, a, b);
        }
      }
      forall b | b in s'.pcs && b != a && Exclusive(s.pcs[b]) ensures a in s'.pcs ==> !SameTurn(s.pcs[b], s'.pcs[a]) {
        assert Justified(s, s.pcs[b]);
      }
    }
  }

  // ---------- Theorems over every run ----------

  lemma {:induction false} RunKeepsInv(cfg: Config, actions: seq<Action>)
    ensures Inv(cfg, Run(cfg, START, actions))
  {
    if actions != [] {
      var before, last := actions[..|actions| - 1], actions[|actions| - 1];
      RunKeepsInv(cfg, before);
      match last {
        case Begin(a, call) => BeginKeepsInv(cfg, Run(cfg, START, before), a, call);
        case Advance(a) => AdvanceKeepsInv(cfg, Run(cfg, START, before), a);
      }
    }
  }

  /** `RawWrapperBase.raw`: the object, or the exception for one that was freed or moved. */
  function Guarded(s: State, r: nat): Result<nat, string> {
    if r in s.freed then Err("This object has been freed") else Ok(r)
  }

  /** At most one free or move wins; `beforeFree` runs at most once and never after a move won; every
      stable reference is disposed and every arena cleared at most once, however many Raws share it;
      and the getter refuses exactly the Raws for which somebody won. */
  lemma OwnershipOverAllRuns(cfg: Config, actions: seq<Action>, r: nat)
    ensures var s := Run(cfg, START, actions);
            && Once(s.log)
            && !(WonFree(r) in s.log && WonMove(r) in s.log)
            && (Before(r) in s.log ==> WonFree(r) in s.log && WonMove(r) !in s.log && r in cfg.hooked)
            && (Guarded(s, r).Err? <==> WonFree(r) in s.log || WonMove(r) in s.log)
            && (Cleared(cfg.memoryOf(r)) in s.log ==> cfg.memoryOf(r) in s.memoryFreed && cfg.memoryOf(r) in s.arenas)
  {
    RunKeepsInv(cfg, actions);
  }

  lemma {:induction false} RefusedEverAfter(cfg: Config, s: State, actions: seq<Action>, r: nat)
    requires Guarded(s, r).Err?
    ensures Guarded(Run(cfg, s, actions), r).Err?
  {
    if actions != [] {
      RefusedEverAfter(cfg, s, actions[..|actions| - 1], r);
    }
  }

  // ---------- Completion ----------

  ghost predicate SomeoneAt(s: State, pc: Pc) {
    exists a :: a in s.pcs && s.pcs[a] == pc
  }

  /** A free that won is carried through: an agent is still at it or it is done. */
  ghost predicate CarriedThrough(cfg: Config, s: State, r: nat) {
    WonFree(r) in s.log ==>
      || SomeoneAt(s, AtHook(r))
      || (&& (r in cfg.hooked ==> Before(r) in s.log)
          && (cfg.memoryOf(r) in s.memoryFreed || SomeoneAt(s, AtMemory(cfg.memoryOf(r)))))
  }

  lemma StaysAt(cfg: Config, s: State, action: Action, pc: Pc)
    requires SomeoneAt(s, pc) && !(action.Advance? && action.agent in s.pcs && s.pcs[action.agent] == pc)
    ensures SomeoneAt(Step(cfg, s, action), pc)
  {
    var a :| a in s.pcs && s.pcs[a] == pc;
    assert a in Step(cfg, s, action).pcs && Step(cfg, s, action).pcs[a] == pc;
  }

  lemma StepCarriesThrough(cfg: Config, s: State, action: Action, r: nat)
    requires Inv(cfg, s) && CarriedThrough(cfg, s, r)
    ensures CarriedThrough(cfg, Step(cfg, s, action), r)
  {
    var s' := Step(cfg, s, action);
    var a, hook, mem := action.agent, AtHook(r), AtMemory(cfg.memoryOf(r));
    if action.Advance? && a in s.pcs && s.pcs[a] == AtFree(r) && r !in s.freed {
      assert s'.pcs[a] == hook;
    } else if action.Advance? && a in s.pcs && s.pcs[a] == hook {
      assert s'.pcs[a] == mem;
    } else if action.Advance? && a in s.pcs && s.pcs[a] == mem {
      assert cfg.memoryOf(r) in s'.memoryFreed;
      if SomeoneAt(s, hook) {
        StaysAt(cfg, s, action, hook);
      }
    } else {
      if SomeoneAt(s, hook) {
        StaysAt(cfg, s, action, hook);
      }
      if SomeoneAt(s, mem) {
        StaysAt(cfg, s, action, mem);
      }
    }
  }

  /** When no call is under way, every Raw that was freed has had its `beforeFree` and its Memory is
      freed. */
  lemma {:induction false} FreeCompletes(cfg: Config, actions: seq<Action>, r: nat)
    ensures var s := Run(cfg, START, actions);
            && CarriedThrough(cfg, s, r)
            && (s.pcs == map[] && WonFree(r) in s.log ==>
                  (r in cfg.hooked ==> Before(r) in s.log) && cfg.memoryOf(r) in s.memoryFreed)
  {
    if actions != [] {
      var before, last := actions[..|actions| - 1], actions[|actions| - 1];
      FreeCompletes(cfg, before, r);
      RunKeepsInv(cfg, before);
      StepCarriesThrough(cfg, Run(cfg, START, before), last, r);
    }
  }

  predicate Called(s: State, r: nat) {
    Free(r) in s.begun || Move(r) in s.begun || BaseCleaner(r) in s.begun || CallbackCleaner(r) in s.begun
  }

  /** A call on `r` is still under way or has settled who owns it, and a callback cleaner has disposed. */
  ghost predicate Attended(s: State, r: nat) {
    && (Called(s, r) ==>
          r in s.freed || SomeoneAt(s, AtFree(r)) || SomeoneAt(s, AtMove(r)) || SomeoneAt(s, AtDispose(r)))
    && (CallbackCleaner(r) in s.begun ==> Disposed(r) in s.log || SomeoneAt(s, AtDispose(r)))
  }

  lemma StaysOrMoves(cfg: Config, s: State, action: Action, pc: Pc)
    ensures SomeoneAt(s, pc) ==>
              || SomeoneAt(Step(cfg, s, action), pc)
              || (action.Advance? && action.agent in s.pcs && s.pcs[action.agent] == pc)
  {
    if SomeoneAt(s, pc) && !(action.Advance? && action.agent in s.pcs && s.pcs[action.agent] == pc) {
      StaysAt(cfg, s, action, pc);
    }
  }

  lemma StepAttends(cfg: Config, s: State, action: Action, r: nat)
    requires Attended(s, r)
    ensures Attended(Step(cfg, s, action), r)
  {
    var s', a := Step(cfg, s, action), action.agent;
    if action.Begin? && MayBegin(cfg, s, a, action.call) {
      assert s'.pcs[a] == Entry(action.call);
    } else if action.Advance? && a in s.pcs && s.pcs[a] == AtDispose(r) {
      assert s'.pcs[a] == AtFree(r) && Disposed(r) in s'.log;
    }
    StaysOrMoves(cfg, s, action, AtFree(r));
    StaysOrMoves(cfg, s, action, AtMove(r));
    StaysOrMoves(cfg, s, action, AtDispose(r));
  }

  /** When no call is under way, exactly one free or move has won on every Raw that any of the calls or
      cleaners was started on, and every callback cleaner that was started has disposed. */
  lemma {:induction false} CallsComplete(cfg: Config, actions: seq<Action>, r: nat)
    ensures var s := Run(cfg, START, actions);
            && Attended(s, r)
            && (s.pcs == map[] && Called(s, r) ==> (WonFree(r) in s.log <==> WonMove(r) !in s.log))
            && (s.pcs == map[] && CallbackCleaner(r) in s.begun ==> Disposed(r) in s.log)
  {
    RunKeepsInv(cfg, actions);
    if actions != [] {
      CallsComplete(cfg, actions[..|actions| - 1], r);
      StepAttends(cfg, Run(cfg, START, actions[..|actions| - 1]), actions[|actions| - 1], r);
    }
  }

  // ---------- Causes ----------

  /** Somebody freed the Raw, or a cleaner ran for it. */
  predicate FreeAsked(s: State, r: nat) {
    Free(r) in s.begun || BaseCleaner(r) in s.begun || CallbackCleaner(r) in s.begun
  }

  /** Somebody freed the Memory, or a free won on a Raw made with it. */
  ghost predicate MemoryAsked(cfg: Config, s: State, m: nat) {
    FreeMemory(m) in s.begun || exists r: nat :: WonFree(r) in s.log && cfg.memoryOf(r) == m
  }

  /** Every agent is where a call has brought it. */
  ghost predicate SentBy(cfg: Config, s: State, pc: Pc) {
    match pc
    case AtFree(r) => FreeAsked(s, r)
    case AtMove(r) => Move(r) in s.begun
    case AtMemory(m) => MemoryAsked(cfg, s, m)
    case AtAlloc(m) => Alloc(m) in s.begun
    case _ => true
  }

  ghost predicate Caused(cfg: Config, s: State) {
    && (forall a :: a in s.pcs ==> SentBy(cfg, s, s.pcs[a]))
    && (forall r: nat :: WonFree(r) in s.log ==> FreeAsked(s, r))
    && (forall r: nat :: WonMove(r) in s.log ==> Move(r) in s.begun)
    && (forall m :: m in s.memoryFreed ==> MemoryAsked(cfg, s, m))
    && (forall m :: m in s.arenas ==> Alloc(m) in s.begun)
  }

  lemma CausesStay(cfg: Config, s: State, s': State)
    requires s.begun <= s'.begun && forall e :: e in s.log ==> e in s'.log
    ensures forall m :: MemoryAsked(cfg, s, m) ==> MemoryAsked(cfg, s', m)
    ensures forall pc :: SentBy(cfg, s, pc) ==> SentBy(cfg, s', pc)
  {
    forall m | MemoryAsked(cfg, s, m) ensures MemoryAsked(cfg, s', m) {
      if FreeMemory(m) !in s.begun {
        var r: nat :| WonFree(r) in s.log && cfg.memoryOf(r) == m;
        assert WonFree(r) in s'.log;
      }
    }
  }

  lemma StepKeepsCauses(cfg: Config, s: State, action: Action)
    requires Inv(cfg, s) && Caused(cfg, s)
    ensures Caused(cfg, Step(cfg, s, action))
  {
    var s', a := Step(cfg, s, action), action.agent;
    CausesStay(cfg, s, s');
    if action.Advance? && a in s.pcs {
      assert SentBy(cfg, s, s.pcs[a]) && Justified(s, s.pcs[a]);
      if s.pcs[a].AtHook? {
        assert WonFree(s.pcs[a].raw) in s'.log;
        assert SentBy(cfg, s', s'.pcs[a]);
      }
    }
    forall b | b in s'.pcs ensures SentBy(cfg, s', s'.pcs[b]) {
      assert b != a ==> b in s.pcs && SentBy(cfg, s, s.pcs[b]);
    }
  }

  lemma {:induction false} EverythingIsCaused(cfg: Config, actions: seq<Action>)
    ensures Caused(cfg, Run(cfg, START, actions))
  {
    if actions != [] {
      var before, last := actions[..|actions| - 1], actions[|actions| - 1];
      EverythingIsCaused(cfg, before);
      RunKeepsInv(cfg, before);
      StepKeepsCauses(cfg, Run(cfg, START, before), last);
    }
  }

  /** Once no call is under way, a Raw that was freed or whose wrapper was collected, and that nobody moved, has
      been freed: its hook was run and its Memory freed.  A Raw that was only moved keeps its hook and is not freed. */
  lemma CleanedIsFreed(cfg: Config, actions: seq<Action>, r: nat)
    requires Run(cfg, START, actions).pcs == map[]
    ensures var s := Run(cfg, START, actions);
            && (FreeAsked(s, r) && Move(r) !in s.begun ==>
                  && WonFree(r) in s.log
                  && (Before(r) in s.log <==> r in cfg.hooked)
                  && cfg.memoryOf(r) in s.memoryFreed)
            && (Move(r) in s.begun && !FreeAsked(s, r) ==> WonMove(r) in s.log && Before(r) !in s.log)
            && (Guarded(s, r).Err? <==> Called(s, r))
            && (Disposed(r) in s.log <==> CallbackCleaner(r) in s.begun)
  {
    RunKeepsInv(cfg, actions);
    CallsComplete(cfg, actions, r);
    FreeCompletes(cfg, actions, r);
    EverythingIsCaused(cfg, actions);
  }

  /** A call on the Memory itself is still under way or has had its effect. */
  ghost predicate MemoryAttended(s: State, m: nat) {
    && (FreeMemory(m) in s.begun ==> m in s.memoryFreed || SomeoneAt(s, AtMemory(m)))
    && (Alloc(m) in s.begun ==> m in s.arenas || SomeoneAt(s, AtAlloc(m)))
  }

  lemma StepAttendsMemory(cfg: Config, s: State, action: Action, m: nat)
    requires MemoryAttended(s, m)
    ensures MemoryAttended(Step(cfg, s, action), m)
  {
    if action.Begin? && MayBegin(cfg, s, action.agent, action.call) {
      assert Step(cfg, s, action).pcs[action.agent] == Entry(action.call);
    }
    StaysOrMoves(cfg, s, action, AtMemory(m));
    StaysOrMoves(cfg, s, action, AtAlloc(m));
  }

  lemma {:induction false} MemoryCallsComplete(cfg: Config, actions: seq<Action>, m: nat)
    ensures MemoryAttended(Run(cfg, START, actions), m)
  {
    if actions != [] {
      MemoryCallsComplete(cfg, actions[..|actions| - 1], m);
      StepAttendsMemory(cfg, Run(cfg, START, actions[..|actions| - 1]), actions[|actions| - 1], m);
    }
  }

  /** Once no call is under way, a Memory is freed exactly when it was freed by name or a free won on a Raw made
      with it, and has an arena exactly when something was allocated. */
  lemma MemorySettledExactly(cfg: Config, actions: seq<Action>, m: nat)
    requires Run(cfg, START, actions).pcs == map[]
    ensures var s := Run(cfg, START, actions);
            && (m in s.memoryFreed <==> MemoryAsked(cfg, s, m))
            && (m in s.arenas <==> Alloc(m) in s.begun)
  {
    var s := Run(cfg, START, actions);
    EverythingIsCaused(cfg, actions);
    MemoryCallsComplete(cfg, actions, m);
    if MemoryAsked(cfg, s, m) && FreeMemory(m) !in s.begun {
      var r: nat :| WonFree(r) in s.log && cfg.memoryOf(r) == m;
      FreeCompletes(cfg, actions, r);
    }
  }

  /** Whatever others are doing, an idle agent may begin any call, but for a cleaner that ran before and the free of
      a Memory without a scope. */
  lemma BeginsExactly(cfg: Config, s: State, a: nat, call: Call)
    ensures var s', cleaner := Step(cfg, s, Begin(a, call)), call.BaseCleaner? || call.CallbackCleaner?;
            if a in s.pcs || (cleaner && call in s.begun) || (call.FreeMemory? && call.memory !in cfg.scoped) then
              s' == s
            else
              && a in s'.pcs && s'.begun == s.begun + {call}
              && forall b :: b in s.pcs ==> b in s'.pcs && s'.pcs[b] == s.pcs[b]
  {
  }

  // ---------- Arenas ----------

  /** An arena that was set up before its Memory was freed is on its way to be cleared, or cleared. */
  ghost predicate ArenaTracked(s: State, m: nat) {
    m in s.arenas &&
    (m in s.memoryFreed ==> SomeoneAt(s, AtArenaCheck(m)) || SomeoneAt(s, AtClear(m)) || Cleared(m) in s.log)
  }

  lemma StepTracksArena(cfg: Config, s: State, action: Action, m: nat)
    requires ArenaTracked(s, m)
    ensures ArenaTracked(Step(cfg, s, action), m)
  {
    var s', a := Step(cfg, s, action), action.agent;
    if action.Advance? && a in s.pcs {
      if s.pcs[a] == AtMemory(m) && m !in s.memoryFreed {
        assert s'.pcs[a] == AtArenaCheck(m);
      } else if s.pcs[a] == AtArenaCheck(m) {
        assert s'.pcs[a] == AtClear(m);
      }
    }
    StaysOrMoves(cfg, s, action, AtArenaCheck(m));
    StaysOrMoves(cfg, s, action, AtClear(m));
  }

  /** No leak: from any state with the arena set up and its Memory not yet freed, once the Memory has been
      freed and no call is under way, the arena has been cleared. */
  lemma {:induction false} ArenaClearCompletes(cfg: Config, s: State, actions: seq<Action>, m: nat)
    requires m in s.arenas && m !in s.memoryFreed
    ensures var s' := Run(cfg, s, actions);
            ArenaTracked(s', m) && (s'.pcs == map[] && m in s'.memoryFreed ==> Cleared(m) in s'.log)
  {
    if actions != [] {
      ArenaClearCompletes(cfg, s, actions[..|actions| - 1], m);
      StepTracksArena(cfg, Run(cfg, s, actions[..|actions| - 1]), actions[|actions| - 1], m);
    }
  }

  /** Some free of the Memory looked for its arena and found none. */
  predicate FoundNoArena(cfg: Config, actions: seq<Action>, m: nat) {
    actions != [] &&
    var before, last := actions[..|actions| - 1], actions[|actions| - 1];
    var s := Run(cfg, START, before);
    || FoundNoArena(cfg, before, m)
    || (last.Advance? && last.agent in s.pcs && s.pcs[last.agent] == AtArenaCheck(m) && m !in s.arenas)
  }

  /** A freed Memory has its arena check ahead, or its clear ahead, or was cleared, or found no arena; and
      finding none rules out the others for good. */
  ghost predicate ArenaSettled(s: State, m: nat, foundNone: bool) {
    && (m in s.memoryFreed <==>
        foundNone || SomeoneAt(s, AtArenaCheck(m)) || SomeoneAt(s, AtClear(m)) || Cleared(m) in s.log)
    && (foundNone ==> !SomeoneAt(s, AtArenaCheck(m)) && !SomeoneAt(s, AtClear(m)) && Cleared(m) !in s.log)
  }

  lemma ComesFrom(cfg: Config, s: State, action: Action, pc: Pc)
    requires SomeoneAt(Step(cfg, s, action), pc) && (pc.AtArenaCheck? || pc.AtClear?)
    ensures || SomeoneAt(s, pc)
            || (action.Advance? && action.agent in s.pcs && Step(cfg, s, action).pcs[action.agent] == pc)
  {
    var s' := Step(cfg, s, action);
    var b :| b in s'.pcs && s'.pcs[b] == pc;
    assert b != action.agent ==> b in s.pcs && s.pcs[b] == pc;
  }

  /** Nobody else is at the check or the clear of a Memory while one agent is. */
  lemma OneAtATime(cfg: Config, s: State, a: nat, m: nat)
    requires Inv(cfg, s) && a in s.pcs && (s.pcs[a] == AtArenaCheck(m) || s.pcs[a] == AtClear(m))
    ensures SomeoneAt(s, AtArenaCheck(m)) <==> s.pcs[a] == AtArenaCheck(m)
    ensures SomeoneAt(s, AtClear(m)) <==> s.pcs[a] == AtClear(m)
    ensures Cleared(m) !in s.log && m in s.memoryFreed
  {
    assert Justified(s, s.pcs[a]);
    if SomeoneAt(s, AtArenaCheck(m)) {
      var b :| b in s.pcs && s.pcs[b] == AtArenaCheck(m);
      assert SameTurn(s.pcs[a], s.pcs[b]);
    }
    if SomeoneAt(s, AtClear(m)) {
      var b :| b in s.pcs && s.pcs[b] == AtClear(m);
      assert SameTurn(s.pcs[a], s.pcs[b]);
    }
  }

  lemma LeavesTurn(cfg: Config, s: State, a: nat, m: nat)
    requires Inv(cfg, s) && a in s.pcs && (s.pcs[a] == AtArenaCheck(m) || s.pcs[a] == AtClear(m))
    ensures var s' := Step(cfg, s, Advance(a));
            && !SomeoneAt(s', AtArenaCheck(m))
            && (SomeoneAt(s', AtClear(m)) <==> s.pcs[a] == AtArenaCheck(m) && m in s.arenas)
            && (Cleared(m) in s'.log <==> s.pcs[a] == AtClear(m))
            && m in s'.memoryFreed
  {
    var s' := Step(cfg, s, Advance(a));
    OneAtATime(cfg, s, a, m);
    if SomeoneAt(s', AtArenaCheck(m)) {
      var b :| b in s'.pcs && s'.pcs[b] == AtArenaCheck(m);
      assert b in s.pcs && SameTurn(s.pcs[a], s.pcs[b]);
    }
    if SomeoneAt(s', AtClear(m)) {
      var b :| b in s'.pcs && s'.pcs[b] == AtClear(m);
      assert b != a ==> b in s.pcs && SameTurn(s.pcs[a], s.pcs[b]);
    }
    if s.pcs[a] == AtArenaCheck(m) && m in s.arenas {
      assert s'.pcs[a] == AtClear(m);
    }
  }

  lemma StepSettles(cfg: Config, s: State, action: Action, m: nat, foundNone: bool)
    requires Inv(cfg, s) && ArenaSettled(s, m, foundNone)
    ensures ArenaSettled(Step(cfg, s, action), m,
              || foundNone
              || (action.Advance? && action.agent in s.pcs && s.pcs[action.agent] == AtArenaCheck(m) && m !in s.arenas))
  {
    var s', a := Step(cfg, s, action), action.agent;
    if action.Advance? && a in s.pcs && (s.pcs[a] == AtArenaCheck(m) || s.pcs[a] == AtClear(m)) {
      OneAtATime(cfg, s, a, m);
      LeavesTurn(cfg, s, a, m);
    } else {
      if action.Advance? && a in s.pcs && s.pcs[a] == AtMemory(m) && m !in s.memoryFreed {
        assert s'.pcs[a] == AtArenaCheck(m);
      }
      StaysOrMoves(cfg, s, action, AtArenaCheck(m));
      StaysOrMoves(cfg, s, action, AtClear(m));
      if SomeoneAt(s', AtArenaCheck(m)) {
        ComesFrom(cfg, s, action, AtArenaCheck(m));
      }
      if SomeoneAt(s', AtClear(m)) {
        ComesFrom(cfg, s, action, AtClear(m));
      }
    }
  }

  /** When no call is under way and a Memory is freed, its arena was cleared exactly when no free of it found
      that no arena had been set up: an arena set up by a later allocation is never cleared. */
  lemma {:induction false} ArenaClearedExactly(cfg: Config, actions: seq<Action>, m: nat)
    ensures ArenaSettled(Run(cfg, START, actions), m, FoundNoArena(cfg, actions, m))
    ensures var s := Run(cfg, START, actions);
            s.pcs == map[] && m in s.memoryFreed ==> (Cleared(m) in s.log <==> !FoundNoArena(cfg, actions, m))
  {
    if actions != [] {
      var before, last := actions[..|actions| - 1], actions[|actions| - 1];
      ArenaClearedExactly(cfg, before, m);
      RunKeepsInv(cfg, before);
      StepSettles(cfg, Run(cfg, START, before), last, m, FoundNoArena(cfg, before, m));
    }
  }

  lemma RunThen(cfg: Config, s: State, actions: seq<Action>, n: nat)
    requires 0 < n <= |actions|
    ensures Run(cfg, s, actions[..n]) == Step(cfg, Run(cfg, s, actions[..n - 1]), actions[n - 1])
  {
    assert actions[..n][..n - 1] == actions[..n - 1];
  }

  // ---------- Calls that nobody interrupts ----------

  /** One agent makes a call and carries it through; steps after its end change nothing. */
  function Alone(call: Call): seq<Action> {
    [Begin(0, call), Advance(0), Advance(0), Advance(0), Advance(0), Advance(0), Advance(0)]
  }

  lemma AloneSteps(cfg: Config, s: State, call: Call)
    ensures Run(cfg, s, Alone(call)) ==
            Step(cfg, Step(cfg, Step(cfg, Step(cfg, Step(cfg, Step(cfg, Step(cfg, s, Begin(0, call)),
              Advance(0)), Advance(0)), Advance(0)), Advance(0)), Advance(0)), Advance(0))
  {
    var run := Alone(call);
    assert run[..0] == [];
    RunThen(cfg, s, run, 1);
    RunThen(cfg, s, run, 2);
    RunThen(cfg, s, run, 3);
    RunThen(cfg, s, run, 4);
    RunThen(cfg, s, run, 5);
    RunThen(cfg, s, run, 6);
    RunThen(cfg, s, run, 7);
    assert run[..7] == run;
  }

  /** The events of freeing a Memory that is in state `s`. */
  function MemoryEvents(s: State, m: nat): seq<Event> {
    if m !in s.memoryFreed && m in s.arenas then [Cleared(m)] else []
  }

  /** From the compare-and-set on `isFreed` on, agent 0 alone. */
  lemma FreesMemory(cfg: Config, s: State, m: nat)
    requires s.pcs == map[0 := AtMemory(m)]
    ensures Step(cfg, Step(cfg, Step(cfg, s, Advance(0)), Advance(0)), Advance(0)) ==
            s.(pcs := map[], memoryFreed := s.memoryFreed + {m}, log := s.log + MemoryEvents(s, m))
  {
    var s1 := Step(cfg, s, Advance(0));
    if m in s.memoryFreed {
      assert s.memoryFreed + {m} == s.memoryFreed && s1.pcs == map[];
    } else {
      assert s1.pcs == map[0 := AtArenaCheck(m)];
      var s2 := Step(cfg, s1, Advance(0));
      assert m in s.arenas ==> s2.pcs == map[0 := AtClear(m)];
      assert m !in s.arenas ==> s2.pcs == map[];
    }
    assert s.log + [] == s.log;
  }

  lemma FreeMemoryAlone(cfg: Config, s: State, m: nat)
    requires s.pcs == map[] && m in cfg.scoped
    ensures Run(cfg, s, Alone(FreeMemory(m))) ==
            s.(begun := s.begun + {FreeMemory(m)},
               memoryFreed := s.memoryFreed + {m},
               log := s.log + MemoryEvents(s, m))
  {
    AloneSteps(cfg, s, FreeMemory(m));
    FreesMemory(cfg, Step(cfg, s, Begin(0, FreeMemory(m))), m);
  }

  /** The events of freeing a Raw that is in state `s`. */
  function FreeEvents(cfg: Config, s: State, r: nat): seq<Event> {
    if r in s.freed then []
    else [WonFree(r)] + (if r in cfg.hooked then [Before(r)] else []) + MemoryEvents(s, cfg.memoryOf(r))
  }

  /** What a free that nobody interrupts makes of a state. */
  function AfterFree(cfg: Config, s: State, r: nat): State {
    if r in s.freed then s
    else
      s.(freed := s.freed + {r},
         memoryFreed := s.memoryFreed + {cfg.memoryOf(r)},
         log := s.log + FreeEvents(cfg, s, r))
  }

  /** From the compare-and-set on `freed` on, agent 0 alone. */
  lemma FreesRaw(cfg: Config, s: State, r: nat)
    requires s.pcs == map[0 := AtFree(r)]
    ensures Step(cfg, Step(cfg, Step(cfg, Step(cfg, Step(cfg, s,
              Advance(0)), Advance(0)), Advance(0)), Advance(0)), Advance(0)) ==
            AfterFree(cfg, s, r).(pcs := map[])
  {
    var s1 := Step(cfg, s, Advance(0));
    if r in s.freed {
      assert s1.pcs == map[];
    } else {
      var s2, m := Step(cfg, s1, Advance(0)), cfg.memoryOf(r);
      assert s2.pcs == map[0 := AtMemory(m)];
      FreesMemory(cfg, s2, m);
      var hook := if r in cfg.hooked then [Before(r)] else [];
      assert s.log + [WonFree(r)] + hook + MemoryEvents(s, m) == s.log + ([WonFree(r)] + hook + MemoryEvents(s, m));
    }
  }

  lemma FreeAlone(cfg: Config, s: State, r: nat)
    requires s.pcs == map[]
    ensures Run(cfg, s, Alone(Free(r))) == AfterFree(cfg, s, r).(begun := s.begun + {Free(r)})
  {
    AloneSteps(cfg, s, Free(r));
    FreesRaw(cfg, Step(cfg, s, Begin(0, Free(r))), r);
  }

  /** The cleaner of a wrapper frees the Raw, once. */
  lemma BaseCleanerAlone(cfg: Config, s: State, r: nat)
    requires s.pcs == map[]
    ensures Run(cfg, s, Alone(BaseCleaner(r))) ==
            if BaseCleaner(r) in s.begun then s
            else AfterFree(cfg, s, r).(begun := s.begun + {BaseCleaner(r)})
  {
    AloneSteps(cfg, s, BaseCleaner(r));
    if BaseCleaner(r) !in s.begun {
      FreesRaw(cfg, Step(cfg, s, Begin(0, BaseCleaner(r))), r);
    }
  }

  /** The cleaner of a callback wrapper first disposes the stable reference, then frees the Raw, once. */
  lemma CallbackCleanerAlone(cfg: Config, s: State, r: nat)
    requires s.pcs == map[]
    ensures Run(cfg, s, Alone(CallbackCleaner(r))) ==
            if CallbackCleaner(r) in s.begun then s
            else AfterFree(cfg, s.(log := s.log + [Disposed(r)]), r).(begun := s.begun + {CallbackCleaner(r)})
  {
    AloneSteps(cfg, s, CallbackCleaner(r));
    if CallbackCleaner(r) !in s.begun {
      FreesRaw(cfg, Step(cfg, Step(cfg, s, Begin(0, CallbackCleaner(r))), Advance(0)), r);
    }
  }

  lemma MoveAlone(cfg: Config, s: State, r: nat)
    requires s.pcs == map[]
    ensures var begun := s.begun + {Move(r)};
            Run(cfg, s, Alone(Move(r))) ==
            if r in s.freed then s.(begun := begun)
            else s.(begun := begun, freed := s.freed + {r}, log := s.log + [WonMove(r)])
  {
    AloneSteps(cfg, s, Move(r));
    assert Step(cfg, Step(cfg, s, Begin(0, Move(r))), Advance(0)).pcs == map[];
  }

  lemma AllocAlone(cfg: Config, s: State, m: nat)
    requires s.pcs == map[]
    ensures Run(cfg, s, Alone(Alloc(m))) == s.(begun := s.begun + {Alloc(m)}, arenas := s.arenas + {m})
  {
    AloneSteps(cfg, s, Alloc(m));
    assert Step(cfg, Step(cfg, s, Begin(0, Alloc(m))), Advance(0)).pcs == map[];
  }

  lemma {:induction false} RunJoin(cfg: Config, s: State, a: seq<Action>, b: seq<Action>)
    ensures Run(cfg, s, a + b) == Run(cfg, Run(cfg, s, a), b)
  {
    if b == [] {
      assert a + b == a;
    } else {
      RunJoin(cfg, s, a, b[..|b| - 1]);
      assert (a + b)[..|a + b| - 1] == a + b[..|b| - 1];
    }
  }

  // ---------- Arenas set up after the free ----------

  /** Somebody can free the Memory: a Raw made with it, or its scope. */
  ghost predicate Freeable(cfg: Config, m: nat) {
    m in cfg.scoped || exists r: nat :: cfg.memoryOf(r) == m
  }

  ghost predicate Leaks(s: State, m: nat) {
    s.pcs == map[] && m in s.memoryFreed && m in s.arenas && Cleared(m) !in s.log
  }

  /** The Memory is freed before anything is allocated from it. */
  lemma LateAllocLeaks(cfg: Config, call: Call, m: nat)
    requires (call == FreeMemory(m) && m in cfg.scoped) || (call.Free? && cfg.memoryOf(call.raw) == m)
    ensures Leaks(Run(cfg, START, Alone(call) + Alone(Alloc(m))), m)
  {
    RunJoin(cfg, START, Alone(call), Alone(Alloc(m)));
    if call.Free? {
      FreeAlone(cfg, START, call.raw);
    } else {
      FreeMemoryAlone(cfg, START, m);
    }
    AllocAlone(cfg, Run(cfg, START, Alone(call)), m);
  }

  lemma {:induction false} NeverFreed(cfg: Config, actions: seq<Action>, m: nat)
    requires !Freeable(cfg, m)
    ensures var s := Run(cfg, START, actions);
            m !in s.memoryFreed && forall a :: a in s.pcs ==> s.pcs[a] != AtMemory(m)
  {
    if actions != [] {
      NeverFreed(cfg, actions[..|actions| - 1], m);
    }
  }

  ghost predicate LeaksAfter(cfg: Config, actions: seq<Action>, m: nat) {
    Leaks(Run(cfg, START, actions), m)
  }

  /** Some run leaks the arena of a Memory exactly when somebody can free that Memory: a free followed by an
      allocation always does. */
  lemma SomeRunLeaksExactly(cfg: Config, m: nat)
    ensures (exists actions :: LeaksAfter(cfg, actions, m)) <==> Freeable(cfg, m)
  {
    if Freeable(cfg, m) {
      var call;
      if m in cfg.scoped {
        call := FreeMemory(m);
      } else {
        var r: nat :| cfg.memoryOf(r) == m;
        call := Free(r);
      }
      LateAllocLeaks(cfg, call, m);
      assert LeaksAfter(cfg, Alone(call) + Alone(Alloc(m)), m);
    }
    if actions :| LeaksAfter(cfg, actions, m) {
      if !Freeable(cfg, m) {
        NeverFreed(cfg, actions, m);
      }
    }
  }

  // ---------- Order of beforeFree and the arena ----------

  /** Nobody but `r` frees the Memory of `r`. */
  ghost predicate Unshared(cfg: Config, r: nat) {
    cfg.memoryOf(r) !in cfg.scoped && forall q: nat :: cfg.memoryOf(q) == cfg.memoryOf(r) ==> q == r
  }

  ghost predicate HookThenClear(cfg: Config, log: seq<Event>, r: nat) {
    forall j :: 0 <= j < |log| && log[j] == Cleared(cfg.memoryOf(r)) ==> Before(r) in log[..j]
  }

  ghost predicate HookDone(cfg: Config, s: State, r: nat) {
    WonFree(r) in s.log && (r in cfg.hooked ==> Before(r) in s.log)
  }

  ghost predicate OrderInv(cfg: Config, s: State, r: nat) {
    && (cfg.memoryOf(r) in s.memoryFreed ==> HookDone(cfg, s, r))
    && (forall a :: a in s.pcs && s.pcs[a] == AtMemory(cfg.memoryOf(r)) ==> HookDone(cfg, s, r))
    && (r in cfg.hooked ==> HookThenClear(cfg, s.log, r))
  }

  lemma StepKeepsOrder(cfg: Config, s: State, action: Action, r: nat)
    requires Inv(cfg, s) && Unshared(cfg, r) && OrderInv(cfg, s, r)
    ensures OrderInv(cfg, Step(cfg, s, action), r)
  {
    var s' := Step(cfg, s, action);
    if action.Advance? && action.agent in s.pcs {
      assert Justified(s, s.pcs[action.agent]);
    }
    assert HookDone(cfg, s, r) ==> HookDone(cfg, s', r);
    if s'.log != s.log {
      assert s'.log == s.log + [s'.log[|s.log|]];
      assert s'.log[..|s.log|] == s.log;
      forall j | r in cfg.hooked && 0 <= j < |s'.log| && s'.log[j] == Cleared(cfg.memoryOf(r))
        ensures Before(r) in s'.log[..j]
      {
        assert j < |s.log| ==> s'.log[..j] == s.log[..j];
      }
    }
  }

  lemma {:induction false} UnsharedOrder(cfg: Config, actions: seq<Action>, r: nat)
    requires Unshared(cfg, r)
    ensures OrderInv(cfg, Run(cfg, START, actions), r)
  {
    if actions != [] {
      var before, last := actions[..|actions| - 1], actions[|actions| - 1];
      UnsharedOrder(cfg, before, r);
      RunKeepsInv(cfg, before);
      StepKeepsOrder(cfg, Run(cfg, START, before), last, r);
    }
  }

  /** After a move won, an unshared arena is never cleared. */
  lemma MovedArenaSurvives(cfg: Config, actions: seq<Action>, r: nat)
    requires Unshared(cfg, r) && WonMove(r) in Run(cfg, START, actions).log
    ensures cfg.memoryOf(r) !in Run(cfg, START, actions).memoryFreed
    ensures Cleared(cfg.memoryOf(r)) !in Run(cfg, START, actions).log
  {
    RunKeepsInv(cfg, actions);
    UnsharedOrder(cfg, actions, r);
  }

  /** An arena is set up and another call frees it. */
  function OvertakingRun(m: nat, call: Call): seq<Action> {
    Alone(Alloc(m)) + Alone(call)
  }

  lemma Overtaken(cfg: Config, m: nat, call: Call)
    requires (call == FreeMemory(m) && m in cfg.scoped) || (call.Free? && cfg.memoryOf(call.raw) == m)
    ensures Run(cfg, START, OvertakingRun(m, call)).log ==
            (if call.Free? then [WonFree(call.raw)] else [])
            + (if call.Free? && call.raw in cfg.hooked then [Before(call.raw)] else [])
            + [Cleared(m)]
  {
    RunJoin(cfg, START, Alone(Alloc(m)), Alone(call));
    AllocAlone(cfg, START, m);
    if call.Free? {
      FreeAlone(cfg, Run(cfg, START, Alone(Alloc(m))), call.raw);
    } else {
      FreeMemoryAlone(cfg, Run(cfg, START, Alone(Alloc(m))), m);
    }
  }

  /** `beforeFree` finishes before the arena is cleared in every run, exactly when nobody else frees
      the Memory. */
  lemma HookThenClearExactly(cfg: Config, r: nat)
    requires r in cfg.hooked
    ensures (forall actions :: HookThenClear(cfg, Run(cfg, START, actions).log, r)) <==> Unshared(cfg, r)
  {
    if Unshared(cfg, r) {
      forall actions ensures HookThenClear(cfg, Run(cfg, START, actions).log, r) {
        UnsharedOrder(cfg, actions, r);
      }
    } else {
      var m := cfg.memoryOf(r);
      var actions;
      if m in cfg.scoped {
        Overtaken(cfg, m, FreeMemory(m));
        actions := OvertakingRun(m, FreeMemory(m));
      } else {
        var q: nat :| cfg.memoryOf(q) == m && q != r;
        Overtaken(cfg, m, Free(q));
        actions := OvertakingRun(m, Free(q));
      }
      var log := Run(cfg, START, actions).log;
      assert log[|log| - 1] == Cleared(m) && Before(r) !in log[..|log| - 1];
    }
  }
}
