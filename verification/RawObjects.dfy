/** `Memory`, `Raw` and `RawWrapper` as one thread uses them, and the constructor that `raw-declare.ftl`
    generates.  `clears`, `hookRuns` and `releases` count the effects on native memory.  Each call is the
    run of `Ownership` in which one agent makes that call and carries it through. */
module RawObjects {
  import opened Wrappers
  import Ownership

  function Marked(flag: bool): set<nat> {
    if flag then {0} else {}
  }

  /** One Raw and its Memory, both number 0; others may free the Memory too. */
  function Setting(hooked: bool): Ownership.Config {
    Ownership.Config(_ => 0, Marked(hooked), {0})
  }

  /** The state after the call, with the events of the call alone in its log. */
  ghost function Outcome(hooked: bool, s: Ownership.State, call: Ownership.Call): Ownership.State {
    Ownership.Run(Setting(hooked), s, Ownership.Alone(call))
  }

  /** An object between two calls: no record of what was begun before or logged. */
  ghost function Forget(s: Ownership.State): Ownership.State {
    s.(begun := {}, log := [])
  }

  ghost function Times(s: Ownership.State, event: Ownership.Event): nat {
    multiset(s.log)[event]
  }

  lemma FreeOutcome(hooked: bool, s: Ownership.State)
    requires s == Forget(s) && s.pcs == map[]
    ensures var after, first := Outcome(hooked, s, Ownership.Free(0)), 0 !in s.freed;
            && Forget(after) ==
               (if first then s.(freed := s.freed + {0}, memoryFreed := s.memoryFreed + {0}) else s)
            && Times(after, Ownership.Before(0)) == (if first && hooked then 1 else 0)
            && Times(after, Ownership.Cleared(0)) == (if first && 0 !in s.memoryFreed && 0 in s.arenas then 1 else 0)
  {
    Ownership.FreeAlone(Setting(hooked), s, 0);
  }

  class Memory {
    var arenaInitialized: bool
    var isFreed: bool
    var clears: nat

    constructor ()
      ensures !arenaInitialized && !isFreed && clears == 0
    {
      arenaInitialized, isFreed, clears := false, false, 0;
    }

    /** An arena is cleared at most once, and only after the Memory was freed. */
    ghost predicate Valid()
      reads this
    {
      clears <= 1 && (clears == 1 ==> isFreed && arenaInitialized)
    }

    ghost function View(): Ownership.State
      reads this
    {
      Ownership.State({}, Marked(isFreed), Marked(arenaInitialized), {}, map[], [])
    }

    method Alloc()
      requires Valid()
      modifies this`arenaInitialized
      ensures Valid() && arenaInitialized
      ensures View() == Forget(Outcome(false, old(View()), Ownership.Alloc(0)))
    {
      Ownership.AllocAlone(Setting(false), View(), 0);
      arenaInitialized := true;
    }

    method Free()
      requires Valid()
      modifies this
      ensures Valid() && isFreed && arenaInitialized == old(arenaInitialized)
      ensures clears == if old(arenaInitialized && !isFreed) then 1 else old(clears)
      ensures var after := Outcome(false, old(View()), Ownership.FreeMemory(0));
              View() == Forget(after) && clears == old(clears) + Times(after, Ownership.Cleared(0))
    {
      Ownership.FreeMemoryAlone(Setting(false), View(), 0);
      if !isFreed {
        isFreed := true;
        if arenaInitialized {
          clears := clears + 1;
        }
      }
    }
  }

  class Raw {
    const memory: Memory
    const hooked: bool
    var freed: bool
    var hookRuns: nat

    ghost predicate Valid()
      reads this, memory
    {
      memory.Valid() && hookRuns <= (if freed && hooked then 1 else 0)
    }

    ghost function View(): Ownership.State
      reads this, memory
    {
      memory.View().(freed := Marked(freed))
    }

    constructor (memory: Memory, hooked: bool)
      requires memory.Valid()
      ensures Valid() && !freed && hookRuns == 0 && this.memory == memory && this.hooked == hooked
    {
      this.memory, this.hooked, freed, hookRuns := memory, hooked, false, 0;
    }

    method Free()
      requires Valid()
      modifies this, memory
      ensures Valid() && freed
      ensures if old(freed) then
                && hookRuns == old(hookRuns)
                && memory.isFreed == old(memory.isFreed)
                && memory.clears == old(memory.clears)
              else
                && hookRuns == (if hooked then 1 else 0)
                && memory.isFreed
                && memory.clears == (if old(memory.arenaInitialized && !memory.isFreed) then 1 else old(memory.clears))
      ensures memory.arenaInitialized == old(memory.arenaInitialized)
      ensures var after := Outcome(hooked, old(View()), Ownership.Free(0));
              && View() == Forget(after)
              && hookRuns == old(hookRuns) + Times(after, Ownership.Before(0))
              && memory.clears == old(memory.clears) + Times(after, Ownership.Cleared(0))
    {
      FreeOutcome(hooked, View());
      if !freed {
        freed := true;
        if hooked {
          hookRuns := hookRuns + 1;
        }
        memory.Free();
      }
    }

    method Move()
      requires Valid()
      modifies this`freed
      ensures Valid() && freed
      ensures View() == Forget(Outcome(hooked, old(View()), Ownership.Move(0)))
    {
      Ownership.MoveAlone(Setting(hooked), View(), 0);
      freed := true;
    }
  }

  class RawWrapper {
    const target: Raw

    ghost predicate Valid()
      reads target, target.memory
    {
      target.Valid()
    }

    /** The base cleaner is made from the guarded getter: a freed Raw cannot be wrapped. */
    static method Wrap(target: Raw) returns (wrapper: Result<RawWrapper, string>)
      requires target.Valid()
      ensures wrapper.Ok? <==> !target.freed
      ensures wrapper.Ok? ==> fresh(wrapper.value) && wrapper.value.target == target && wrapper.value.Valid()
    {
      if target.freed {
        return Err("This object has been freed");
      }
      var made := new RawWrapper.Over(target);
      return Ok(made);
    }

    constructor Over(target: Raw)
      requires target.Valid()
      ensures this.target == target && Valid()
    {
      this.target := target;
    }

    method GetRaw() returns (raw: Result<Raw, string>)
      ensures raw == if target.freed then Err("This object has been freed") else Ok(target)
      ensures raw.Ok? <==> Ownership.Guarded(target.View(), 0).Ok?
    {
      raw := if target.freed then Err("This object has been freed") else Ok(target);
    }

    /** `asObject` reads the guarded getter again after `move`, so no hand-over succeeds: the Raw is
        given up, its hook never runs, its Memory stays as it was, and no object is made from them. */
    method AsObject() returns (handedOver: Result<Raw, string>)
      requires Valid()
      modifies target`freed
      ensures Valid() && handedOver.Err? && target.freed
    {
      var raw := GetRaw();
      match raw
      case Err(error) => return Err(error);
      case Ok(r) => r.Move();
      raw := GetRaw();
      match raw
      case Err(error) => return Err(error);
      case Ok(r) => return Ok(r);
    }
  }

  /** What an initialiser passed to a generated constructor does with its out-pointer. */
  datatype Initial = Throws(error: string) | LeavesNull | SetsPointer

  /** The secondary-pointer constructor: a Raw exactly when the initialiser set the pointer.  A thrown
      error releases the handler once, unless the caller declined, and frees the Memory; a pointer that
      is still null throws without freeing anything. */
  method Construct(memory: Memory, initial: Initial, hasRelease: bool, shouldFreeOnFailure: bool, hooked: bool)
    returns (raw: Result<Raw, string>, releases: nat)
    requires memory.Valid()
    modifies memory
    ensures memory.Valid() && memory.arenaInitialized
    ensures raw.Ok? <==> initial.SetsPointer?
    ensures raw.Ok? ==> fresh(raw.value) && raw.value.Valid() && raw.value.memory == memory && !raw.value.freed
    ensures memory.isFreed <==> initial.Throws? || old(memory.isFreed)
    ensures memory.clears == if initial.Throws? && !old(memory.isFreed) then 1 else old(memory.clears)
    ensures releases == if initial.Throws? && hasRelease && shouldFreeOnFailure then 1 else 0
  {
    releases := 0;
    memory.Alloc();
    match initial
    case Throws(error) =>
      if hasRelease && shouldFreeOnFailure {
        releases := releases + 1;
      }
      memory.Free();
      raw := Err(error);
    case LeavesNull =>
      raw := Err("NullPointerException");
    case SetsPointer =>
      var made := new Raw(memory, hooked);
      raw := Ok(made);
  }
}
