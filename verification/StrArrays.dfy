/** `StrArray`: a Kotlin list of strings mirrored in a C struct whose pointers lead into an append-only
    arena.  Every mutator changes the list and then writes the whole struct anew. */
module StrArrays {
  import opened Wrappers
  import NativeList

  // ---------- The C side ----------

  /** A block of the arena: the bytes of a C string, or an array of pointers.  An address is the index of
      a block. */
  datatype Block = Bytes(chars: string) | Pointers(addresses: seq<nat>)

  datatype CStruct = CStruct(strings: Option<nat>, count: nat)

  /** A struct fresh from the allocator, and what dispose leaves behind. */
  const ZEROED := CStruct(None, 0)

  /** What C reads from a buffer: everything before the first NUL. */
  function BeforeNul(s: string): string {
    if s == [] || s[0] == '\0' then [] else [s[0]] + BeforeNul(s[1..])
  }

  /** There is a terminated C string at `p`, and it reads `s`. */
  predicate PointsTo(arena: seq<Block>, p: nat, s: string) {
    p < |arena| && arena[p].Bytes? && '\0' in arena[p].chars && BeforeNul(arena[p].chars) == s
  }

  /** Count and pointers of the struct, followed through the arena, spell `list`. */
  predicate Spells(arena: seq<Block>, c: CStruct, list: seq<string>) {
    && c.count == |list|
    && (list != [] ==>
          && c.strings.Some? && c.strings.value < |arena| && arena[c.strings.value].Pointers?
          && var ps := arena[c.strings.value].addresses;
             |ps| == |list| && forall i :: 0 <= i < |ps| ==> PointsTo(arena, ps[i], list[i]))
  }

  function CStrings(list: seq<string>): (blocks: seq<Block>)
    ensures |blocks| == |list|
  {
    if list == [] then [] else CStrings(list[..|list| - 1]) + [Bytes(list[|list| - 1] + ['\0'])]
  }

  function Addresses(base: nat, n: nat): (ps: seq<nat>)
    ensures |ps| == n && forall i :: 0 <= i < n ==> ps[i] == base + i
  {
    if n == 0 then [] else Addresses(base, n - 1) + [base + n - 1]
  }

  /** `updateRaw`: a copy of every string, an array of pointers to the copies, and the struct over it. */
  function Updated(arena: seq<Block>, list: seq<string>): (seq<Block>, CStruct) {
    var blocks := CStrings(list);
    (arena + blocks + [Pointers(Addresses(|arena|, |list|))], CStruct(Some(|arena| + |list|), |list|))
  }

  /** The list as C can see it: each string up to its first NUL. */
  function AsC(list: seq<string>): (r: seq<string>)
    ensures |r| == |list| && forall i :: 0 <= i < |list| ==> r[i] == BeforeNul(list[i])
  {
    if list == [] then [] else AsC(list[..|list| - 1]) + [BeforeNul(list[|list| - 1])]
  }

  lemma {:induction false} BeforeNulMeaning(s: string)
    ensures var r := BeforeNul(s); r <= s && '\0' !in r && (|r| < |s| ==> s[|r|] == '\0')
  {
    if s != [] && s[0] != '\0' {
      BeforeNulMeaning(s[1..]);
      assert s == [s[0]] + s[1..];
    }
  }

  lemma {:induction false} TerminatedString(s: string)
    ensures BeforeNul(s + ['\0']) == BeforeNul(s)
    ensures BeforeNul(s) == s <==> '\0' !in s
  {
    if s != [] && s[0] != '\0' {
      TerminatedString(s[1..]);
      assert (s + ['\0'])[1..] == s[1..] + ['\0'];
      assert s == [s[0]] + s[1..];
    }
  }

  lemma {:induction false} CStringsAt(list: seq<string>, i: nat)
    requires i < |list|
    ensures CStrings(list)[i] == Bytes(list[i] + ['\0'])
  {
    if i < |list| - 1 {
      CStringsAt(list[..|list| - 1], i);
    }
  }

  lemma UpdateSpells(arena: seq<Block>, list: seq<string>)
    ensures Spells(Updated(arena, list).0, Updated(arena, list).1, AsC(list))
  {
    var (after, c) := Updated(arena, list);
    forall i | 0 <= i < |list| ensures PointsTo(after, |arena| + i, AsC(list)[i]) {
      CStringsAt(list, i);
      TerminatedString(list[i]);
      assert after[|arena| + i] == CStrings(list)[i];
    }
  }

  lemma ArenaGrows(arena: seq<Block>, list: seq<string>)
    ensures arena <= Updated(arena, list).0
  {
  }

  // ---------- Histories ----------

  datatype Op =
    | Add(element: string) | AddAll(elements: seq<string>)
    | AddAt(index: int, element: string) | AddAllAt(index: int, elements: seq<string>)
    | Remove(element: string) | RemoveAll(elements: seq<string>) | RetainAll(elements: seq<string>)
    | RemoveAt(index: int) | Set(index: int, element: string)
    | Clear

  function WithoutAll(s: seq<string>, drop: seq<string>): seq<string> {
    if s == [] then [] else (if s[0] in drop then [] else [s[0]]) + WithoutAll(s[1..], drop)
  }

  lemma {:induction false} WithoutAllIsFilter(s: seq<string>, drop: seq<string>)
    ensures NativeList.Filtered(s, x => x !in drop, WithoutAll(s, drop))
  {
    if s == [] {
      var none: seq<nat> := [];
      assert NativeList.Picked(s, none, WithoutAll(s, drop));
    } else {
      WithoutAllIsFilter(s[1..], drop);
      NativeList.FilteredCons(s, x => x !in drop, WithoutAll(s[1..], drop));
    }
  }

  /** The list after a mutator; None when it throws for its index. */
  function ListAfter(list: seq<string>, op: Op): Option<seq<string>> {
    match op
    case Add(e) => Some(list + [e])
    case AddAll(es) => Some(list + es)
    case AddAt(i, e) => if 0 <= i <= |list| then Some(list[..i] + [e] + list[i..]) else None
    case AddAllAt(i, es) => if 0 <= i <= |list| then Some(list[..i] + es + list[i..]) else None
    case Remove(e) => Some(NativeList.Without(list, e))
    case RemoveAll(es) => Some(WithoutAll(list, es))
    case RetainAll(es) => Some(NativeList.Retained(list, es))
    case RemoveAt(i) => if 0 <= i < |list| then Some(list[..i] + list[i + 1..]) else None
    case Set(i, e) => if 0 <= i < |list| then Some(list[i := e]) else None
    case Clear => Some([])
  }

  /** `after` is `before` with `added` put in front of index `i` in place of `dropped` elements. */
  ghost predicate Spliced(before: seq<string>, i: int, dropped: nat, added: seq<string>, after: seq<string>) {
    && 0 <= i && i + dropped <= |before| && |after| == |before| + |added| - dropped
    && (forall j :: 0 <= j < i ==> after[j] == before[j])
    && (forall j :: 0 <= j < |added| ==> after[i + j] == added[j])
    && (forall j :: i + dropped <= j < |before| ==> after[j + |added| - dropped] == before[j])
  }

  ghost predicate FirstRemoved(before: seq<string>, e: string, i: int, after: seq<string>) {
    0 <= i < |before| && before[i] == e && e !in before[..i] && Spliced(before, i, 1, [], after)
  }

  /** What each mutator does to the list, position by position, and when it throws. */
  ghost predicate Does(list: seq<string>, op: Op, after: Option<seq<string>>) {
    match op
    case Add(e) => after.Some? && Spliced(list, |list|, 0, [e], after.value)
    case AddAll(es) => after.Some? && Spliced(list, |list|, 0, es, after.value)
    case AddAt(i, e) =>
      if 0 <= i <= |list| then after.Some? && Spliced(list, i, 0, [e], after.value) else after.None?
    case AddAllAt(i, es) =>
      if 0 <= i <= |list| then after.Some? && Spliced(list, i, 0, es, after.value) else after.None?
    case RemoveAt(i) =>
      if 0 <= i < |list| then after.Some? && Spliced(list, i, 1, [], after.value) else after.None?
    case Set(i, e) =>
      if 0 <= i < |list| then after.Some? && Spliced(list, i, 1, [e], after.value) else after.None?
    case Remove(e) =>
      && after.Some?
      && if e in list then exists i :: FirstRemoved(list, e, i, after.value)
         else after.value == list
    case RemoveAll(es) => after.Some? && NativeList.Filtered(list, x => x !in es, after.value)
    case RetainAll(es) => after.Some? && NativeList.Filtered(list, x => x in es, after.value)
    case Clear => after == Some([])
  }

  lemma SpliceOf(s: seq<string>, i: nat, dropped: nat, added: seq<string>)
    requires i + dropped <= |s|
    ensures Spliced(s, i, dropped, added, s[..i] + added + s[i + dropped..])
  {
  }

  lemma RemovedIsSpliced(list: seq<string>, e: string)
    requires e in list
    ensures exists i :: FirstRemoved(list, e, i, NativeList.Without(list, e))
  {
    NativeList.WithoutFirst(list, e);
    var i :| NativeList.RemovedAt(list, e, i, NativeList.Without(list, e));
    SpliceOf(list, i, 1, []);
    assert list[..i] + [] == list[..i];
    assert FirstRemoved(list, e, i, NativeList.Without(list, e));
  }

  lemma IndexedIsSpliced(list: seq<string>, op: Op)
    requires op.AddAt? || op.AddAllAt? || op.RemoveAt? || op.Set?
    ensures Does(list, op, ListAfter(list, op))
  {
    var i, dropped := op.index, if op.AddAt? || op.AddAllAt? then 0 else 1;
    if 0 <= i && i + dropped <= |list| {
      var added := match op case AddAt(_, e) => [e] case AddAllAt(_, es) => es case Set(_, e) => [e] case _ => [];
      SpliceOf(list, i, dropped, added);
      assert ListAfter(list, op).value == list[..i] + added + list[i + dropped..];
    }
  }

  lemma ListAfterMeaning(list: seq<string>, op: Op)
    ensures Does(list, op, ListAfter(list, op))
  {
    match op
    case Add(e) => SpliceOf(list, |list|, 0, [e]);
    case AddAll(es) => SpliceOf(list, |list|, 0, es);
    case Remove(e) =>
      NativeList.WithoutFirst(list, e);
      if e in list {
        RemovedIsSpliced(list, e);
      }
    case RemoveAll(es) => WithoutAllIsFilter(list, es);
    case RetainAll(es) => NativeList.RetainedIsFilter(list, es);
    case Clear =>
    case _ => IndexedIsSpliced(list, op);
  }

  datatype State = State(list: seq<string>, arena: seq<Block>, c: CStruct)

  const START := State([], [], ZEROED)

  function Step(s: State, op: Op): State {
    match ListAfter(s.list, op)
    case None => s
    case Some(list) =>
      if op.Clear? then State(list, s.arena, ZEROED)
      else State(list, Updated(s.arena, list).0, Updated(s.arena, list).1)
  }

  function Run(s: State, ops: seq<Op>): State {
    if ops == [] then s else Step(Run(s, ops[..|ops| - 1]), ops[|ops| - 1])
  }

  lemma StepKeepsMirror(s: State, op: Op)
    requires Spells(s.arena, s.c, AsC(s.list))
    ensures Spells(Step(s, op).arena, Step(s, op).c, AsC(Step(s, op).list))
    ensures s.arena <= Step(s, op).arena
  {
    var after := ListAfter(s.list, op);
    if after.Some? && !op.Clear? {
      var list := after.value;
      assert Step(s, op) == State(list, Updated(s.arena, list).0, Updated(s.arena, list).1);
      UpdateSpells(s.arena, list);
      ArenaGrows(s.arena, list);
    }
  }

  /** After any history of mutators the struct spells the list as C sees it, and the blocks that were in
      the arena are still there unchanged, as long as dispose only zeroes the struct. */
  lemma {:induction false} MirrorKept(s: State, ops: seq<Op>)
    requires Spells(s.arena, s.c, AsC(s.list))
    ensures Spells(Run(s, ops).arena, Run(s, ops).c, AsC(Run(s, ops).list))
    ensures s.arena <= Run(s, ops).arena
  {
    if ops != [] {
      MirrorKept(s, ops[..|ops| - 1]);
      StepKeepsMirror(Run(s, ops[..|ops| - 1]), ops[|ops| - 1]);
    }
  }

  ghost predicate NoNul(list: seq<string>) {
    forall i :: 0 <= i < |list| ==> '\0' !in list[i]
  }

  /** The struct of a `StrArray` built in Kotlin spells exactly the list, as long as no string in it has
      a NUL, and only then. */
  lemma MirrorExactly(ops: seq<Op>)
    ensures var s := Run(START, ops); Spells(s.arena, s.c, s.list) <==> NoNul(s.list)
  {
    MirrorKept(START, ops);
    var s := Run(START, ops);
    forall i | 0 <= i < |s.list| ensures BeforeNul(s.list[i]) == s.list[i] <==> '\0' !in s.list[i] {
      TerminatedString(s.list[i]);
    }
    if Spells(s.arena, s.c, s.list) && s.list != [] {
      var ps := s.arena[s.c.strings.value].addresses;
      forall i | 0 <= i < |s.list| ensures BeforeNul(s.list[i]) == s.list[i] {
        assert PointsTo(s.arena, ps[i], s.list[i]) && PointsTo(s.arena, ps[i], AsC(s.list)[i]);
      }
    }
    if NoNul(s.list) {
      assert AsC(s.list) == s.list;
    }
  }

  // ---------- The object ----------

  class StrArray {
    var innerList: seq<string>
    var arena: seq<Block>
    var c: CStruct

    ghost function View(): State
      reads this
    {
      State(innerList, arena, c)
    }

    ghost predicate Mirrored()
      reads this
    {
      Spells(arena, c, AsC(innerList))
    }

    constructor (contents: Option<seq<string>>)
      ensures Mirrored()
      ensures View() == if contents.Some? then Step(START, Op.AddAll(contents.value)) else START
    {
      innerList, arena, c := [], [], ZEROED;
      new;
      if contents.Some? {
        this.AddAll(contents.value);
      }
    }

    method UpdateRaw(list: seq<string>)
      modifies this`arena, this`c
      ensures (arena, c) == Updated(old(arena), list) && Spells(arena, c, AsC(list))
    {
      ghost var before := arena;
      var pointers: seq<nat> := [];
      for i := 0 to |list|
        invariant arena == before + CStrings(list[..i]) && pointers == Addresses(|before|, i)
      {
        assert list[..i + 1][..i] == list[..i];
        pointers := pointers + [|arena|];
        arena := arena + [Bytes(list[i] + ['\0'])];
      }
      assert list[..|list|] == list;
      c := CStruct(Some(|arena|), |list|);
      arena := arena + [Pointers(pointers)];
      UpdateSpells(before, list);
    }

    /** `git_strarray_dispose`, by its contract. */
    method ClearRaw()
      modifies this`c
      ensures c == ZEROED && c.strings.None? && c.count == 0
    {
      c := ZEROED;
    }

    method Add(element: string)
      requires Mirrored()
      modifies this
      ensures Mirrored() && View() == Step(old(View()), Op.Add(element))
    {
      innerList := innerList + [element];
      UpdateRaw(innerList);
    }

    method AddAll(elements: seq<string>)
      requires Mirrored()
      modifies this
      ensures Mirrored() && View() == Step(old(View()), Op.AddAll(elements))
    {
      innerList := innerList + elements;
      UpdateRaw(innerList);
    }

    method AddAt(index: int, element: string) returns (ok: bool)
      requires Mirrored()
      modifies this
      ensures Mirrored() && View() == Step(old(View()), Op.AddAt(index, element))
      ensures ok <==> 0 <= index <= |old(innerList)|
    {
      ok := 0 <= index <= |innerList|;
      if ok {
        innerList := innerList[..index] + [element] + innerList[index..];
        UpdateRaw(innerList);
      }
    }

    method AddAllAt(index: int, elements: seq<string>) returns (ok: bool)
      requires Mirrored()
      modifies this
      ensures Mirrored() && View() == Step(old(View()), Op.AddAllAt(index, elements))
      ensures ok <==> 0 <= index <= |old(innerList)|
    {
      ok := 0 <= index <= |innerList|;
      if ok {
        innerList := innerList[..index] + elements + innerList[index..];
        UpdateRaw(innerList);
      }
    }

    method Remove(element: string) returns (removed: bool)
      requires Mirrored()
      modifies this
      ensures Mirrored() && View() == Step(old(View()), Op.Remove(element))
      ensures removed <==> element in old(innerList)
    {
      removed := element in innerList;
      innerList := NativeList.Without(innerList, element);
      UpdateRaw(innerList);
    }

    method RemoveAll(elements: seq<string>)
      requires Mirrored()
      modifies this
      ensures Mirrored() && View() == Step(old(View()), Op.RemoveAll(elements))
    {
      innerList := WithoutAll(innerList, elements);
      UpdateRaw(innerList);
    }

    method RetainAll(elements: seq<string>)
      requires Mirrored()
      modifies this
      ensures Mirrored() && View() == Step(old(View()), Op.RetainAll(elements))
    {
      innerList := NativeList.Retained(innerList, elements);
      UpdateRaw(innerList);
    }

    method RemoveAt(index: int) returns (removed: Option<string>)
      requires Mirrored()
      modifies this
      ensures Mirrored() && View() == Step(old(View()), Op.RemoveAt(index))
      ensures removed == if 0 <= index < |old(innerList)| then Some(old(innerList)[index]) else None
    {
      removed := None;
      if 0 <= index < |innerList| {
        removed := Some(innerList[index]);
        innerList := innerList[..index] + innerList[index + 1..];
        UpdateRaw(innerList);
      }
    }

    method Set(index: int, element: string) returns (replaced: Option<string>)
      requires Mirrored()
      modifies this
      ensures Mirrored() && View() == Step(old(View()), Op.Set(index, element))
      ensures replaced == if 0 <= index < |old(innerList)| then Some(old(innerList)[index]) else None
    {
      replaced := None;
      if 0 <= index < |innerList| {
        replaced := Some(innerList[index]);
        innerList := innerList[index := element];
        UpdateRaw(innerList);
      }
    }

    method Clear()
      requires Mirrored()
      modifies this
      ensures Mirrored() && View() == Step(old(View()), Op.Clear)
    {
      innerList := [];
      ClearRaw();
    }
  }
}
