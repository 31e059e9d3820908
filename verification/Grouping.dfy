/** The header-comment grouping of the two generators: a line that starts with the prefix opens a group,
    and the lines up to the next such line are its comment. */
module Grouping {
  import opened Wrappers

  datatype Group = Group(name: string, comment: string)

  predicate Opens(prefix: string, line: string) {
    prefix <= line
  }

  function Concat(lines: seq<string>): string {
    if lines == [] then [] else lines[0] + Concat(lines[1..])
  }

  /** Index of the next line that opens a group, from `i` on. */
  function NextOpening(prefix: string, lines: seq<string>, i: nat): (j: nat)
    requires i <= |lines|
    ensures i <= j <= |lines| && (j < |lines| ==> Opens(prefix, lines[j]))
    ensures forall m :: i <= m < j ==> !Opens(prefix, lines[m])
    decreases |lines| - i
  {
    if i == |lines| || Opens(prefix, lines[i]) then i else NextOpening(prefix, lines, i + 1)
  }

  /** The groups of the lines from opening line `i` on: the name is that line, the comment the text up
      to the next opening line. */
  function Groups(prefix: string, lines: seq<string>, i: nat): seq<Group>
    requires i <= |lines|
    decreases |lines| - i
  {
    if i == |lines| then []
    else
      var j := NextOpening(prefix, lines, i + 1);
      [Group(lines[i], Concat(lines[i + 1..j]))] + Groups(prefix, lines, j)
  }

  function AllGroups(prefix: string, lines: seq<string>): seq<Group> {
    Groups(prefix, lines, NextOpening(prefix, lines, 0))
  }

  // ---------- The loop ----------

  lemma {:induction false} NextOpeningMoves(prefix: string, lines: seq<string>, more: string, i: nat)
    requires i <= |lines|
    ensures NextOpening(prefix, lines + [more], i) ==
            var j := NextOpening(prefix, lines, i);
            if j == |lines| && !Opens(prefix, more) then j + 1 else j
    decreases |lines| - i
  {
    if i < |lines| && !Opens(prefix, lines[i]) {
      NextOpeningMoves(prefix, lines, more, i + 1);
    }
  }

  lemma {:induction false} ConcatAppend(lines: seq<string>, more: string)
    ensures Concat(lines + [more]) == Concat(lines) + more
  {
    if lines == [] {
      assert lines + [more] == [more];
      assert [more][1..] == [];
    } else {
      ConcatAppend(lines[1..], more);
      assert (lines + [more])[1..] == lines[1..] + [more];
    }
  }

  /** The groups after one more line: it opens a new one or extends the last one. */
  function Extended(prefix: string, groups: seq<Group>, more: string): seq<Group> {
    if Opens(prefix, more) then groups + [Group(more, [])]
    else if groups == [] then []
    else
      var last := groups[|groups| - 1];
      groups[..|groups| - 1] + [last.(comment := last.comment + more)]
  }

  lemma LastLine(prefix: string, lines: seq<string>, j: nat)
    requires j + 1 == |lines|
    ensures Groups(prefix, lines, j) == [Group(lines[j], [])]
  {
    assert lines[j + 1..j + 1] == [];
  }

  lemma ExtendedTail(prefix: string, first: Group, rest: seq<Group>, more: string)
    requires rest != []
    ensures Extended(prefix, [first] + rest, more) == [first] + Extended(prefix, rest, more)
  {
    var all := [first] + rest;
    assert all[..|all| - 1] == [first] + rest[..|rest| - 1];
  }

  lemma {:induction false} GroupsExtend(prefix: string, lines: seq<string>, more: string, i: nat)
    requires i < |lines|
    ensures Groups(prefix, lines + [more], i) == Extended(prefix, Groups(prefix, lines, i), more)
    decreases |lines| - i
  {
    var all := lines + [more];
    var j := NextOpening(prefix, lines, i + 1);
    NextOpeningMoves(prefix, lines, more, i + 1);
    var first := Group(lines[i], Concat(lines[i + 1..j]));
    if j < |lines| {
      GroupsExtend(prefix, lines, more, j);
      assert all[i + 1..j] == lines[i + 1..j];
      assert Groups(prefix, lines, j) != [];
      ExtendedTail(prefix, first, Groups(prefix, lines, j), more);
    } else {
      assert Groups(prefix, lines, j) == [];
      assert lines[i + 1..j] == lines[i + 1..];
      if Opens(prefix, more) {
        assert all[i + 1..j] == lines[i + 1..];
        LastLine(prefix, all, j);
      } else {
        ConcatAppend(lines[i + 1..], more);
        assert all[i + 1..j + 1] == lines[i + 1..] + [more];
        assert Groups(prefix, all, j + 1) == [];
      }
    }
  }

  lemma AllGroupsExtend(prefix: string, lines: seq<string>, more: string)
    ensures AllGroups(prefix, lines + [more]) == Extended(prefix, AllGroups(prefix, lines), more)
  {
    var k := NextOpening(prefix, lines, 0);
    NextOpeningMoves(prefix, lines, more, 0);
    if k < |lines| {
      GroupsExtend(prefix, lines, more, k);
    } else if Opens(prefix, more) {
      LastLine(prefix, lines + [more], k);
    }
  }

  method Collect(prefix: string, lines: seq<string>) returns (groups: seq<Group>)
    ensures groups == AllGroups(prefix, lines)
  {
    var open: Option<Group> := None;
    groups := [];
    for i := 0 to |lines|
      invariant AllGroups(prefix, lines[..i]) == groups + (if open.Some? then [open.value] else [])
      invariant groups != [] ==> open.Some?
    {
      assert lines[..i + 1] == lines[..i] + [lines[i]];
      AllGroupsExtend(prefix, lines[..i], lines[i]);
      if prefix <= lines[i] {
        if open.Some? {
          groups := groups + [open.value];
        }
        open := Some(Group(lines[i], []));
      } else if open.Some? {
        open := Some(open.value.(comment := open.value.comment + lines[i]));
      }
    }
    assert lines[..|lines|] == lines;
    if open.Some? {
      groups := groups + [open.value];
    }
  }

  // ---------- What the groups are ----------

  function Openings(prefix: string, lines: seq<string>): seq<string> {
    if lines == [] then []
    else (if prefix <= lines[0] then [lines[0]] else []) + Openings(prefix, lines[1..])
  }

  function Names(groups: seq<Group>): seq<string> {
    if groups == [] then [] else [groups[0].name] + Names(groups[1..])
  }

  /** Name and comment of each group, in order. */
  function Text(groups: seq<Group>): string {
    if groups == [] then [] else groups[0].name + groups[0].comment + Text(groups[1..])
  }

  lemma {:induction false} ConcatJoin(a: seq<string>, b: seq<string>)
    ensures Concat(a + b) == Concat(a) + Concat(b)
  {
    if a == [] {
      assert a + b == b;
    } else {
      ConcatJoin(a[1..], b);
      assert (a + b)[1..] == a[1..] + b;
      assert a[0] + (Concat(a[1..]) + Concat(b)) == a[0] + Concat(a[1..]) + Concat(b);
    }
  }

  lemma {:induction false} SkipToNext(prefix: string, lines: seq<string>, i: nat)
    requires i <= |lines|
    ensures Openings(prefix, lines[i..]) == Openings(prefix, lines[NextOpening(prefix, lines, i)..])
    decreases |lines| - i
  {
    if i < |lines| && !Opens(prefix, lines[i]) {
      SkipToNext(prefix, lines, i + 1);
      assert lines[i..][1..] == lines[i + 1..];
      assert [] + Openings(prefix, lines[i + 1..]) == Openings(prefix, lines[i + 1..]);
    }
  }

  lemma {:induction false} GroupsNamed(prefix: string, lines: seq<string>, i: nat)
    requires i <= |lines| && (i < |lines| ==> Opens(prefix, lines[i]))
    ensures Names(Groups(prefix, lines, i)) == Openings(prefix, lines[i..])
    decreases |lines| - i
  {
    if i < |lines| {
      var j := NextOpening(prefix, lines, i + 1);
      var first, rest := Group(lines[i], Concat(lines[i + 1..j])), Groups(prefix, lines, j);
      GroupsNamed(prefix, lines, j);
      SkipToNext(prefix, lines, i + 1);
      assert lines[i..][1..] == lines[i + 1..];
      assert ([first] + rest)[1..] == rest;
    }
  }

  lemma TextOfFirst(first: Group, rest: seq<Group>)
    ensures Text([first] + rest) == first.name + first.comment + Text(rest)
  {
    assert ([first] + rest)[1..] == rest;
  }

  lemma ConcatOfFirst(name: string, comment: seq<string>, rest: seq<string>)
    ensures Concat([name] + comment + rest) == name + Concat(comment) + Concat(rest)
  {
    assert ([name] + comment + rest)[1..] == comment + rest;
    ConcatJoin(comment, rest);
    assert name + (Concat(comment) + Concat(rest)) == name + Concat(comment) + Concat(rest);
  }

  lemma {:induction false} GroupsKeepText(prefix: string, lines: seq<string>, i: nat)
    requires i <= |lines|
    ensures Text(Groups(prefix, lines, i)) == Concat(lines[i..])
    decreases |lines| - i
  {
    if i < |lines| {
      var j := NextOpening(prefix, lines, i + 1);
      var first, rest := Group(lines[i], Concat(lines[i + 1..j])), Groups(prefix, lines, j);
      GroupsKeepText(prefix, lines, j);
      TextOfFirst(first, rest);
      ConcatOfFirst(lines[i], lines[i + 1..j], lines[j..]);
      assert lines[i..] == [lines[i]] + lines[i + 1..j] + lines[j..];
    }
  }

  /** The groups are named by the prefixed lines, one for each and in order, and together they hold
      exactly the text from the first prefixed line on. */
  lemma GroupingConservesText(prefix: string, lines: seq<string>)
    ensures Names(AllGroups(prefix, lines)) == Openings(prefix, lines)
    ensures Text(AllGroups(prefix, lines)) == Concat(lines[NextOpening(prefix, lines, 0)..])
  {
    GroupsNamed(prefix, lines, NextOpening(prefix, lines, 0));
    GroupsKeepText(prefix, lines, NextOpening(prefix, lines, 0));
    SkipToNext(prefix, lines, 0);
    assert lines[0..] == lines;
  }
}
