/** `CredentialHelper`: the search over helper commands and the parser of their output. */
module Credentials {
  import opened Wrappers

  // ---------- Parsing a helper's output ----------

  predicate IsBreak(c: char) {
    c == '\r' || c == '\n'
  }

  /** Length of the longest prefix without a line break, or made of line breaks only. */
  function Prefix(s: string, breaks: bool): (n: nat)
    ensures n <= |s| && forall i :: 0 <= i < n ==> IsBreak(s[i]) == breaks
    ensures n < |s| ==> IsBreak(s[n]) != breaks
  {
    if s == [] || IsBreak(s[0]) != breaks then 0 else 1 + Prefix(s[1..], breaks)
  }

  /** The string split at every run of line breaks. */
  function Lines(s: string): seq<string>
    decreases |s|
  {
    var n := Prefix(s, false);
    if n == |s| then [s] else [s[..n]] + Lines(s[n + Prefix(s[n..], true)..])
  }

  /** The string split at every `=`. */
  function SplitAtEquals(s: string): (parts: seq<string>)
    ensures |parts| >= 1 && (|parts| == 1 <==> '=' !in s)
  {
    if s == [] then [[]]
    else
      var rest := SplitAtEquals(s[1..]);
      if s[0] == '=' then [[]] + rest else [[s[0]] + rest[0]] + rest[1..]
  }

  /** `line` is `key`, an equals sign, `value`, and nothing more or a further equals sign and more. */
  predicate Carries(line: string, key: string, value: string) {
    && '=' !in key && '=' !in value
    && key + "=" + value <= line
    && (|line| == |key| + 1 + |value| || line[|key| + 1 + |value|] == '=')
  }

  lemma CarriesTail(line: string, key: string, value: string)
    requires line != [] && key != [] && line[0] == key[0] && line[0] != '='
    ensures Carries(line, key, value) <==> Carries(line[1..], key[1..], value)
  {
    assert key == [key[0]] + key[1..] && line == [line[0]] + line[1..];
    assert key + "=" + value == [key[0]] + (key[1..] + "=" + value);
  }

  ghost predicate HeadIs(line: string, value: string) {
    '=' !in value && value <= line && (|line| == |value| || line[|value|] == '=')
  }

  lemma CarriesHead(line: string, value: string)
    requires line != [] && line[0] == '='
    ensures Carries(line, [], value) <==> HeadIs(line[1..], value)
  {
    assert [] + "=" + value == ['='] + value;
    assert line == ['='] + line[1..];
  }

  lemma CarriesFirst(line: string, key: string, value: string)
    requires Carries(line, key, value)
    ensures line != [] && (if key == [] then line[0] == '=' else line[0] == key[0] && line[0] != '=')
  {
    assert line[0] == (key + "=" + value)[0];
  }

  lemma HeadIsCons(c: char, line: string, value: string)
    requires c != '='
    ensures HeadIs([c] + line, [c] + value) <==> HeadIs(line, value)
  {
    assert forall i :: 0 <= i < |line| ==> ([c] + line)[i + 1] == line[i];
    assert forall i :: 0 <= i < |value| ==> ([c] + value)[i + 1] == value[i];
    assert ([c] + value)[1..] == value && ([c] + line)[1..] == line;
    if [c] + value <= [c] + line {
      assert ([c] + line)[..|value| + 1] == [c] + value;
      assert line[..|value|] == ([c] + line)[..|value| + 1][1..];
    }
  }

  lemma {:induction false} HeadOfLine(line: string, value: string)
    ensures SplitAtEquals(line)[0] == value <==> HeadIs(line, value)
    decreases |line|
  {
    if line != [] && line[0] != '=' && value != [] && value[0] == line[0] {
      HeadOfLine(line[1..], value[1..]);
      assert value == [value[0]] + value[1..] && line == [line[0]] + line[1..];
      HeadIsCons(line[0], line[1..], value[1..]);
    }
  }

  lemma {:induction false} PartsOfLine(line: string, key: string, value: string)
    ensures Carries(line, key, value) <==>
            |SplitAtEquals(line)| >= 2 && SplitAtEquals(line)[0] == key && SplitAtEquals(line)[1] == value
    decreases |line|
  {
    if Carries(line, key, value) {
      CarriesFirst(line, key, value);
    }
    if line == [] {
    } else if line[0] == '=' {
      HeadOfLine(line[1..], value);
      if key == [] {
        CarriesHead(line, value);
      }
    } else if key != [] && key[0] == line[0] {
      PartsOfLine(line[1..], key[1..], value);
      CarriesTail(line, key, value);
      assert key == [key[0]] + key[1..];
    }
  }

  /** The value in the last of `lines` that carries `key`. */
  function LastValue(lines: seq<string>, key: string): Option<string> {
    if lines == [] then None
    else
      var parts := SplitAtEquals(lines[|lines| - 1]);
      if |parts| >= 2 && parts[0] == key then Some(parts[1]) else LastValue(lines[..|lines| - 1], key)
  }

  ghost predicate LastCarries(lines: seq<string>, key: string, value: string, i: int) {
    && 0 <= i < |lines|
    && Carries(lines[i], key, value)
    && forall j, v :: i < j < |lines| ==> !Carries(lines[j], key, v)
  }

  lemma {:induction false} LastValueMeaning(lines: seq<string>, key: string)
    ensures LastValue(lines, key).None? <==> forall j, v :: 0 <= j < |lines| ==> !Carries(lines[j], key, v)
    ensures LastValue(lines, key).Some? ==> exists i :: LastCarries(lines, key, LastValue(lines, key).value, i)
  {
    if lines != [] {
      var init, last := lines[..|lines| - 1], lines[|lines| - 1];
      LastValueMeaning(init, key);
      forall v ensures Carries(last, key, v) <==>
          |SplitAtEquals(last)| >= 2 && SplitAtEquals(last)[0] == key && SplitAtEquals(last)[1] == v {
        PartsOfLine(last, key, v);
      }
      assert forall j :: 0 <= j < |init| ==> lines[j] == init[j];
      var parts := SplitAtEquals(last);
      if |parts| >= 2 && parts[0] == key {
        assert LastCarries(lines, key, parts[1], |lines| - 1);
      } else if LastValue(init, key).Some? {
        var i :| LastCarries(init, key, LastValue(init, key).value, i);
        assert LastCarries(lines, key, LastValue(init, key).value, i);
      }
    }
  }

  method ParseOutput(output: string) returns (username: Option<string>, password: Option<string>)
    ensures username == LastValue(Lines(output), "username")
    ensures password == LastValue(Lines(output), "password")
  {
    username, password := None, None;
    var lines := Lines(output);
    for i := 0 to |lines|
      invariant username == LastValue(lines[..i], "username")
      invariant password == LastValue(lines[..i], "password")
    {
      assert lines[..i + 1][..i] == lines[..i];
      var parts := SplitAtEquals(lines[i]);
      if |parts| < 2 {
        continue;
      }
      if parts[0] == "username" {
        username := Some(parts[1]);
      } else if parts[0] == "password" {
        password := Some(parts[1]);
      }
    }
    assert lines[..|lines|] == lines;
  }

  // ---------- Printing and parsing back ----------

  predicate IsClean(s: string) {
    forall i :: 0 <= i < |s| ==> s[i] != '=' && s[i] != '\r' && s[i] != '\n'
  }

  /** A line ending, or several: carriage returns and newlines in any order. */
  predicate IsRun(s: string) {
    s != [] && forall i :: 0 <= i < |s| ==> s[i] == '\r' || s[i] == '\n'
  }

  /** A printed line: a key, a value and the line breaks after it. */
  datatype Entry = Entry(key: string, value: string, ending: string)

  function LineOf(e: Entry): string {
    e.key + "=" + e.value
  }

  function Print(entries: seq<Entry>): string {
    if entries == [] then [] else LineOf(entries[0]) + entries[0].ending + Print(entries[1..])
  }

  predicate IsUnbroken(s: string) {
    forall i :: 0 <= i < |s| ==> s[i] != '\r' && s[i] != '\n'
  }

  /** What the parser needs of a printed text to give back the value of `key`: no key has an equals sign,
      nothing but the endings has a line break, and only values of `key` itself must be free of equals
      signs.  The last line may end with the text. */
  ghost predicate Printable(entries: seq<Entry>, key: string) {
    entries != [] ==>
      var e := entries[0];
      && IsClean(e.key)
      && IsUnbroken(e.value)
      && (e.key == key ==> IsClean(e.value))
      && (IsRun(e.ending) || (e.ending == [] && |entries| == 1))
      && Printable(entries[1..], key)
  }

  lemma PrefixIs(s: string, n: nat, breaks: bool)
    requires n <= |s| && (n < |s| ==> IsBreak(s[n]) != breaks)
    requires forall i :: 0 <= i < n ==> IsBreak(s[i]) == breaks
    ensures Prefix(s, breaks) == n
  {
  }

  lemma PrefixOf(a: string, b: string, breaks: bool)
    requires forall i :: 0 <= i < |a| ==> IsBreak(a[i]) == breaks
    requires b != [] ==> IsBreak(b[0]) != breaks
    ensures Prefix(a + b, breaks) == |a| && (a + b)[..|a|] == a && (a + b)[|a|..] == b
  {
    PrefixIs(a + b, |a|, breaks);
  }

  lemma LinesStep(s: string, n: nat, m: nat)
    requires n < |s| && Prefix(s, false) == n && Prefix(s[n..], true) == m
    ensures Lines(s) == [s[..n]] + Lines(s[n + m..])
  {
  }

  lemma LinesOfOne(line: string, ending: string, rest: string)
    requires IsUnbroken(line)
    requires IsRun(ending) && (rest != [] ==> !IsBreak(rest[0]))
    ensures Lines(line + ending + rest) == [line] + Lines(rest)
  {
    var tail := ending + rest;
    assert line + ending + rest == line + tail;
    PrefixOf(line, tail, false);
    PrefixOf(ending, rest, true);
    LinesStep(line + tail, |line|, |ending|);
    assert (line + tail)[|line| + |ending|..] == rest;
  }

  lemma LineIsUnbroken(e: Entry)
    requires IsClean(e.key) && IsUnbroken(e.value)
    ensures IsUnbroken(LineOf(e)) && LineOf(e) != []
  {
  }

  lemma OnlyLine(line: string)
    requires IsUnbroken(line)
    ensures Lines(line) == [line]
  {
    PrefixIs(line, |line|, false);
  }

  function PrintedLines(entries: seq<Entry>): seq<string> {
    if entries == [] then [[]]
    else if entries[0].ending == [] then [LineOf(entries[0])]
    else [LineOf(entries[0])] + PrintedLines(entries[1..])
  }

  lemma {:induction false} LinesOfPrint(entries: seq<Entry>, key: string)
    requires Printable(entries, key)
    ensures Lines(Print(entries)) == PrintedLines(entries)
    ensures Print(entries) != [] ==> !IsBreak(Print(entries)[0])
  {
    if entries != [] {
      var e, rest := entries[0], Print(entries[1..]);
      LinesOfPrint(entries[1..], key);
      LineIsUnbroken(e);
      if e.ending == [] {
        assert LineOf(e) + e.ending + rest == LineOf(e);
        OnlyLine(LineOf(e));
      } else {
        LinesOfOne(LineOf(e), e.ending, rest);
      }
      assert Print(entries)[0] == LineOf(e)[0];
    }
  }

  /** The value of the last entry for `key`. */
  function LastEntry(entries: seq<Entry>, key: string): Option<string> {
    if entries == [] then None
    else match LastEntry(entries[1..], key)
         case Some(v) => Some(v)
         case None => if entries[0].key == key then Some(entries[0].value) else None
  }

  lemma {:induction false} LastValueOfCons(line: string, lines: seq<string>, key: string)
    ensures LastValue([line] + lines, key) ==
            if LastValue(lines, key).Some? then LastValue(lines, key) else LastValue([line], key)
  {
    var all := [line] + lines;
    if lines == [] {
      assert all == [line];
    } else {
      LastValueOfCons(line, lines[..|lines| - 1], key);
      assert all[..|all| - 1] == [line] + lines[..|lines| - 1];
    }
  }

  /** A line is its key's whatever follows the equals sign, and gives back a value without one. */
  lemma ValueOfLine(e: Entry, key: string)
    requires IsClean(e.key) && (e.key == key ==> IsClean(e.value))
    ensures LastValue([LineOf(e)], key) == if e.key == key then Some(e.value) else None
  {
    assert [LineOf(e)][..0] == [];
    assert '=' !in e.key && LineOf(e)[|e.key|] == '=';
    assert LineOf(e)[..|e.key|] == e.key;
    HeadOfLine(LineOf(e), e.key);
    if e.key == key {
      assert '=' !in e.value;
      PartsOfLine(LineOf(e), e.key, e.value);
    }
  }

  lemma {:induction false} PrintedValue(entries: seq<Entry>, key: string)
    requires Printable(entries, key)
    ensures LastValue(PrintedLines(entries), key) == LastEntry(entries, key)
  {
    if entries == [] {
      assert PrintedLines(entries)[..0] == [];
    } else {
      PrintedValue(entries[1..], key);
      ValueOfLine(entries[0], key);
      if entries[0].ending != [] {
        LastValueOfCons(LineOf(entries[0]), PrintedLines(entries[1..]), key);
      }
    }
  }

  lemma LeadingBreaks(lead: string, text: string)
    requires IsRun(lead) && (text != [] ==> !IsBreak(text[0]))
    ensures Lines(lead + text) == [[]] + Lines(text)
  {
    LinesOfOne([], lead, text);
    assert [] + lead == lead;
  }

  lemma BlankLine(lines: seq<string>, key: string)
    ensures LastValue([[]] + lines, key) == LastValue(lines, key)
  {
    var blank: seq<string> := [[]];
    LastValueOfCons([], lines, key);
    assert blank[..0] == [];
  }

  /** Printing entries and parsing the text gives back the value of the last entry for the key, whatever
      the other keys' values are, whatever runs of line breaks precede and end the lines, and whether or
      not the last line is ended. */
  lemma RoundTrip(entries: seq<Entry>, lead: string, key: string)
    requires Printable(entries, key) && (lead == [] || IsRun(lead))
    ensures LastValue(Lines(lead + Print(entries)), key) == LastEntry(entries, key)
  {
    LinesOfPrint(entries, key);
    PrintedValue(entries, key);
    if lead == [] {
      assert lead + Print(entries) == Print(entries);
    } else {
      LeadingBreaks(lead, Print(entries));
      BlankLine(PrintedLines(entries), key);
    }
  }

  lemma PrefixUnbroken(s: string, n: nat)
    requires n == Prefix(s, false)
    ensures IsUnbroken(s[..n])
  {
    assert forall i :: 0 <= i < n ==> !IsBreak(s[i]);
  }

  lemma {:induction false} LinesAreUnbroken(s: string, line: string)
    requires line in Lines(s)
    ensures IsUnbroken(line)
    decreases |s|
  {
    var n := Prefix(s, false);
    if n == |s| || line == s[..n] {
      PrefixUnbroken(s, n);
    } else {
      LinesAreUnbroken(s[n + Prefix(s[n..], true)..], line);
    }
  }

  lemma ValuesAreClean(s: string, key: string)
    ensures LastValue(Lines(s), key).Some? ==> IsClean(LastValue(Lines(s), key).value)
  {
    var lines := Lines(s);
    LastValueMeaning(lines, key);
    if LastValue(lines, key).Some? {
      var v := LastValue(lines, key).value;
      var i :| LastCarries(lines, key, v, i);
      LinesAreUnbroken(s, lines[i]);
      var start := |key| + 1;
      forall m | 0 <= m < |v| ensures v[m] != '=' && !IsBreak(v[m]) {
        assert (key + "=" + v)[start + m] == v[m] == lines[i][start + m];
        assert v[m] in v;
      }
    }
  }

  /** A single printed value comes back exactly when it has no equals sign and no line break. */
  lemma ValueComesBackExactly(key: string, value: string)
    requires IsClean(key)
    ensures LastValue(Lines(key + "=" + value + "\n"), key) == Some(value) <==> IsClean(value)
  {
    var s := key + "=" + value + "\n";
    if IsClean(value) {
      var e := Entry(key, value, "\n");
      assert [e][1..] == [];
      RoundTrip([e], [], key);
      assert [] + Print([e]) == s;
    }
    ValuesAreClean(s, key);
  }

  // ---------- The search ----------

  datatype Call = Call(command: string, given: Option<string>, username: Option<string>, password: Option<string>)

  /** `executeCommand`: what a helper reports for a command and the username known so far. */
  type Helper = (string, Option<string>) -> (Option<string>, Option<string>)

  predicate Given(part: Option<string>) {
    part.Some? && part.value != ""
  }

  function FirstUsername(calls: seq<Call>): Option<string> {
    if calls == [] then None
    else if Given(calls[0].username) then calls[0].username
    else FirstUsername(calls[1..])
  }

  function LastPassword(calls: seq<Call>): Option<string> {
    if calls == [] then None
    else if Given(calls[|calls| - 1].password) then calls[|calls| - 1].password
    else LastPassword(calls[..|calls| - 1])
  }

  /** The username known after `calls`: the preset one, even an empty one, else the first reported. */
  function Username(preset: Option<string>, calls: seq<Call>): Option<string> {
    if preset.Some? then preset else FirstUsername(calls)
  }

  predicate Complete(preset: Option<string>, calls: seq<Call>) {
    Given(Username(preset, calls)) && Given(LastPassword(calls))
  }

  /** The calls made if every one of `commands` is asked. */
  function Asked(preset: Option<string>, commands: seq<string>, helper: Helper): (calls: seq<Call>)
    ensures |calls| == |commands|
  {
    if commands == [] then []
    else
      var before := Asked(preset, commands[..|commands| - 1], helper);
      var given := Username(preset, before);
      var reply := helper(commands[|commands| - 1], given);
      before + [Call(commands[|commands| - 1], given, reply.0, reply.1)]
  }

  predicate CompleteAt(preset: Option<string>, commands: seq<string>, helper: Helper, k: nat)
    requires k <= |commands|
  {
    Complete(preset, Asked(preset, commands[..k], helper))
  }

  lemma {:induction false} FirstUsernameAppend(calls: seq<Call>, c: Call)
    ensures FirstUsername(calls + [c]) ==
            if FirstUsername(calls).Some? then FirstUsername(calls) else if Given(c.username) then c.username else None
  {
    if calls == [] {
      assert calls + [c] == [c];
    } else {
      FirstUsernameAppend(calls[1..], c);
      assert (calls + [c])[1..] == calls[1..] + [c];
    }
  }

  /** What one more call adds to the parts known. */
  lemma CallAppend(preset: Option<string>, calls: seq<Call>, c: Call)
    ensures Username(preset, calls + [c]) ==
            if Given(c.username) && Username(preset, calls).None? then c.username else Username(preset, calls)
    ensures LastPassword(calls + [c]) == if Given(c.password) then c.password else LastPassword(calls)
  {
    FirstUsernameAppend(calls, c);
    assert (calls + [c])[..|calls|] == calls;
  }

  lemma OneMoreCommand(preset: Option<string>, commands: seq<string>, helper: Helper, i: nat)
    requires i < |commands|
    ensures var before := Asked(preset, commands[..i], helper);
            var given := Username(preset, before);
            var reply := helper(commands[i], given);
            Asked(preset, commands[..i + 1], helper) == before + [Call(commands[i], given, reply.0, reply.1)]
  {
    assert commands[..i + 1][..i] == commands[..i];
  }

  /** What the two searches find: the first non-empty username, the last non-empty password. */
  predicate FirstGivenAt(calls: seq<Call>, u: string, i: int) {
    && 0 <= i < |calls|
    && calls[i].username == Some(u) && u != ""
    && forall j :: 0 <= j < i ==> calls[j].username == None || calls[j].username == Some("")
  }

  lemma {:induction false} FirstUsernameMeaning(calls: seq<Call>, u: string)
    ensures FirstUsername(calls) == Some(u) <==> exists i :: FirstGivenAt(calls, u, i)
  {
    if calls != [] {
      var rest := calls[1..];
      FirstUsernameMeaning(rest, u);
      assert Given(calls[0].username) && calls[0].username == Some(u) ==> FirstGivenAt(calls, u, 0);
      if i :| FirstGivenAt(rest, u, i) {
        assert forall j :: 1 <= j < i + 1 ==> calls[j] == rest[j - 1];
        assert !Given(calls[0].username) ==> FirstGivenAt(calls, u, i + 1);
      }
      if i :| FirstGivenAt(calls, u, i) {
        assert forall j :: 0 <= j < |rest| ==> rest[j] == calls[j + 1];
        assert i > 0 ==> FirstGivenAt(rest, u, i - 1);
      }
    }
  }

  predicate LastGivenAt(calls: seq<Call>, p: string, i: int) {
    && 0 <= i < |calls|
    && calls[i].password == Some(p) && p != ""
    && forall j :: i < j < |calls| ==> calls[j].password == None || calls[j].password == Some("")
  }

  lemma {:induction false} LastPasswordMeaning(calls: seq<Call>, p: string)
    ensures LastPassword(calls) == Some(p) <==>
            exists i :: LastGivenAt(calls, p, i)
  {
    if calls != [] {
      var n := |calls| - 1;
      LastPasswordMeaning(calls[..n], p);
      if i :| LastGivenAt(calls[..n], p, i) {
        assert !Given(calls[n].password) ==> LastGivenAt(calls, p, i);
      }
      if i :| LastGivenAt(calls, p, i) {
        assert i < n ==> LastGivenAt(calls[..n], p, i);
      }
      assert Given(Some(p)) && calls[n].password == Some(p) ==> LastGivenAt(calls, p, n);
    }
  }

  /** Call `i` asks command `i` with the preset username, or without one with the first non-empty username
      reported before, and records what the helper said. */
  predicate RightCall(preset: Option<string>, commands: seq<string>, helper: Helper, calls: seq<Call>, i: nat) {
    && i < |calls| <= |commands|
    && calls[i].command == commands[i]
    && (calls[i].username, calls[i].password) == helper(commands[i], calls[i].given)
    && calls[i].given == if preset.Some? then preset else FirstUsername(calls[..i])
  }

  lemma {:induction false} AskedMeaning(preset: Option<string>, commands: seq<string>, helper: Helper)
    ensures forall i :: 0 <= i < |commands| ==> RightCall(preset, commands, helper, Asked(preset, commands, helper), i)
  {
    if commands != [] {
      var calls, n := Asked(preset, commands, helper), |commands| - 1;
      var before := Asked(preset, commands[..n], helper);
      AskedMeaning(preset, commands[..n], helper);
      assert calls[..n] == before;
      forall i | 0 <= i < n ensures RightCall(preset, commands, helper, calls, i) {
        assert RightCall(preset, commands[..n], helper, before, i);
        assert calls[i] == before[i] && calls[..i] == before[..i];
      }
    }
  }

  predicate Reported(part: Option<string>) {
    part != None && part != Some("")
  }

  lemma {:induction false} NothingReported(calls: seq<Call>)
    ensures FirstUsername(calls).None? ==> forall i :: 0 <= i < |calls| ==> !Reported(calls[i].username)
    ensures LastPassword(calls).None? ==> forall i :: 0 <= i < |calls| ==> !Reported(calls[i].password)
  {
    if calls != [] {
      NothingReported(calls[1..]);
      NothingReported(calls[..|calls| - 1]);
    }
  }

  /** The search is complete once there is a username that is not empty, the preset one or else a reported one,
      and a reported password. */
  lemma CompleteExactly(preset: Option<string>, calls: seq<Call>)
    ensures FirstUsername(calls).Some? <==> exists i :: 0 <= i < |calls| && Reported(calls[i].username)
    ensures LastPassword(calls).Some? <==> exists i :: 0 <= i < |calls| && Reported(calls[i].password)
    ensures Complete(preset, calls) <==>
            && (preset.Some? ==> preset.value != "")
            && (preset.None? ==> exists i :: 0 <= i < |calls| && Reported(calls[i].username))
            && exists i :: 0 <= i < |calls| && Reported(calls[i].password)
  {
    if FirstUsername(calls).Some? {
      FirstUsernameMeaning(calls, FirstUsername(calls).value);
    }
    if LastPassword(calls).Some? {
      LastPasswordMeaning(calls, LastPassword(calls).value);
    }
    NothingReported(calls);
  }

  /** Some helper makes the search over `commands` succeed, exactly when there is a command to ask and the
      preset username is not the empty one: that one is kept although it never counts as known. */
  lemma SearchCanSucceedExactly(preset: Option<string>, commands: seq<string>)
    ensures (exists helper, k: nat :: k <= |commands| && CompleteAt(preset, commands, helper, k)) <==>
            preset != Some("") && commands != []
  {
    if preset != Some("") && commands != [] {
      var helper: Helper := (command, given) => (Some("u"), Some("p"));
      assert commands[..1] == [commands[0]] && [commands[0]][..0] == [];
      var c := Call(commands[0], preset, Some("u"), Some("p"));
      assert Asked(preset, commands[..1], helper) == [] + [c] == [c];
      assert CompleteAt(preset, commands, helper, 1);
    }
    forall helper, k: nat | k <= |commands| && CompleteAt(preset, commands, helper, k)
      ensures preset != Some("") && commands != []
    {
      assert |Asked(preset, commands[..k], helper)| == k;
    }
  }

  function WithoutBangs(cmd: string): string {
    if cmd != [] && cmd[0] == '!' then WithoutBangs(cmd[1..]) else cmd
  }

  function Normalized(cmd: string): string {
    if cmd != [] && cmd[0] == '!' then WithoutBangs(cmd)
    else if '/' in cmd || '\\' in cmd then cmd
    else "git credential-" + cmd
  }

  /** A shell command loses its leading bangs, all of them and nothing else. */
  lemma {:induction false} WithoutBangsMeaning(cmd: string)
    ensures var r := WithoutBangs(cmd);
            && |r| <= |cmd| && r == cmd[|cmd| - |r|..]
            && (forall i :: 0 <= i < |cmd| - |r| ==> cmd[i] == '!')
            && (r != [] ==> r[0] != '!')
  {
    if cmd != [] && cmd[0] == '!' {
      WithoutBangsMeaning(cmd[1..]);
      assert forall i :: 1 <= i < |cmd| ==> cmd[i] == cmd[1..][i - 1];
    }
  }

  /** The three kinds of command: a shell command, a path, and the name of a git credential command. */
  lemma NormalizedMeaning(cmd: string)
    ensures var r := Normalized(cmd);
            if "!" <= cmd then r == WithoutBangs(cmd)
            else if exists i :: 0 <= i < |cmd| && (cmd[i] == '/' || cmd[i] == '\\') then r == cmd
            else |r| == 15 + |cmd| && r[..15] == "git credential-" && r[15..] == cmd
  {
  }

  /** A configuration: a missing key makes `getEntry` throw, a present one may have no value. */
  type Config = map<string, Option<string>>

  class CredentialHelper {
    const url: string
    const protocol: Option<string>
    const host: Option<string>
    const helper: Helper
    var username: Option<string>
    var commands: seq<string>

    constructor (url: string, protocol: Option<string>, host: Option<string>, helper: Helper)
      ensures username == None && commands == []
      ensures this.url == url && this.protocol == protocol && this.host == host && this.helper == helper
    {
      this.url, this.protocol, this.host, this.helper := url, protocol, host, helper;
      username, commands := None, [];
    }

    function ExactKey(name: string): Option<string> {
      if url == "" then None else Some("credential." + url + "." + name)
    }

    function Shown(part: Option<string>): string {
      if part.Some? then part.value else "null"
    }

    /** A part that is missing altogether does not stop the key from being built. */
    function UrlKey(name: string): Option<string> {
      if protocol == Some("") || host == Some("") then None
      else Some("credential." + Shown(protocol) + "://" + Shown(host) + "." + name)
    }

    /** The keys, character by character; a missing part reads "null", an empty one leaves no key. */
    lemma KeysSpelled(name: string, p: string, h: string)
      requires protocol == Some(p) || (protocol.None? && p == "null")
      requires host == Some(h) || (host.None? && h == "null")
      ensures ExactKey(name).None? <==> url == ""
      ensures ExactKey(name).Some? ==>
                var k := ExactKey(name).value;
                && |k| == 12 + |url| + |name|
                && k[..11] == "credential." && k[11..11 + |url|] == url
                && k[11 + |url|] == '.' && k[12 + |url|..] == name
      ensures UrlKey(name).None? <==> p == "" || h == ""
      ensures UrlKey(name).Some? ==>
                var k, n := UrlKey(name).value, |p| + |h|;
                && |k| == 15 + n + |name|
                && k[..11] == "credential." && k[11..11 + |p|] == p
                && k[11 + |p|..14 + |p|] == "://" && k[14 + |p|..14 + n] == h
                && k[14 + n] == '.' && k[15 + n..] == name
    {
    }

    /** The commands one configuration key contributes; a null key is looked up as the empty one. */
    function Contributed(config: Config, key: Option<string>): seq<string> {
      var k := if key.Some? then key.value else "";
      if k in config && config[k].Some? then [Normalized(config[k].value)] else []
    }

    method AddCommand(cmd: Option<string>)
      modifies this`commands
      ensures commands == old(commands) + (if cmd.Some? then [Normalized(cmd.value)] else [])
    {
      if cmd.Some? {
        commands := commands + [Normalized(cmd.value)];
      }
    }

    /** The most specific helper is asked first. */
    method ConfigHelper(config: Config)
      modifies this`commands
      ensures commands == old(commands) + Contributed(config, ExactKey("helper")) +
                          Contributed(config, UrlKey("helper")) + Contributed(config, Some("credential.helper"))
    {
      AddConfigured(config, ExactKey("helper"));
      AddConfigured(config, UrlKey("helper"));
      AddConfigured(config, Some("credential.helper"));
    }

    method AddConfigured(config: Config, key: Option<string>)
      modifies this`commands
      ensures commands == old(commands) + Contributed(config, key)
      ensures forall k, c :: (key == Some(k) || (key.None? && k == "")) && k in config && config[k] == Some(c) ==>
                               commands == old(commands) + [Normalized(c)]
      ensures forall k :: (key == Some(k) || (key.None? && k == "")) && (k !in config || config[k].None?) ==>
                            commands == old(commands)
    {
      var k := if key.Some? then key.value else "";
      if k in config {
        AddCommand(config[k]);
      }
    }

    /** A pair exactly when some prefix of the commands makes both parts known; then the calls made are
        those of the shortest such prefix, and otherwise those of all commands. */
    method Execute() returns (result: Option<(string, string)>, calls: seq<Call>)
      ensures |calls| <= |commands| && calls == Asked(username, commands[..|calls|], helper)
      ensures forall k :: 0 <= k < |calls| ==> !CompleteAt(username, commands, helper, k)
      ensures result.Some? <==> CompleteAt(username, commands, helper, |calls|)
      ensures result.None? ==> |calls| == |commands|
      ensures forall i :: 0 <= i < |calls| ==> RightCall(username, commands[..|calls|], helper, calls, i)
      ensures result.Some? ==>
                && Some(result.value.0) == (if username.Some? then username else FirstUsername(calls))
                && Some(result.value.1) == LastPassword(calls)
    {
      var user := username;
      var password: Option<string> := None;
      calls := [];
      assert commands[..0] == [];
      for i := 0 to |commands|
        invariant calls == Asked(username, commands[..i], helper)
        invariant user == Username(username, calls) && password == LastPassword(calls)
        invariant forall k :: 0 <= k <= i ==> !CompleteAt(username, commands, helper, k)
      {
        var (u, p) := helper(commands[i], user);
        var call := Call(commands[i], user, u, p);
        OneMoreCommand(username, commands, helper, i);
        CallAppend(username, calls, call);
        calls := calls + [call];
        if Given(u) && user.None? {
          user := u;
        }
        if Given(p) {
          password := p;
        }
        if Given(user) && Given(password) {
          AskedMeaning(username, commands[..i + 1], helper);
          return Some((user.value, password.value)), calls;
        }
      }
      AskedMeaning(username, commands, helper);
      assert commands[..|commands|] == commands;
      result := None;
    }
  }
}
