/** `readline`: a line of input in a buffer that grows sixteen bytes at a time. */
module ReadLine {

  const NEWLINE := '\n' as int

  /** What the caller gets: the length of the line, -1, or, when the terminating NUL would be written at
      `line[length]` with no room for it, nothing that C defines. */
  datatype Outcome = Length(n: nat) | Failed | NoRoom

  /** Index of the first newline, or the length of an input without one. */
  function LineEnd(input: seq<int>): (k: nat)
    ensures k <= |input| && (k < |input| ==> input[k] == NEWLINE)
    ensures forall i :: 0 <= i < k ==> input[i] != NEWLINE
  {
    if input == [] || input[0] == NEWLINE then 0 else 1 + LineEnd(input[1..])
  }

  predicate Terminated(input: seq<int>) {
    LineEnd(input) < |input|
  }

  /** The least multiple of 16 that is not below `n`. */
  function Rounded(n: nat): (m: nat)
    ensures n <= m < n + 16 && m % 16 == 0
  {
    16 * ((n + 15) / 16)
  }

  lemma RoundedStep(n: nat)
    ensures Rounded(n + 1) == if n == Rounded(n) then n + 16 else Rounded(n)
    ensures 16 * (n / 16 + 1) == Rounded(n + 1)
  {
  }

  /** Size of the buffer at the end: a newline, like every byte before it, makes sure of one free byte. */
  function Capacity(input: seq<int>): nat {
    var k := LineEnd(input);
    if Terminated(input) then 16 * (k / 16 + 1) else Rounded(k)
  }

  /** `realloc` grants every size the buffer grows through. */
  ghost predicate Granted(input: seq<int>, allocOk: nat -> bool) {
    forall j: nat :: 16 <= j <= Capacity(input) && j % 16 == 0 ==> allocOk(j)
  }

  /** The NUL has room exactly when the line is terminated or its length is no multiple of 16. */
  lemma RoomForNul(input: seq<int>)
    ensures Terminated(input) <==> '\n' as int in input
    ensures LineEnd(input) < Capacity(input) <==> Terminated(input) || LineEnd(input) % 16 != 0
    ensures LineEnd(input) <= Capacity(input) <= LineEnd(input) + 16 && Capacity(input) % 16 == 0
  {
    RoundedStep(LineEnd(input));
  }

  lemma RoundedUnique(n: nat, m: nat)
    requires n <= m < n + 16 && m % 16 == 0
    ensures m == Rounded(n)
  {
  }

  lemma RoundedMonotone(a: nat, b: nat)
    requires a <= b
    ensures Rounded(a) <= Rounded(b)
  {
  }

  /** The buffer grows to `size` for byte `n`: a size the buffer has at the end or grows through. */
  lemma GrowsWithin(input: seq<int>, n: nat, size: nat)
    requires n < |input| && n <= LineEnd(input) && size % 16 == 0 && n < size <= n + 16
    ensures size <= Capacity(input)
  {
    var k := LineEnd(input);
    RoundedUnique(n + 1, size);
    RoundedStep(k);
    RoundedMonotone(n + 1, if Terminated(input) then k + 1 else k);
  }

  /** The size the buffer has when the line is read. */
  lemma FinalSize(input: seq<int>, size: nat)
    requires size % 16 == 0
    requires var k := LineEnd(input); if Terminated(input) then k < size <= k + 16 else k <= size < k + 16
    ensures size == Capacity(input)
  {
    var k := LineEnd(input);
    RoundedStep(k);
    RoundedUnique(if Terminated(input) then k + 1 else k, size);
  }

  method Realloc(old_: array<int>, size: nat) returns (grown: array<int>)
    requires old_.Length <= size
    ensures fresh(grown) && grown.Length == size
    ensures forall i :: 0 <= i < old_.Length ==> grown[i] == old_[i]
  {
    grown := new int[size](_ => 0);
    for i := 0 to old_.Length
      invariant forall j :: 0 <= j < i ==> grown[j] == old_[j]
      modifies grown
    {
      grown[i] := old_[i];
    }
  }

  method Terminate(line: array<int>, length: nat) returns (outcome: Outcome)
    requires length <= line.Length
    modifies line
    ensures outcome == if length < line.Length then Length(length) else NoRoom
    ensures length < line.Length ==> line[length] == 0
    ensures line[..length] == old(line[..length])
  {
    if length < line.Length {
      line[length] := 0;
      outcome := Length(length);
    } else {
      outcome := NoRoom;
    }
  }

  /** The loop: the bytes up to the first newline, or as far as `realloc` lets the buffer grow. */
  method ReadBytes(input: seq<int>, allocOk: nat -> bool) returns (line: array<int>, length: nat, granted: bool)
    ensures fresh(line) && (granted <==> Granted(input, allocOk))
    ensures granted ==> length == LineEnd(input) <= line.Length == Capacity(input)
    ensures granted ==> forall i :: 0 <= i < length ==> line[i] == input[i]
  {
    line, length := new int[0], 0;
    var capacity, pos := 0, 0;
    while pos < |input|
      invariant 0 <= length == pos <= LineEnd(input)
      invariant length <= capacity == line.Length < length + 16 && capacity % 16 == 0
      invariant forall i :: 0 <= i < length ==> line[i] == input[i]
      invariant fresh(line)
      invariant forall j: nat :: 16 <= j <= capacity && j % 16 == 0 ==> allocOk(j)
      decreases |input| - pos
    {
      var c := input[pos];
      pos := pos + 1;
      if length == capacity {
        capacity := capacity + 16;
        GrowsWithin(input, length, capacity);
        if !allocOk(capacity) {
          return line, length, false;
        }
        line := Realloc(line, capacity);
      }
      if c == NEWLINE {
        break;
      }
      line[length] := c;
      length := length + 1;
    }
    FinalSize(input, capacity);
    granted := true;
  }

  /** `input` is what `getchar` returns before it returns EOF, `readError` whether errno is set then. */
  method Readline(input: seq<int>, readError: bool, allocOk: nat -> bool) returns (outcome: Outcome, line: array<int>)
    ensures outcome.Failed? <==> readError || !Granted(input, allocOk)
    ensures outcome.NoRoom? ==> !Terminated(input) && LineEnd(input) % 16 == 0
    ensures outcome.Length? ==>
              var k := LineEnd(input);
              && outcome.n == k < line.Length == Capacity(input)
              && line[..k] == input[..k] && line[k] == 0
    ensures outcome.Length? ==> Terminated(input) || LineEnd(input) % 16 != 0
  {
    var length, granted;
    line, length, granted := ReadBytes(input, allocOk);
    if !granted || readError {
      return Failed, line;
    }
    RoomForNul(input);
    assert line[..length] == input[..length];
    outcome := Terminate(line, length);
  }
}
