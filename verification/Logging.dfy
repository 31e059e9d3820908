/** `Logger`: placeholder expansion, and output that is queued until a backend is connected. */
module Logging {
  import opened Wrappers

  // ---------- Placeholders ----------

  const HOLE := "{}"
  const TOO_MANY := "ERROR: Tried to log more '{}' placeholders than there are values"

  predicate StartsWithHole(s: string) {
    |s| >= 2 && s[0] == '{' && s[1] == '}'
  }

  /** The message split at its placeholders. */
  function Pieces(msg: string): (pieces: seq<string>)
    ensures |pieces| >= 1
  {
    if msg == [] then [[]]
    else if StartsWithHole(msg) then [[]] + Pieces(msg[2..])
    else
      var rest := Pieces(msg[1..]);
      [[msg[0]] + rest[0]] + rest[1..]
  }

  function Join(pieces: seq<string>): string
    requires pieces != []
  {
    if |pieces| == 1 then pieces[0] else pieces[0] + HOLE + Join(pieces[1..])
  }

  ghost predicate HoleFree(s: string) {
    forall i :: 0 <= i < |s| ==> !StartsWithHole(s[i..])
  }

  ghost predicate AllHoleFree(pieces: seq<string>) {
    forall i :: 0 <= i < |pieces| ==> HoleFree(pieces[i])
  }

  lemma HoleFreeCons(c: char, s: string)
    ensures HoleFree([c] + s) <==> HoleFree(s) && !(c == '{' && s != [] && s[0] == '}')
  {
    var t := [c] + s;
    assert t[0..] == t;
    if HoleFree(t) {
      assert !StartsWithHole(t[0..]);
      forall i | 0 <= i < |s| ensures !StartsWithHole(s[i..]) {
        assert t[i + 1..] == s[i..];
      }
    }
    if HoleFree(s) && !StartsWithHole(t) {
      forall i | 0 <= i < |t| ensures !StartsWithHole(t[i..]) {
        assert i > 0 ==> t[i..] == s[i - 1..];
      }
    }
  }

  lemma JoinCons(c: char, pieces: seq<string>)
    requires pieces != []
    ensures Join([[c] + pieces[0]] + pieces[1..]) == [c] + Join(pieces)
  {
    var longer := [[c] + pieces[0]] + pieces[1..];
    if |pieces| > 1 {
      assert longer[1..] == pieces[1..];
      assert [c] + (pieces[0] + HOLE + Join(pieces[1..])) == [c] + pieces[0] + HOLE + Join(pieces[1..]);
    }
  }

  lemma {:induction false} PiecesOfMessage(msg: string)
    ensures Join(Pieces(msg)) == msg && AllHoleFree(Pieces(msg))
    ensures Pieces(msg)[0] != [] ==> msg != [] && Pieces(msg)[0][0] == msg[0]
    decreases |msg|
  {
    if StartsWithHole(msg) {
      PiecesOfMessage(msg[2..]);
      assert ([[]] + Pieces(msg[2..]))[1..] == Pieces(msg[2..]);
      assert msg == [] + HOLE + msg[2..];
    } else if msg != [] {
      PiecesOfMessage(msg[1..]);
      var rest := Pieces(msg[1..]);
      HoleFreeCons(msg[0], rest[0]);
      JoinCons(msg[0], rest);
      assert msg == [msg[0]] + msg[1..];
    }
  }

  /** The pieces are the only hole-free strings that make up the message with holes between them. */
  lemma {:induction false} PiecesUnique(msg: string, pieces: seq<string>)
    requires pieces != [] && Join(pieces) == msg && AllHoleFree(pieces)
    ensures pieces == Pieces(msg)
    decreases |msg|
  {
    var p, more := pieces[0], pieces[1..];
    assert HoleFree(p);
    if p == [] {
      if more != [] {
        assert msg == HOLE + Join(more);
        PiecesUnique(msg[2..], more);
        assert pieces == [[]] + more;
      }
    } else {
      var tail := [p[1..]] + more;
      assert p == [p[0]] + p[1..];
      HoleFreeCons(p[0], p[1..]);
      assert tail[1..] == more;
      assert msg == [p[0]] + Join(tail) by {
        assert more != [] ==> [p[0]] + (p[1..] + HOLE + Join(more)) == p + HOLE + Join(more);
      }
      assert msg[1..] == Join(tail);
      assert more != [] && |p| == 1 ==> msg[1] == '{';
      assert |p| > 1 ==> msg[1] == p[1];
      assert !StartsWithHole(msg);
      PiecesUnique(msg[1..], tail);
      assert pieces == [[p[0]] + tail[0]] + tail[1..];
    }
  }

  function Shown(value: Option<string>): string {
    if value.Some? then value.value else "null"
  }

  /** The pieces with the values between them, in order. */
  function Weave(pieces: seq<string>, values: seq<Option<string>>): string
    requires 1 <= |pieces| <= |values| + 1
  {
    if |pieces| == 1 then pieces[0] else pieces[0] + Shown(values[0]) + Weave(pieces[1..], values[1..])
  }

  function Expanded(msg: string, values: seq<Option<string>>): Option<string> {
    if |Pieces(msg)| - 1 > |values| then None else Some(Weave(Pieces(msg), values))
  }

  /** What the loop returns. */
  function Inserted(msg: string, values: seq<Option<string>>): string {
    if |Pieces(msg)| - 1 > |values| then TOO_MANY else Weave(Pieces(msg), values)
  }

  function Prepend(s: string, rest: Option<string>): Option<string> {
    if rest.Some? then Some(s + rest.value) else None
  }

  lemma ExpandChar(msg: string, values: seq<Option<string>>)
    requires msg != [] && !StartsWithHole(msg)
    ensures Expanded(msg, values) == Prepend([msg[0]], Expanded(msg[1..], values))
  {
    var rest := Pieces(msg[1..]);
    assert Pieces(msg)[1..] == rest[1..];
    if 1 < |rest| <= |values| + 1 {
      var w := Weave(rest[1..], values[1..]);
      assert [msg[0]] + rest[0] + Shown(values[0]) + w == [msg[0]] + (rest[0] + Shown(values[0]) + w);
    }
  }

  lemma ExpandHole(msg: string, values: seq<Option<string>>)
    requires StartsWithHole(msg)
    ensures Expanded(msg, values) ==
            if values == [] then None else Prepend(Shown(values[0]), Expanded(msg[2..], values[1..]))
  {
    assert Pieces(msg)[1..] == Pieces(msg[2..]);
    assert values != [] ==> [] + Shown(values[0]) == Shown(values[0]);
  }

  lemma PrependTwice(a: string, b: string, rest: Option<string>)
    ensures Prepend(a + b, rest) == Prepend(a, Prepend(b, rest))
  {
    if rest.Some? {
      assert a + b + rest.value == a + (b + rest.value);
    }
  }

  /** The error text when there are more placeholders than values, and otherwise the pieces of the
      message with the values between them: inserted text is not looked at again. */
  method InsertPlaceholders(msg: string, placeholders: seq<Option<string>>) returns (text: string)
    ensures text == Inserted(msg, placeholders)
  {
    var lastIndex := |msg| - 1;
    var charIndex, placeholderIndex := 0, 0;
    var result := "";
    ghost var expanded := Expanded(msg, placeholders);
    assert expanded.Some? ==> result + expanded.value == expanded.value;
    while charIndex < |msg|
      invariant 0 <= charIndex <= |msg| && 0 <= placeholderIndex <= |placeholders|
      invariant expanded == Prepend(result, Expanded(msg[charIndex..], placeholders[placeholderIndex..]))
    {
      ghost var rest, values := msg[charIndex..], placeholders[placeholderIndex..];
      var currentChar := msg[charIndex];
      var nextChar := if charIndex != lastIndex then msg[charIndex + 1] else '?';
      if currentChar == '{' && nextChar == '}' {
        ExpandHole(rest, values);
        if placeholderIndex >= |placeholders| {
          return TOO_MANY;
        }
        assert rest[2..] == msg[charIndex + 2..] && values[1..] == placeholders[placeholderIndex + 1..];
        PrependTwice(result, Shown(values[0]), Expanded(rest[2..], values[1..]));
        result := result + Shown(placeholders[placeholderIndex]);
        placeholderIndex := placeholderIndex + 1;
        charIndex := charIndex + 2;
      } else {
        ExpandChar(rest, values);
        assert rest[1..] == msg[charIndex + 1..];
        PrependTwice(result, [currentChar], Expanded(rest[1..], values));
        result := result + [currentChar];
        charIndex := charIndex + 1;
      }
    }
    assert Expanded([], placeholders[placeholderIndex..]) == Some([]);
    text := result;
  }

  /** The i-th placeholder is where the i-th value stands, whatever the others are; null reads "null". */
  lemma {:induction false} ValueInPlace(pieces: seq<string>, values: seq<Option<string>>, i: nat)
    requires i + 1 < |pieces| <= |values| + 1
    ensures var shown := if values[i] == None then "null" else values[i].value;
            Weave(pieces, values) ==
            Weave(pieces[..i + 1], values[..i]) + shown + Weave(pieces[i + 1..], values[i + 1..])
  {
    var after := Weave(pieces[i + 1..], values[i + 1..]);
    if i == 0 {
      assert pieces[..1] == [pieces[0]];
    } else {
      var tail, rest := pieces[1..], values[1..];
      ValueInPlace(tail, rest, i - 1);
      assert tail[..i] == pieces[..i + 1][1..] && rest[..i - 1] == values[..i][1..];
      assert tail[i..] == pieces[i + 1..] && rest[i..] == values[i + 1..];
      var first, front := pieces[0] + Shown(values[0]), Weave(tail[..i], rest[..i - 1]);
      assert first + (front + Shown(values[i]) + after) == first + front + Shown(values[i]) + after;
    }
  }

  function Holes(n: nat): (values: seq<Option<string>>)
    ensures |values| == n
  {
    if n == 0 then [] else [Some(HOLE)] + Holes(n - 1)
  }

  lemma {:induction false} WeaveHoles(pieces: seq<string>)
    requires pieces != []
    ensures Weave(pieces, Holes(|pieces| - 1)) == Join(pieces)
  {
    if |pieces| > 1 {
      WeaveHoles(pieces[1..]);
      assert Holes(|pieces| - 1)[1..] == Holes(|pieces| - 2);
    }
  }

  /** Inserted text is not expanded again: values that read like placeholders give the message back. */
  lemma HolesAreInert(msg: string)
    ensures Expanded(msg, Holes(|Pieces(msg)| - 1)) == Some(msg)
  {
    PiecesOfMessage(msg);
    WeaveHoles(Pieces(msg));
  }

  // ---------- What the error text proves ----------

  /** The pieces occur in `text` in order and apart, the first at its start and the last at its end. */
  predicate Fits(pieces: seq<string>, text: string)
    requires pieces != []
    decreases |pieces|
  {
    if |pieces| == 1 then pieces[0] == text
    else pieces[0] <= text && exists k :: |pieces[0]| <= k <= |text| && Fits(pieces[1..], text[k..])
  }

  lemma {:induction false} WeaveFits(pieces: seq<string>, values: seq<Option<string>>)
    requires 1 <= |pieces| <= |values| + 1
    ensures Fits(pieces, Weave(pieces, values))
  {
    if |pieces| > 1 {
      var text, rest := Weave(pieces, values), Weave(pieces[1..], values[1..]);
      WeaveFits(pieces[1..], values[1..]);
      var k := |pieces[0]| + |Shown(values[0])|;
      assert text[k..] == rest && text[..|pieces[0]|] == pieces[0];
    }
  }

  lemma {:induction false} FittingValues(pieces: seq<string>, text: string) returns (values: seq<Option<string>>)
    requires pieces != [] && Fits(pieces, text)
    ensures |values| == |pieces| - 1 && Weave(pieces, values) == text
  {
    if |pieces| == 1 {
      values := [];
    } else {
      var n := |pieces[0]|;
      var k :| n <= k <= |text| && Fits(pieces[1..], text[k..]);
      var more := FittingValues(pieces[1..], text[k..]);
      values := [Some(text[n..k])] + more;
      assert values[1..] == more;
      assert text == pieces[0] + text[n..k] + text[k..];
    }
  }

  /** Some values make the message expand to `text` exactly when its pieces fit the text. */
  lemma ExpandsToExactly(msg: string, text: string)
    ensures (exists values :: Expanded(msg, values) == Some(text)) <==> Fits(Pieces(msg), text)
  {
    forall values | Expanded(msg, values) == Some(text) ensures Fits(Pieces(msg), text) {
      WeaveFits(Pieces(msg), values);
    }
    if Fits(Pieces(msg), text) {
      var values := FittingValues(Pieces(msg), text);
      assert Expanded(msg, values) == Some(text);
    }
  }

  /** For a message, getting the error text means that values were missing, whatever they are, exactly when
      the message cannot be filled in to read like the error text. */
  lemma ErrorTextProvesErrorExactly(msg: string)
    ensures (forall values :: Inserted(msg, values) == TOO_MANY <==> |Pieces(msg)| - 1 > |values|) <==>
            !Fits(Pieces(msg), TOO_MANY)
  {
    ExpandsToExactly(msg, TOO_MANY);
    forall values ensures Inserted(msg, values) == TOO_MANY <==>
                          |Pieces(msg)| - 1 > |values| || Expanded(msg, values) == Some(TOO_MANY) {
    }
    if Fits(Pieces(msg), TOO_MANY) {
      var values :| Expanded(msg, values) == Some(TOO_MANY);
      assert Inserted(msg, values) == TOO_MANY;
    }
  }

  lemma OnePlaceholder()
    ensures Pieces("{}") == [[], []]
  {
    assert "{}"[2..] == [];
    assert Pieces("{}"[2..]) == [[]];
  }

  /** A message that is one placeholder reads like its value, like "null" for null, and like the error text
      without one. */
  lemma PlaceholderAlone(value: string)
    ensures Inserted("{}", [Some(value)]) == value
    ensures Inserted("{}", [None]) == "null"
    ensures Inserted("{}", []) == "ERROR: Tried to log more '{}' placeholders than there are values"
  {
    OnePlaceholder();
    var blanks: seq<string> := [[], []];
    forall v: Option<string> ensures Weave(blanks, [v]) == Shown(v) {
      assert blanks[1..] == [[]] && [v][1..] == [];
      assert [] + Shown(v) + [] == Shown(v);
    }
  }

  /** So the message "{}" with the error text for its value gives the error text although nothing is missing. */
  lemma ErrorTextWithoutError()
    ensures |Pieces("{}")| - 1 == |[Some(TOO_MANY)]| && Inserted("{}", [Some(TOO_MANY)]) == TOO_MANY
    ensures Fits(Pieces("{}"), TOO_MANY)
  {
    OnePlaceholder();
    PlaceholderAlone(TOO_MANY);
    WeaveFits(Pieces("{}"), [Some(TOO_MANY)]);
  }

  // ---------- The line format ----------

  /** None stands for the exception of a substring that starts past the end. */
  function ShortenOrPad(str: string, length: nat): Option<string> {
    if |str| <= length then Some(str + seq(length - |str|, i => ' '))
    else if |str| - length + 2 <= |str| then Some(".." + str[|str| - length + 2..])
    else None
  }

  /** The result has the asked-for length: the string and then spaces, or two dots and then the end of the string.
      It fails exactly for a longer string and a length below 2. */
  lemma ShortenOrPadLength(str: string, length: nat)
    ensures ShortenOrPad(str, length).None? <==> |str| > length && length < 2
    ensures ShortenOrPad(str, length).Some? ==>
              var r := ShortenOrPad(str, length).value;
              && |r| == length
              && if |str| <= length then str <= r && forall i :: |str| <= i < length ==> r[i] == ' '
                 else r[0] == '.' && r[1] == '.' && forall i :: 2 <= i < length ==> r[i] == str[|str| - length + i]
  {
  }

  // ---------- Queue, then flush ----------

  datatype Level = NONE | ERROR | WARN | INFO | DEBUG | TRACE | DEEP_TRACE | ALL {
    function Value(): int {
      match this
      case NONE => 100
      case ERROR => 2
      case WARN => 1
      case INFO => 0
      case DEBUG => -1
      case TRACE => -2
      case DEEP_TRACE => -3
      case ALL => -100
    }
  }

  predicate Passes(threshold: Level, level: Level) {
    threshold.Value() <= level.Value()
  }

  /** The levels from the most to the least detailed. */
  const LEVELS := [ALL, DEEP_TRACE, TRACE, DEBUG, INFO, WARN, ERROR, NONE]

  /** A threshold lets through its own level and those after it in the list, and each level is in the list once. */
  lemma LevelsOrdered(i: nat, j: nat, level: Level)
    requires i < 8 && j < 8
    ensures Passes(LEVELS[i], LEVELS[j]) <==> i <= j
    ensures level in LEVELS && (LEVELS[i] == LEVELS[j] <==> i == j)
  {
  }

  datatype Message = Message(level: Level, text: string)

  datatype Event = Log(message: Message) | SetLevel(level: Level) | Connect(backend: nat)

  /** `delivered` records which backend was given which message. */
  datatype State = State(level: Level, backend: Option<nat>, queue: seq<Message>, delivered: seq<(nat, Message)>)

  const START := State(INFO, None, [], [])

  function To(backend: nat, messages: seq<Message>): (ds: seq<(nat, Message)>)
    ensures |ds| == |messages| && forall i :: 0 <= i < |ds| ==> ds[i] == (backend, messages[i])
  {
    if messages == [] then [] else [(backend, messages[0])] + To(backend, messages[1..])
  }

  function Step(s: State, e: Event): State {
    match e
    case Log(m) =>
      if !Passes(s.level, m.level) then s
      else if s.backend.None? then s.(queue := s.queue + [m])
      else s.(delivered := s.delivered + [(s.backend.value, m)])
    case SetLevel(level) => s.(level := level)
    case Connect(b) => s.(backend := Some(b), queue := [], delivered := s.delivered + To(b, s.queue))
  }

  function Run(s: State, events: seq<Event>): State {
    if events == [] then s else Step(Run(s, events[..|events| - 1]), events[|events| - 1])
  }

  function Texts(delivered: seq<(nat, Message)>): seq<Message> {
    if delivered == [] then [] else [delivered[0].1] + Texts(delivered[1..])
  }

  /** The level that the last change before set. */
  function LevelAfter(events: seq<Event>): Level {
    if events == [] then INFO
    else if events[|events| - 1].SetLevel? then events[|events| - 1].level
    else LevelAfter(events[..|events| - 1])
  }

  function LastConnected(events: seq<Event>): Option<nat> {
    if events == [] then None
    else if events[|events| - 1].Connect? then Some(events[|events| - 1].backend)
    else LastConnected(events[..|events| - 1])
  }

  /** The messages that passed the level test when they were logged. */
  function Passed(events: seq<Event>): seq<Message> {
    if events == [] then []
    else
      var before, last := events[..|events| - 1], events[|events| - 1];
      Passed(before) +
      (if last.Log? && Passes(LevelAfter(before), last.message.level) then [last.message] else [])
  }

  lemma {:induction false} TextsJoin(a: seq<(nat, Message)>, b: seq<(nat, Message)>)
    ensures Texts(a + b) == Texts(a) + Texts(b)
  {
    if a == [] {
      assert a + b == b;
    } else {
      TextsJoin(a[1..], b);
      assert (a + b)[1..] == a[1..] + b;
    }
  }

  lemma {:induction false} TextsOfTo(b: nat, messages: seq<Message>)
    ensures Texts(To(b, messages)) == messages
  {
    if messages != [] {
      TextsOfTo(b, messages[1..]);
      assert To(b, messages)[1..] == To(b, messages[1..]);
    }
  }

  /** Over every run: what was delivered, followed by what is still queued, is every message that passed
      its level test, once and in order; and nothing is queued once a backend is connected. */
  lemma {:induction false} DeliveredThenQueued(events: seq<Event>)
    ensures Texts(Run(START, events).delivered) + Run(START, events).queue == Passed(events)
    ensures Run(START, events).backend.Some? ==> Run(START, events).queue == []
    ensures Run(START, events).level == LevelAfter(events)
    ensures Run(START, events).backend == LastConnected(events)
  {
    if events != [] {
      var before, last := events[..|events| - 1], events[|events| - 1];
      DeliveredThenQueued(before);
      var s := Run(START, before);
      match last {
        case Log(m) =>
          if s.backend.Some? {
            TextsJoin(s.delivered, [(s.backend.value, m)]);
          }
        case SetLevel(_) =>
        case Connect(b) =>
          TextsJoin(s.delivered, To(b, s.queue));
          TextsOfTo(b, s.queue);
      }
    }
  }

  lemma {:induction false} NothingDelivered(events: seq<Event>)
    requires LastConnected(events).None?
    ensures Run(START, events).delivered == [] && Run(START, events).backend.None?
  {
    if events != [] {
      NothingDelivered(events[..|events| - 1]);
    }
  }

  /** Who is given what: the first backend everything that passed before it was connected, and the backend
      connected last each message that passes later. */
  lemma Recipients(events: seq<Event>, next: Event)
    ensures next.Connect? && LastConnected(events).None? ==>
              Run(START, events + [next]).delivered == To(next.backend, Passed(events))
    ensures next.Log? && LastConnected(events).Some? && Passed(events + [next]) != Passed(events) ==>
              Run(START, events + [next]).delivered ==
              Run(START, events).delivered + [(LastConnected(events).value, next.message)]
    ensures next.Connect? && LastConnected(events).Some? ==>
              Run(START, events + [next]).delivered == Run(START, events).delivered
  {
    DeliveredThenQueued(events);
    assert (events + [next])[..|events|] == events;
    var delivered := Run(START, events).delivered;
    if LastConnected(events).None? {
      NothingDelivered(events);
      assert Texts(delivered) == [] && [] + Run(START, events).queue == Run(START, events).queue;
      assert next.Connect? ==> [] + To(next.backend, Passed(events)) == To(next.backend, Passed(events));
    } else {
      assert delivered + [] == delivered;
      assert Passed(events) + [] == Passed(events);
    }
  }

  class Logger {
    var level: Level
    var outBackend: Option<nat>
    var outQueue: seq<Message>
    // What the backends have been given.
    var delivered: seq<(nat, Message)>

    function View(): State
      reads this
    {
      State(level, outBackend, outQueue, delivered)
    }

    constructor ()
      ensures View() == START && level == INFO && outBackend.None?
    {
      level, outBackend, outQueue, delivered := INFO, None, [], [];
    }

    method Output(m: Message)
      modifies this`outQueue, this`delivered
      ensures if outBackend.None? then outQueue == old(outQueue) + [m] && delivered == old(delivered)
              else outQueue == old(outQueue) && delivered == old(delivered) + [(outBackend.value, m)]
    {
      if outBackend.None? {
        outQueue := outQueue + [m];
      } else {
        delivered := delivered + [(outBackend.value, m)];
      }
    }

    method Log(msgLevel: Level, msg: string, placeholders: seq<Option<string>>, threadName: string)
      modifies this
      ensures View() == Step(old(View()), Event.Log(
                Message(msgLevel, ShortenOrPad(threadName, 10).value + Inserted(msg, placeholders))))
    {
      if level.Value() <= msgLevel.Value() {
        var text := InsertPlaceholders(msg, placeholders);
        Output(Message(msgLevel, ShortenOrPad(threadName, 10).value + text));
      }
    }

    method ConnectOutputBackend(backend: nat)
      modifies this
      ensures View() == Step(old(View()), Connect(backend))
    {
      outBackend := Some(backend);
      FlushOutQueue();
    }

    method FlushOutQueue()
      requires outBackend.Some?
      modifies this`outQueue, this`delivered
      ensures outQueue == [] && delivered == old(delivered) + To(outBackend.value, old(outQueue))
    {
      while outQueue != []
        invariant delivered + To(outBackend.value, outQueue) == old(delivered) + To(outBackend.value, old(outQueue))
        decreases |outQueue|
      {
        var m := outQueue[0];
        assert delivered + To(outBackend.value, outQueue) ==
               delivered + [(outBackend.value, m)] + To(outBackend.value, outQueue[1..]);
        delivered := delivered + [(outBackend.value, m)];
        outQueue := outQueue[1..];
      }
    }
  }
}
