/** Comment and literal tokens of the Kotlin grammar, as regular expressions, against what they are
    meant to accept: the block-comment rule in words, and the reference grammar's literal rules. */
module Tokens {
  import opened Regex

  // ---------- Comments ----------

  const SLASH := OneOf({'/'})
  const ASTERISK := OneOf({'*'})
  const NO_ASTERISK := NoneOf({'*'})

  /** Text without an asterisk, then a run of asterisks. */
  function Text(): Re {
    Cat(Star(NO_ASTERISK), Plus(ASTERISK))
  }

  /** The repeated group of the block-comment expression: text after a run of asterisks up to and
      including the next run. */
  function Group(): Re {
    Cat(NoneOf({'/', '*'}), Text())
  }

  function Body(): Re {
    Cat(Text(), Star(Group()))
  }

  function LineCommentRe(): Re {
    Cat(SLASH, Cat(SLASH, Star(NoneOf({'\n'}))))
  }

  function BlockCommentRe(): Re {
    Cat(SLASH, Cat(ASTERISK, Cat(Body(), SLASH)))
  }

  function CommentRe(): Re {
    Alt(LineCommentRe(), BlockCommentRe())
  }

  predicate ClosesAt(s: string, i: int) {
    0 <= i && i + 1 < |s| && s[i] == '*' && s[i + 1] == '/'
  }

  ghost predicate NoClose(s: string) {
    forall i :: !ClosesAt(s, i)
  }

  /** Slash-star, and in the text after it the first star-slash is the final two characters. */
  ghost predicate IsBlockComment(s: string) {
    && |s| >= 4
    && s[..2] == "/*"
    && ClosesAt(s[2..], |s| - 4)
    && forall i :: i < |s| - 4 ==> !ClosesAt(s[2..], i)
  }

  predicate IsLineComment(s: string) {
    |s| >= 2 && s[..2] == "//" && '\n' !in s
  }

  predicate EndsWithAsterisk(s: string) {
    s != [] && s[|s| - 1] == '*'
  }

  /** A run of asterisks and the groups after it. */
  function Pending(): Re {
    Cat(Plus(ASTERISK), Star(Group()))
  }

  lemma RunPrepend(a: Re, b: Re, c: string, s: string)
    requires Accepts(a, c) && Accepts(Cat(Star(a), b), s)
    ensures Accepts(Cat(Plus(a), b), c + s)
  {
    var x, y := CatSplit(Star(a), b, s);
    Shift(c, x, y);
    CatJoin(a, Star(a), c, x);
    CatJoin(Plus(a), b, c + x, y);
  }

  lemma NoCloseTail(s: string)
    requires s != [] && NoClose(s)
    ensures NoClose(s[1..])
    ensures s[0] == '*' && |s| > 1 ==> s[1] != '/'
  {
    assert !ClosesAt(s, 0);
    forall i ensures !ClosesAt(s[1..], i) {
      assert !ClosesAt(s, i + 1);
    }
  }

  /** Text that ends with a run of asterisks and has no star-slash is text, a run and groups; from a
      point just after an asterisk it is the rest of that run and groups. */
  lemma {:induction false} BodyComplete(s: string)
    requires EndsWithAsterisk(s) && NoClose(s)
    ensures Accepts(Cat(Star(NO_ASTERISK), Pending()), s)
    decreases |s|
  {
    NoCloseTail(s);
    assert s == s[..1] + s[1..];
    if s[0] == '*' {
      PendingComplete(s[1..]);
      RunPrepend(ASTERISK, Star(Group()), s[..1], s[1..]);
      CatJoin(Star(NO_ASTERISK), Pending(), [], s);
      assert [] + s == s;
    } else {
      BodyComplete(s[1..]);
      StarPrepend(NO_ASTERISK, Pending(), s[..1], s[1..]);
    }
  }

  lemma GroupPrepend(a: Re, t: Re, c: string, s: string)
    requires Accepts(a, c) && Accepts(Cat(t, Star(Cat(a, t))), s)
    ensures Accepts(Star(Cat(a, t)), c + s)
  {
    var x, y := CatSplit(t, Star(Cat(a, t)), s);
    Shift(c, x, y);
    CatJoin(a, t, c, x);
    StarJoin(Cat(a, t), c + x, y);
  }

  lemma {:induction false} PendingComplete(s: string)
    requires s == [] || (EndsWithAsterisk(s) && s[0] != '/')
    requires NoClose(s)
    ensures Accepts(Cat(Star(ASTERISK), Star(Group())), s)
    decreases |s|
  {
    if s == [] {
      CatJoin(Star(ASTERISK), Star(Group()), [], []);
      assert [] + [] == s;
    } else {
      NoCloseTail(s);
      assert s == s[..1] + s[1..];
      if s[0] == '*' {
        PendingComplete(s[1..]);
        StarPrepend(ASTERISK, Star(Group()), s[..1], s[1..]);
      } else {
        BodyComplete(s[1..]);
        CatAssoc(Star(NO_ASTERISK), Plus(ASTERISK), Star(Group()), s[1..]);
        GroupPrepend(NoneOf({'/', '*'}), Text(), s[..1], s[1..]);
        CatJoin(Star(ASTERISK), Star(Group()), [], s);
        assert [] + s == s;
      }
    }
  }

  lemma NoCloseJoin(x: string, y: string)
    requires NoClose(x) && NoClose(y)
    requires x != [] && y != [] ==> x[|x| - 1] != '*' || y[0] != '/'
    ensures NoClose(x + y)
  {
    forall i ensures !ClosesAt(x + y, i) {
      assert !ClosesAt(x, i) && !ClosesAt(y, i - |x|);
    }
  }

  lemma TextSound(s: string)
    requires Accepts(Text(), s)
    ensures EndsWithAsterisk(s) && NoClose(s)
  {
    var u, v := CatSplit(Star(NO_ASTERISK), Plus(ASTERISK), s);
    ClassNoneOf({'*'});
    ClassOneOf({'*'});
    StarOfClass(NO_ASTERISK, c => c !in {'*'}, u);
    PlusOfClass(ASTERISK, c => c in {'*'}, v);
    NoCloseJoin(u, v);
  }

  lemma {:induction false} GroupsSound(s: string)
    requires Accepts(Star(Group()), s)
    ensures s == [] || (EndsWithAsterisk(s) && s[0] != '/')
    ensures NoClose(s)
    decreases |s|
  {
    if s != [] {
      var x, y := StarSplit(Group(), s);
      GroupsSound(y);
      var c, t := CatSplit(NoneOf({'/', '*'}), Text(), x);
      TextSound(t);
      NoCloseJoin(c, t);
      NoCloseJoin(x, y);
    }
  }

  lemma BodyLanguage(s: string)
    ensures Accepts(Body(), s) <==> EndsWithAsterisk(s) && NoClose(s)
  {
    if Accepts(Body(), s) {
      var t, y := CatSplit(Text(), Star(Group()), s);
      TextSound(t);
      GroupsSound(y);
      NoCloseJoin(t, y);
    }
    if EndsWithAsterisk(s) && NoClose(s) {
      BodyComplete(s);
      CatAssoc(Star(NO_ASTERISK), Plus(ASTERISK), Star(Group()), s);
    }
  }

  lemma CharThen(a: char, r: Re, s: string)
    ensures Accepts(Cat(OneOf({a}), r), s) <==> s != [] && s[0] == a && Accepts(r, s[1..])
  {
    ClassOneOf({a});
    CatHead(OneOf({a}), c => c in {a}, r, s);
  }

  lemma ThenChar(r: Re, z: char, s: string)
    ensures Accepts(Cat(r, OneOf({z})), s) <==> s != [] && Accepts(r, s[..|s| - 1]) && s[|s| - 1] == z
  {
    ClassOneOf({z});
    CatLast(r, OneOf({z}), c => c in {z}, s);
  }

  lemma TwoCharsThen(a: char, b: char, r: Re, s: string)
    ensures Accepts(Cat(OneOf({a}), Cat(OneOf({b}), r)), s) <==>
            |s| >= 2 && s[0] == a && s[1] == b && Accepts(r, s[2..])
  {
    CharThen(a, Cat(OneOf({b}), r), s);
    if s != [] {
      CharThen(b, r, s[1..]);
      assert |s| >= 2 ==> s[1..][1..] == s[2..];
    }
  }

  /** Two opening characters, `t`, and a closing one. */
  lemma Delimited(a: char, b: char, t: Re, z: char, s: string)
    ensures Accepts(Cat(OneOf({a}), Cat(OneOf({b}), Cat(t, OneOf({z})))), s) <==>
            |s| >= 3 && s[0] == a && s[1] == b && s[|s| - 1] == z && Accepts(t, s[2..|s| - 1])
  {
    TwoCharsThen(a, b, Cat(t, OneOf({z})), s);
    if |s| >= 2 {
      ThenChar(t, z, s[2..]);
      assert |s| > 2 ==> s[2..][..|s| - 3] == s[2..|s| - 1];
    }
  }

  lemma ClosedBody(s: string)
    requires |s| >= 3
    ensures s[0] == '/' && s[1] == '*' && s[|s| - 1] == '/'
            && EndsWithAsterisk(s[2..|s| - 1]) && NoClose(s[2..|s| - 1]) <==>
            IsBlockComment(s)
  {
    var t, u := s[2..|s| - 1], s[2..];
    assert forall i :: i < |s| - 4 ==> (ClosesAt(t, i) <==> ClosesAt(u, i));
    assert forall i :: i >= |s| - 4 ==> !ClosesAt(t, i);
  }

  lemma BlockCommentLanguage(s: string)
    ensures Accepts(BlockCommentRe(), s) <==> IsBlockComment(s)
  {
    Delimited('/', '*', Body(), '/', s);
    if |s| >= 3 {
      BodyLanguage(s[2..|s| - 1]);
      ClosedBody(s);
    }
  }

  lemma LineCommentLanguage(s: string)
    ensures Accepts(LineCommentRe(), s) <==> IsLineComment(s)
  {
    var rest := NoneOf({'\n'});
    TwoCharsThen('/', '/', Star(rest), s);
    if |s| >= 2 {
      ClassNoneOf({'\n'});
      StarOfClass(rest, c => c !in {'\n'}, s[2..]);
      assert s == s[..2] + s[2..];
    }
  }

  /** The comment token accepts exactly the line comments and the block comments. */
  lemma CommentLanguage(s: string)
    ensures Accepts(CommentRe(), s) <==> IsLineComment(s) || IsBlockComment(s)
  {
    LineCommentLanguage(s);
    BlockCommentLanguage(s);
  }

  // ---------- Digits ----------

  const DECIMAL := {'0', '1', '2', '3', '4', '5', '6', '7', '8', '9'}
  const NO_ZERO := {'1', '2', '3', '4', '5', '6', '7', '8', '9'}
  const HEXADECIMAL := DECIMAL + {'a', 'b', 'c', 'd', 'e', 'f', 'A', 'B', 'C', 'D', 'E', 'F'}
  const BINARY := {'0', '1'}
  const UNDERSCORE := OneOf({'_'})

  lemma DigitRanges(c: char)
    ensures c in DECIMAL <==> '0' <= c <= '9'
    ensures c in HEXADECIMAL <==> '0' <= c <= '9' || 'a' <= c <= 'f' || 'A' <= c <= 'F'
    ensures c in BINARY <==> c == '0' || c == '1'
  {
  }

  /** The token form: runs of digits with runs of underscores between them. */
  function DigitsToken(digits: set<char>): Re {
    Sep1(Plus(OneOf(digits)), Plus(UNDERSCORE))
  }

  function DigitOrSeparator(digits: set<char>): Re {
    Alt(OneOf(digits), UNDERSCORE)
  }

  /** The reference form: a digit, or a digit, digits and underscores, and a digit. */
  function DigitsReference(digits: set<char>): Re {
    Alt(
      Cat(OneOf(digits), Cat(Star(DigitOrSeparator(digits)), OneOf(digits))),
      OneOf(digits))
  }

  predicate DigitsOnly(digits: set<char>, s: string) {
    forall i :: 0 <= i < |s| ==> s[i] in digits || s[i] == '_'
  }

  /** Digits and underscores, with a digit at each end. */
  predicate IsDigits(digits: set<char>, s: string) {
    s != [] && DigitsOnly(digits, s) && s[0] in digits && s[|s| - 1] in digits
  }

  /** A character of the first run in front of what follows it. */
  lemma RunGrows(a: Re, b: Re, c: string, s: string)
    requires Accepts(a, c) && (Accepts(Cat(Plus(a), b), s) || Accepts(b, s))
    ensures Accepts(Cat(Plus(a), b), c + s)
  {
    if Accepts(Cat(Plus(a), b), s) {
      var x, y := CatSplit(Plus(a), b, s);
      Shift(c, x, y);
      PlusPrepend(a, c, x);
      CatJoin(Plus(a), b, c + x, y);
    } else {
      PlusPrepend(a, c, []);
      assert c + [] == c;
      CatJoin(Plus(a), b, c, s);
    }
  }

  lemma {:induction false} DigitsTokenComplete(digits: set<char>, s: string)
    requires '_' !in digits && IsDigits(digits, s)
    ensures Accepts(DigitsToken(digits), s)
    decreases |s|
  {
    var d := OneOf(digits);
    assert s == s[..1] + s[1..];
    if |s| > 1 && s[1] in digits {
      DigitsTokenComplete(digits, s[1..]);
    } else if |s| > 1 {
      SeparatedComplete(digits, s[1..]);
    }
    RunGrows(d, Star(Cat(Plus(UNDERSCORE), Plus(d))), s[..1], s[1..]);
  }

  lemma SeparatorGrows(u: Re, d: Re, c: string, s: string)
    requires Accepts(u, c) && s != []
    requires Accepts(Cat(d, Star(Cat(Plus(u), d))), s) || Accepts(Star(Cat(Plus(u), d)), s)
    ensures Accepts(Star(Cat(Plus(u), d)), c + s)
  {
    var more := Star(Cat(Plus(u), d));
    if Accepts(Cat(d, more), s) {
      var p, q := CatSplit(d, more, s);
      PlusPrepend(u, c, []);
      assert c + [] == c;
      Shift(c, p, q);
      CatJoin(Plus(u), d, c, p);
      StarJoin(Cat(Plus(u), d), c + p, q);
    } else {
      var x, y := StarSplit(Cat(Plus(u), d), s);
      Shift(c, x, y);
      RunGrows(u, d, c, x);
      StarJoin(Cat(Plus(u), d), c + x, y);
    }
  }

  lemma {:induction false} SeparatedComplete(digits: set<char>, s: string)
    requires '_' !in digits
    requires s != [] && DigitsOnly(digits, s) && s[0] == '_' && s[|s| - 1] in digits
    ensures Accepts(Star(Cat(Plus(UNDERSCORE), Plus(OneOf(digits)))), s)
    decreases |s|
  {
    assert s == s[..1] + s[1..];
    if s[1] in digits {
      DigitsTokenComplete(digits, s[1..]);
    } else {
      SeparatedComplete(digits, s[1..]);
    }
    SeparatorGrows(UNDERSCORE, Plus(OneOf(digits)), s[..1], s[1..]);
  }

  lemma {:induction false} SeparatedSound(digits: set<char>, s: string)
    requires Accepts(Star(Cat(Plus(UNDERSCORE), Plus(OneOf(digits)))), s)
    ensures DigitsOnly(digits, s) && (s != [] ==> s[|s| - 1] in digits)
    decreases |s|
  {
    if s != [] {
      var u, d := Plus(UNDERSCORE), Plus(OneOf(digits));
      var x, y := StarSplit(Cat(u, d), s);
      var v, p := CatSplit(u, d, x);
      ClassOneOf({'_'});
      ClassOneOf(digits);
      PlusOfClass(UNDERSCORE, c => c in {'_'}, v);
      PlusOfClass(OneOf(digits), c => c in digits, p);
      SeparatedSound(digits, y);
      assert s == v + p + y;
    }
  }

  lemma DigitsTokenLanguage(digits: set<char>, s: string)
    requires '_' !in digits
    ensures Accepts(DigitsToken(digits), s) <==> IsDigits(digits, s)
  {
    if Accepts(DigitsToken(digits), s) {
      var d := Plus(OneOf(digits));
      var p, y := CatSplit(d, Star(Cat(Plus(UNDERSCORE), d)), s);
      ClassOneOf(digits);
      PlusOfClass(OneOf(digits), c => c in digits, p);
      SeparatedSound(digits, y);
      assert s == p + y;
    }
    if IsDigits(digits, s) {
      DigitsTokenComplete(digits, s);
    }
  }

  /** A class, characters of another and a class. */
  lemma Framed(a: Re, p: char -> bool, m: Re, q: char -> bool, z: Re, r: char -> bool, s: string)
    requires IsClass(a, p) && IsClass(m, q) && IsClass(z, r)
    ensures Accepts(Cat(a, Cat(Star(m), z)), s) <==>
            |s| >= 2 && p(s[0]) && r(s[|s| - 1]) && forall i :: 1 <= i < |s| - 1 ==> q(s[i])
  {
    CatHead(a, p, Cat(Star(m), z), s);
    if s != [] {
      CatLast(Star(m), z, r, s[1..]);
      if |s| > 1 {
        var t := s[1..][..|s| - 2];
        StarOfClass(m, q, t);
        assert forall i :: 0 <= i < |t| ==> t[i] == s[i + 1];
        assert forall i :: 1 <= i < |s| - 1 ==> s[i] == t[i - 1];
      }
    }
  }

  lemma DigitsReferenceLanguage(digits: set<char>, s: string)
    ensures Accepts(DigitsReference(digits), s) <==> IsDigits(digits, s)
  {
    var d, m := OneOf(digits), DigitOrSeparator(digits);
    var p, q := (c: char) => c in digits, (c: char) => c in digits || c == '_';
    assert IsClass(d, p) && IsClass(m, q);
    Framed(d, p, m, q, d, p, s);
  }

  /** DEC_DIGITS and `dec_digits`, HEX_DIGITS and the digits of `hex_literal`: one language. */
  lemma DigitsAgree(digits: set<char>)
    requires '_' !in digits
    ensures SameLanguage(DigitsToken(digits), DigitsReference(digits))
  {
    forall s ensures Accepts(DigitsToken(digits), s) <==> Accepts(DigitsReference(digits), s) {
      DigitsTokenLanguage(digits, s);
      DigitsReferenceLanguage(digits, s);
    }
  }

  // ---------- Digits that stand alone between separators ----------

  /** BIN_DIGITS: single digits with runs of underscores between them. */
  function SpacedToken(digits: set<char>): Re {
    Sep1(OneOf(digits), Plus(UNDERSCORE))
  }

  /** No two digits next to each other. */
  predicate Spaced(digits: set<char>, s: string) {
    forall i :: 1 <= i < |s| ==> s[i - 1] !in digits || s[i] !in digits
  }

  lemma {:induction false} SpacedComplete(digits: set<char>, s: string)
    requires '_' !in digits && s != [] && DigitsOnly(digits, s) && Spaced(digits, s) && s[|s| - 1] in digits
    ensures s[0] in digits ==> Accepts(SpacedToken(digits), s)
    ensures s[0] == '_' ==> Accepts(Star(Cat(Plus(UNDERSCORE), OneOf(digits))), s)
    decreases |s|
  {
    assert s == s[..1] + s[1..];
    if |s| > 1 {
      SpacedComplete(digits, s[1..]);
    }
    if s[0] in digits {
      CatJoin(OneOf(digits), Star(Cat(Plus(UNDERSCORE), OneOf(digits))), s[..1], s[1..]);
    } else {
      SeparatorGrows(UNDERSCORE, OneOf(digits), s[..1], s[1..]);
    }
  }

  lemma {:induction false} SpacedSound(digits: set<char>, s: string)
    requires '_' !in digits && Accepts(Star(Cat(Plus(UNDERSCORE), OneOf(digits))), s)
    ensures DigitsOnly(digits, s) && Spaced(digits, s) && (s != [] ==> s[0] == '_' && s[|s| - 1] in digits)
    decreases |s|
  {
    if s != [] {
      var u, d := Plus(UNDERSCORE), OneOf(digits);
      var x, y := StarSplit(Cat(u, d), s);
      var v, p := CatSplit(u, d, x);
      ClassOneOf({'_'});
      PlusOfClass(UNDERSCORE, c => c in {'_'}, v);
      SpacedSound(digits, y);
      assert s == v + p + y;
    }
  }

  lemma SpacedTokenLanguage(digits: set<char>, s: string)
    requires '_' !in digits
    ensures Accepts(SpacedToken(digits), s) <==> IsDigits(digits, s) && Spaced(digits, s)
  {
    if Accepts(SpacedToken(digits), s) {
      var p, y := CatSplit(OneOf(digits), Star(Cat(Plus(UNDERSCORE), OneOf(digits))), s);
      SpacedSound(digits, y);
      assert s == p + y;
    }
    if IsDigits(digits, s) && Spaced(digits, s) {
      SpacedComplete(digits, s);
    }
  }

  // ---------- Integer, hexadecimal, binary and real literals ----------

  function IntegerToken(): Re {
    Cat(Opt(OneOf(NO_ZERO)), DigitsToken(DECIMAL))
  }

  function IntegerReference(): Re {
    Alt(
      Cat(OneOf(NO_ZERO), Cat(Star(DigitOrSeparator(DECIMAL)), OneOf(DECIMAL))),
      OneOf(DECIMAL))
  }

  predicate LeadingZero(s: string) {
    |s| > 1 && s[0] == '0'
  }

  lemma LongerDigits(s: string)
    requires s != [] && s[0] in NO_ZERO && IsDigits(DECIMAL, s[1..])
    ensures IsDigits(DECIMAL, s)
  {
    assert forall i :: 1 <= i < |s| ==> s[i] == s[1..][i - 1];
  }

  lemma IntegerReferenceLanguage(s: string)
    ensures Accepts(IntegerReference(), s) <==> IsDigits(DECIMAL, s) && !LeadingZero(s)
  {
    var n, d, m := OneOf(NO_ZERO), OneOf(DECIMAL), DigitOrSeparator(DECIMAL);
    var o, p, q := (c: char) => c in NO_ZERO, (c: char) => c in DECIMAL, (c: char) => c in DECIMAL || c == '_';
    assert IsClass(n, o) && IsClass(d, p) && IsClass(m, q);
    Framed(n, o, m, q, d, p, s);
  }

  lemma OptionalDigit(a: Re, b: Re, s: string)
    requires forall t :: Accepts(a, t) ==> |t| == 1
    ensures Accepts(Cat(Opt(a), b), s) <==> Accepts(b, s) || (s != [] && Accepts(a, s[..1]) && Accepts(b, s[1..]))
  {
    if Accepts(b, s) {
      CatJoin(Opt(a), b, [], s);
      assert [] + s == s;
    }
    if s != [] && Accepts(a, s[..1]) && Accepts(b, s[1..]) {
      CatJoin(Opt(a), b, s[..1], s[1..]);
      assert s[..1] + s[1..] == s;
    }
    if Accepts(Cat(Opt(a), b), s) {
      var x, y := CatSplit(Opt(a), b, s);
      if x == [] {
        assert y == s;
      } else {
        assert x == s[..1] && y == s[1..];
      }
    }
  }

  /** The optional leading digit of the token adds nothing to DEC_DIGITS.  The reference rule takes the
      same strings except those that are longer than one digit and start with zero. */
  lemma IntegerLanguage(s: string)
    ensures Accepts(IntegerToken(), s) <==> Accepts(DigitsToken(DECIMAL), s)
    ensures Accepts(IntegerReference(), s) <==> Accepts(IntegerToken(), s) && !LeadingZero(s)
  {
    DigitsTokenLanguage(DECIMAL, s);
    IntegerReferenceLanguage(s);
    OptionalDigit(OneOf(NO_ZERO), DigitsToken(DECIMAL), s);
    if s != [] && s[0] in NO_ZERO {
      DigitsTokenLanguage(DECIMAL, s[1..]);
      if IsDigits(DECIMAL, s[1..]) {
        LongerDigits(s);
      }
    }
  }

  /** Zero, a letter and digits. */
  function Prefixed(letters: set<char>, digits: Re): Re {
    Cat(OneOf({'0'}), Cat(OneOf(letters), digits))
  }

  function PrefixedReference(letters: set<char>, digits: set<char>): Re {
    var d := OneOf(digits);
    Alt(Prefixed(letters, Cat(d, Cat(Star(DigitOrSeparator(digits)), d))), Prefixed(letters, d))
  }

  predicate HasPrefix(letters: set<char>, s: string) {
    |s| >= 2 && s[0] == '0' && s[1] in letters
  }

  lemma PrefixedLanguage(letters: set<char>, digits: Re, s: string)
    ensures Accepts(Prefixed(letters, digits), s) <==> HasPrefix(letters, s) && Accepts(digits, s[2..])
  {
    CharThen('0', Cat(OneOf(letters), digits), s);
    if s != [] {
      ClassOneOf(letters);
      CatHead(OneOf(letters), c => c in letters, digits, s[1..]);
      assert |s| >= 2 ==> s[1..][1..] == s[2..];
    }
  }

  lemma PrefixedReferenceLanguage(letters: set<char>, digits: set<char>, s: string)
    ensures Accepts(PrefixedReference(letters, digits), s) <==> HasPrefix(letters, s) && IsDigits(digits, s[2..])
  {
    var d := OneOf(digits);
    PrefixedLanguage(letters, Cat(d, Cat(Star(DigitOrSeparator(digits)), d)), s);
    PrefixedLanguage(letters, d, s);
    if HasPrefix(letters, s) {
      DigitsReferenceLanguage(digits, s[2..]);
    }
  }

  const HEX_LETTERS := {'x', 'X'}
  const BIN_LETTERS := {'b', 'B'}

  /** Zero, one of two letters, and digits and underscores with a digit at each end. */
  predicate IsLiteral(s: string, lower: char, upper: char, isDigit: char -> bool) {
    && |s| >= 3 && s[0] == '0' && (s[1] == lower || s[1] == upper)
    && isDigit(s[2]) && isDigit(s[|s| - 1])
    && forall i :: 2 <= i < |s| ==> isDigit(s[i]) || s[i] == '_'
  }

  lemma DigitsAfterPrefix(digits: set<char>, s: string)
    requires |s| >= 2
    ensures IsDigits(digits, s[2..]) <==>
            && |s| >= 3 && s[2] in digits && s[|s| - 1] in digits
            && forall i :: 2 <= i < |s| ==> s[i] in digits || s[i] == '_'
  {
    var t := s[2..];
    assert forall i :: 0 <= i < |t| ==> t[i] == s[i + 2];
    assert forall i :: 2 <= i < |s| ==> s[i] == t[i - 2];
  }

  lemma LiteralLanguage(lower: char, upper: char, digits: set<char>, isDigit: char -> bool, s: string)
    requires forall c :: isDigit(c) <==> c in digits
    ensures HasPrefix({lower, upper}, s) && IsDigits(digits, s[2..]) <==> IsLiteral(s, lower, upper, isDigit)
  {
    if |s| >= 2 {
      DigitsAfterPrefix(digits, s);
    }
  }

  /** Hexadecimal literals in words, for the token and for the reference. */
  lemma HexLanguage(s: string)
    ensures Accepts(Prefixed(HEX_LETTERS, DigitsToken(HEXADECIMAL)), s) <==>
            IsLiteral(s, 'x', 'X', c => '0' <= c <= '9' || 'a' <= c <= 'f' || 'A' <= c <= 'F')
    ensures Accepts(PrefixedReference(HEX_LETTERS, HEXADECIMAL), s) <==>
            Accepts(Prefixed(HEX_LETTERS, DigitsToken(HEXADECIMAL)), s)
  {
    PrefixedLanguage(HEX_LETTERS, DigitsToken(HEXADECIMAL), s);
    PrefixedReferenceLanguage(HEX_LETTERS, HEXADECIMAL, s);
    if HasPrefix(HEX_LETTERS, s) {
      DigitsTokenLanguage(HEXADECIMAL, s[2..]);
    }
    var isDigit := c => '0' <= c <= '9' || 'a' <= c <= 'f' || 'A' <= c <= 'F';
    forall c: char ensures isDigit(c) <==> c in HEXADECIMAL {
      DigitRanges(c);
    }
    LiteralLanguage('x', 'X', HEXADECIMAL, isDigit, s);
  }

  lemma HexAgrees()
    ensures SameLanguage(Prefixed(HEX_LETTERS, DigitsToken(HEXADECIMAL)), PrefixedReference(HEX_LETTERS, HEXADECIMAL))
  {
    var token := Prefixed(HEX_LETTERS, DigitsToken(HEXADECIMAL));
    var reference := PrefixedReference(HEX_LETTERS, HEXADECIMAL);
    forall s ensures Accepts(token, s) <==> Accepts(reference, s) {
      HexLanguage(s);
    }
  }

  lemma SpacedAfterPrefix(digits: set<char>, s: string)
    requires |s| >= 2 && s[1] !in digits
    ensures Spaced(digits, s) <==> Spaced(digits, s[2..])
  {
    var t := s[2..];
    if Spaced(digits, s) {
      forall i | 1 <= i < |t| ensures t[i - 1] !in digits || t[i] !in digits {
        assert t[i - 1] == s[i + 1] && t[i] == s[i + 2];
      }
    } else {
      var i :| 1 <= i < |s| && s[i - 1] in digits && s[i] in digits;
      assert t[i - 3] == s[i - 1] && t[i - 2] == s[i];
    }
  }

  /** Binary literals of the reference in words; the binary token takes the same, except where two digits stand
      side by side. */
  lemma BinLanguage(s: string)
    ensures Accepts(PrefixedReference(BIN_LETTERS, BINARY), s) <==> IsLiteral(s, 'b', 'B', c => c == '0' || c == '1')
    ensures Accepts(Prefixed(BIN_LETTERS, SpacedToken(BINARY)), s) <==>
            Accepts(PrefixedReference(BIN_LETTERS, BINARY), s) && Spaced(BINARY, s)
  {
    PrefixedLanguage(BIN_LETTERS, SpacedToken(BINARY), s);
    PrefixedReferenceLanguage(BIN_LETTERS, BINARY, s);
    if HasPrefix(BIN_LETTERS, s) {
      SpacedTokenLanguage(BINARY, s[2..]);
      SpacedAfterPrefix(BINARY, s);
    }
    LiteralLanguage('b', 'B', BINARY, c => c == '0' || c == '1', s);
  }

  /** The literal for two. */
  lemma BinTwoRejected()
    ensures Accepts(PrefixedReference(BIN_LETTERS, BINARY), "0b10")
    ensures !Accepts(Prefixed(BIN_LETTERS, SpacedToken(BINARY)), "0b10")
  {
    PrefixedReferenceLanguage(BIN_LETTERS, BINARY, "0b10");
    BinLanguage("0b10");
    assert "0b10"[2..] == "10";
  }

  const DOT := OneOf({'.'})
  const FLOAT_SUFFIX := OneOf({'f', 'F'})

  function Exponent(digits: Re): Re {
    Cat(OneOf({'e', 'E'}), Cat(Opt(OneOf({'+', '-'})), digits))
  }

  function WithDot(digits: Re): Re {
    Cat(Opt(digits), Cat(DOT, Cat(digits, Opt(Exponent(digits)))))
  }

  function RealToken(): Re {
    var d := DigitsToken(DECIMAL);
    Alt(
      Cat(Alt(Cat(d, Exponent(d)), WithDot(d)), Opt(FLOAT_SUFFIX)),
      Cat(d, FLOAT_SUFFIX))
  }

  function DoubleReference(): Re {
    var d := DigitsReference(DECIMAL);
    Alt(WithDot(d), Cat(d, Exponent(d)))
  }

  function RealReference(): Re {
    Alt(
      Alt(Cat(DoubleReference(), FLOAT_SUFFIX), Cat(DigitsReference(DECIMAL), FLOAT_SUFFIX)),
      DoubleReference())
  }

  lemma SameExponent(a: Re, b: Re)
    requires SameLanguage(a, b)
    ensures SameLanguage(Exponent(a), Exponent(b))
  {
    var sign := Opt(OneOf({'+', '-'}));
    SameCat(sign, a, sign, b);
    SameCat(OneOf({'e', 'E'}), Cat(sign, a), OneOf({'e', 'E'}), Cat(sign, b));
  }

  lemma SameWithDot(a: Re, b: Re)
    requires SameLanguage(a, b)
    ensures SameLanguage(WithDot(a), WithDot(b))
  {
    SameExponent(a, b);
    SameAlt(Empty, Exponent(a), Empty, Exponent(b));
    SameCat(a, Opt(Exponent(a)), b, Opt(Exponent(b)));
    SameCat(DOT, Cat(a, Opt(Exponent(a))), DOT, Cat(b, Opt(Exponent(b))));
    SameAlt(Empty, a, Empty, b);
    SameCat(Opt(a), Cat(DOT, Cat(a, Opt(Exponent(a)))), Opt(b), Cat(DOT, Cat(b, Opt(Exponent(b)))));
  }

  /** An exponent letter, a sign or none, and digits. */
  predicate IsExponent(s: string) {
    && s != [] && (s[0] == 'e' || s[0] == 'E')
    && (IsDigits(DECIMAL, s[1..]) || (|s| > 1 && (s[1] == '+' || s[1] == '-') && IsDigits(DECIMAL, s[2..])))
  }

  /** Digits up to `dot`, which may be missing only before a dot; a dot and digits up to `end`, or nothing; and an
      exponent or nothing. */
  predicate IsUnsuffixed(s: string, dot: nat, end: nat) {
    && dot <= end <= |s|
    && (dot > 0 ==> IsDigits(DECIMAL, s[..dot]))
    && (dot == 0 ==> end > 0)
    && (dot < end ==> s[dot] == '.' && IsDigits(DECIMAL, s[dot + 1..end]))
    && (end < |s| ==> IsExponent(s[end..]))
  }

  predicate HasSuffix(s: string) {
    s != [] && (s[|s| - 1] == 'f' || s[|s| - 1] == 'F')
  }

  /** Digits alone count too. */
  ghost predicate IsNumber(s: string) {
    exists dot: nat, end: nat :: IsUnsuffixed(s, dot, end)
  }

  /** A number with a dot or an exponent. */
  ghost predicate IsDouble(s: string) {
    exists dot: nat, end: nat :: IsUnsuffixed(s, dot, end) && (dot < end || end < |s|)
  }

  /** A number with a dot, an exponent, a suffix, or several of them. */
  ghost predicate IsReal(s: string) {
    IsDouble(s) || (HasSuffix(s) && IsNumber(s[..|s| - 1]))
  }

  ghost predicate TakesDigits(d: Re) {
    forall t :: Accepts(d, t) <==> IsDigits(DECIMAL, t)
  }

  lemma NumberOrDigits(s: string)
    ensures IsNumber(s) <==> IsDouble(s) || IsDigits(DECIMAL, s)
  {
    assert s[..|s|] == s;
    if IsDigits(DECIMAL, s) {
      assert IsUnsuffixed(s, |s|, |s|);
    }
  }

  lemma ExponentLanguage(d: Re, s: string)
    requires TakesDigits(d)
    ensures Accepts(Exponent(d), s) <==> IsExponent(s)
  {
    var letter, sign := OneOf({'e', 'E'}), OneOf({'+', '-'});
    ClassOneOf({'e', 'E'});
    CatHead(letter, c => c in {'e', 'E'}, Cat(Opt(sign), d), s);
    if s != [] {
      OptionalDigit(sign, d, s[1..]);
      if |s| > 1 {
        assert s[1..][..1] == [s[1]] && s[1..][1..] == s[2..];
      }
    }
  }

  lemma DottedParts(x: string, y: string, z: string)
    ensures var s, n := x + (['.'] + (y + z)), |x| + 1 + |y|;
            s[..|x|] == x && s[|x|] == '.' && s[|x| + 1..n] == y && s[n..] == z && |s| == n + |z|
  {
  }

  lemma DottedSound(d: Re, s: string)
    requires TakesDigits(d) && Accepts(WithDot(d), s)
    ensures IsDouble(s)
  {
    var x, rest := CatSplit(Opt(d), Cat(DOT, Cat(d, Opt(Exponent(d)))), s);
    var p, more := CatSplit(DOT, Cat(d, Opt(Exponent(d))), rest);
    var y, z := CatSplit(d, Opt(Exponent(d)), more);
    ExponentLanguage(d, z);
    assert p == ['.'];
    DottedParts(x, y, z);
    assert IsUnsuffixed(s, |x|, |x| + 1 + |y|);
  }

  lemma PowerSound(d: Re, s: string)
    requires TakesDigits(d) && Accepts(Cat(d, Exponent(d)), s)
    ensures IsDouble(s)
  {
    var x, y := CatSplit(d, Exponent(d), s);
    ExponentLanguage(d, y);
    assert s[..|x|] == x && s[|x|..] == y;
    assert IsUnsuffixed(s, |x|, |x|);
  }

  lemma OptJoin(r: Re, s: string)
    requires s == [] || Accepts(r, s)
    ensures Accepts(Opt(r), s)
  {
  }

  lemma DottedJoin(d: Re, x: string, y: string, z: string)
    requires Accepts(Opt(d), x) && Accepts(d, y) && Accepts(Opt(Exponent(d)), z)
    ensures Accepts(WithDot(d), x + (['.'] + (y + z)))
  {
    CatJoin(d, Opt(Exponent(d)), y, z);
    CatJoin(DOT, Cat(d, Opt(Exponent(d))), ['.'], y + z);
    CatJoin(Opt(d), Cat(DOT, Cat(d, Opt(Exponent(d)))), x, ['.'] + (y + z));
  }

  lemma DottedWhole(s: string, dot: nat, end: nat)
    requires dot < end <= |s| && s[dot] == '.'
    ensures s == s[..dot] + (['.'] + (s[dot + 1..end] + s[end..]))
  {
  }

  lemma DottedComplete(d: Re, s: string, dot: nat, end: nat)
    requires TakesDigits(d) && IsUnsuffixed(s, dot, end) && dot < end
    ensures Accepts(WithDot(d), s)
  {
    DottedWhole(s, dot, end);
    ExponentLanguage(d, s[end..]);
    OptJoin(Exponent(d), s[end..]);
    OptJoin(d, s[..dot]);
    DottedJoin(d, s[..dot], s[dot + 1..end], s[end..]);
  }

  lemma PowerComplete(d: Re, s: string, end: nat)
    requires TakesDigits(d) && IsUnsuffixed(s, end, end) && end < |s|
    ensures Accepts(Cat(d, Exponent(d)), s)
  {
    ExponentLanguage(d, s[end..]);
    CatJoin(d, Exponent(d), s[..end], s[end..]);
    assert s == s[..end] + s[end..];
  }

  lemma DoubleComplete(d: Re, s: string)
    requires TakesDigits(d) && IsDouble(s)
    ensures Accepts(Alt(Cat(d, Exponent(d)), WithDot(d)), s)
  {
    var dot: nat, end: nat :| IsUnsuffixed(s, dot, end) && (dot < end || end < |s|);
    if dot < end {
      DottedComplete(d, s, dot, end);
    } else {
      PowerComplete(d, s, end);
    }
  }

  lemma DoubleSound(d: Re, s: string)
    requires TakesDigits(d) && Accepts(Alt(Cat(d, Exponent(d)), WithDot(d)), s)
    ensures IsDouble(s)
  {
    if Accepts(WithDot(d), s) {
      DottedSound(d, s);
    } else {
      PowerSound(d, s);
    }
  }

  lemma DoubleLanguage(d: Re, s: string)
    requires TakesDigits(d)
    ensures Accepts(Alt(Cat(d, Exponent(d)), WithDot(d)), s) <==> IsDouble(s)
  {
    if IsDouble(s) {
      DoubleComplete(d, s);
    } else if Accepts(Alt(Cat(d, Exponent(d)), WithDot(d)), s) {
      DoubleSound(d, s);
    }
  }

  lemma SuffixLanguage(r: Re, s: string)
    ensures Accepts(Cat(r, FLOAT_SUFFIX), s) <==> HasSuffix(s) && Accepts(r, s[..|s| - 1])
  {
    ClassOneOf({'f', 'F'});
    CatLast(r, FLOAT_SUFFIX, c => c in {'f', 'F'}, s);
  }

  lemma RealAgrees()
    ensures SameLanguage(RealToken(), RealReference())
  {
    var a, b := DigitsToken(DECIMAL), DigitsReference(DECIMAL);
    var double := Alt(Cat(a, Exponent(a)), WithDot(a));
    DigitsAgree(DECIMAL);
    SameExponent(a, b);
    SameWithDot(a, b);
    SameCat(a, Exponent(a), b, Exponent(b));
    assert SameLanguage(double, DoubleReference());
    SameCat(double, FLOAT_SUFFIX, DoubleReference(), FLOAT_SUFFIX);
    SameCat(a, FLOAT_SUFFIX, b, FLOAT_SUFFIX);
    forall s ensures Accepts(RealToken(), s) <==> Accepts(RealReference(), s) {
      CatOpt(double, FLOAT_SUFFIX, s);
    }
  }
  /** Real literals in words, for the token and for the reference rules. */
  lemma RealLanguage(s: string)
    ensures Accepts(RealToken(), s) <==> IsReal(s)
    ensures Accepts(RealReference(), s) <==> IsReal(s)
  {
    var d := DigitsToken(DECIMAL);
    var double := Alt(Cat(d, Exponent(d)), WithDot(d));
    forall t ensures Accepts(d, t) <==> IsDigits(DECIMAL, t) {
      DigitsTokenLanguage(DECIMAL, t);
    }
    RealAgrees();
    CatOpt(double, FLOAT_SUFFIX, s);
    DoubleLanguage(d, s);
    SuffixLanguage(double, s);
    SuffixLanguage(d, s);
    if HasSuffix(s) {
      DoubleLanguage(d, s[..|s| - 1]);
      NumberOrDigits(s[..|s| - 1]);
    }
  }
}
