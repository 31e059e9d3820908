/** Regular expressions over characters, with the constructors the grammar files are written in. */
module Regex {

  datatype Re =
    | Empty
    | OneOf(chars: set<char>)
    | NoneOf(chars: set<char>)
    | Cat(first: Re, second: Re)
    | Alt(left: Re, right: Re)
    | Star(body: Re)

  /** `s` belongs to the language of `r`. */
  ghost predicate Accepts(r: Re, s: string)
    decreases |s|, r
  {
    match r
    case Empty => s == []
    case OneOf(cs) => |s| == 1 && s[0] in cs
    case NoneOf(cs) => |s| == 1 && s[0] !in cs
    case Cat(a, b) => exists k :: 0 <= k <= |s| && Accepts(a, s[..k]) && Accepts(b, s[k..])
    case Alt(a, b) => Accepts(a, s) || Accepts(b, s)
    case Star(a) => s == [] || exists k :: 0 < k <= |s| && Accepts(a, s[..k]) && Accepts(r, s[k..])
  }

  function Opt(r: Re): Re {
    Alt(Empty, r)
  }

  function Plus(r: Re): Re {
    Cat(r, Star(r))
  }

  /** `sep1` of the grammar: one or more `rule`s with a `separator` between neighbours. */
  function Sep1(rule: Re, separator: Re): Re {
    Cat(rule, Star(Cat(separator, rule)))
  }

  lemma Shift(x: string, y: string, z: string)
    ensures (x + y) + z == x + (y + z)
  {
  }

  lemma CatJoin(a: Re, b: Re, x: string, y: string)
    requires Accepts(a, x) && Accepts(b, y)
    ensures Accepts(Cat(a, b), x + y)
  {
    assert (x + y)[..|x|] == x && (x + y)[|x|..] == y;
  }

  lemma CatSplit(a: Re, b: Re, s: string) returns (x: string, y: string)
    requires Accepts(Cat(a, b), s)
    ensures s == x + y && Accepts(a, x) && Accepts(b, y)
  {
    var k :| 0 <= k <= |s| && Accepts(a, s[..k]) && Accepts(b, s[k..]);
    x, y := s[..k], s[k..];
  }

  lemma StarJoin(a: Re, x: string, y: string)
    requires Accepts(a, x) && Accepts(Star(a), y)
    ensures Accepts(Star(a), x + y)
  {
    if x == [] {
      assert x + y == y;
    } else {
      assert (x + y)[..|x|] == x && (x + y)[|x|..] == y;
    }
  }

  lemma StarSplit(a: Re, s: string) returns (x: string, y: string)
    requires Accepts(Star(a), s) && s != []
    ensures s == x + y && x != [] && Accepts(a, x) && Accepts(Star(a), y)
  {
    var k :| 0 < k <= |s| && Accepts(a, s[..k]) && Accepts(Star(a), s[k..]);
    x, y := s[..k], s[k..];
  }

  /** `r` accepts exactly the one-character strings that `p` admits. */
  ghost predicate IsClass(r: Re, p: char -> bool) {
    forall s :: Accepts(r, s) <==> |s| == 1 && p(s[0])
  }

  /** After a one-character class the rest starts at index 1. */
  lemma CatHead(a: Re, p: char -> bool, b: Re, s: string)
    requires IsClass(a, p)
    ensures Accepts(Cat(a, b), s) <==> s != [] && p(s[0]) && Accepts(b, s[1..])
  {
    if s != [] && p(s[0]) && Accepts(b, s[1..]) {
      CatJoin(a, b, s[..1], s[1..]);
      assert s[..1] + s[1..] == s;
    }
    if Accepts(Cat(a, b), s) {
      var x, y := CatSplit(a, b, s);
      assert y == s[1..];
    }
  }

  lemma CatLast(a: Re, b: Re, p: char -> bool, s: string)
    requires IsClass(b, p)
    ensures Accepts(Cat(a, b), s) <==> s != [] && Accepts(a, s[..|s| - 1]) && p(s[|s| - 1])
  {
    if s != [] && Accepts(a, s[..|s| - 1]) && p(s[|s| - 1]) {
      CatJoin(a, b, s[..|s| - 1], s[|s| - 1..]);
      assert s[..|s| - 1] + s[|s| - 1..] == s;
    }
    if Accepts(Cat(a, b), s) {
      var x, y := CatSplit(a, b, s);
      assert x == s[..|s| - 1];
    }
  }

  /** One more character in front of the leading run of `seq(repeat(a), b)`. */
  lemma StarPrepend(a: Re, b: Re, c: string, s: string)
    requires Accepts(a, c) && Accepts(Cat(Star(a), b), s)
    ensures Accepts(Cat(Star(a), b), c + s)
  {
    var x, y := CatSplit(Star(a), b, s);
    Shift(c, x, y);
    StarJoin(a, c, x);
    CatJoin(Star(a), b, c + x, y);
  }

  lemma PlusPrepend(a: Re, c: string, s: string)
    requires Accepts(a, c) && (s == [] || Accepts(Plus(a), s))
    ensures Accepts(Plus(a), c + s)
  {
    if s == [] {
      CatJoin(a, Star(a), c, s);
    } else {
      var x, y := CatSplit(a, Star(a), s);
      StarJoin(a, x, y);
      CatJoin(a, Star(a), c, s);
    }
  }

  /** `seq(seq(a, b), c)` and `seq(a, seq(b, c))` accept the same strings. */
  lemma CatAssoc(a: Re, b: Re, c: Re, s: string)
    ensures Accepts(Cat(Cat(a, b), c), s) <==> Accepts(Cat(a, Cat(b, c)), s)
  {
    if Accepts(Cat(Cat(a, b), c), s) {
      var t, z := CatSplit(Cat(a, b), c, s);
      var x, y := CatSplit(a, b, t);
      Shift(x, y, z);
      CatJoin(b, c, y, z);
      CatJoin(a, Cat(b, c), x, y + z);
    }
    if Accepts(Cat(a, Cat(b, c)), s) {
      var x, t := CatSplit(a, Cat(b, c), s);
      var y, z := CatSplit(b, c, t);
      Shift(x, y, z);
      CatJoin(a, b, x, y);
      CatJoin(Cat(a, b), c, x + y, z);
    }
  }

  lemma {:induction false} StarOfClass(r: Re, p: char -> bool, s: string)
    requires IsClass(r, p)
    ensures Accepts(Star(r), s) <==> forall i :: 0 <= i < |s| ==> p(s[i])
  {
    if s != [] {
      StarOfClass(r, p, s[1..]);
      if forall i :: 0 <= i < |s| ==> p(s[i]) {
        StarJoin(r, s[..1], s[1..]);
        assert s[..1] + s[1..] == s;
      }
      if Accepts(Star(r), s) {
        var x, y := StarSplit(r, s);
        assert |x| == 1;
        assert y == s[1..];
        assert forall i :: 0 <= i < |s| ==> s[i] == if i == 0 then x[0] else s[1..][i - 1];
      }
    }
  }

  lemma PlusOfClass(r: Re, p: char -> bool, s: string)
    requires IsClass(r, p)
    ensures Accepts(Plus(r), s) <==> s != [] && forall i :: 0 <= i < |s| ==> p(s[i])
  {
    if s != [] && forall i :: 0 <= i < |s| ==> p(s[i]) {
      StarOfClass(r, p, s[1..]);
      CatJoin(r, Star(r), s[..1], s[1..]);
      assert s[..1] + s[1..] == s;
    }
    if Accepts(Plus(r), s) {
      var x, y := CatSplit(r, Star(r), s);
      StarOfClass(r, p, y);
      assert forall i :: 0 <= i < |s| ==> s[i] == if i == 0 then x[0] else y[i - 1];
    }
  }

  lemma ClassOneOf(cs: set<char>)
    ensures IsClass(OneOf(cs), c => c in cs)
  {
  }

  lemma ClassNoneOf(cs: set<char>)
    ensures IsClass(NoneOf(cs), c => c !in cs)
  {
  }

  // ---------- Equality of languages ----------

  ghost predicate SameLanguage(a: Re, b: Re) {
    forall s :: Accepts(a, s) <==> Accepts(b, s)
  }

  lemma SameCat(a: Re, b: Re, a': Re, b': Re)
    requires SameLanguage(a, a') && SameLanguage(b, b')
    ensures SameLanguage(Cat(a, b), Cat(a', b'))
  {
  }

  lemma SameAlt(a: Re, b: Re, a': Re, b': Re)
    requires SameLanguage(a, a') && SameLanguage(b, b')
    ensures SameLanguage(Alt(a, b), Alt(a', b'))
  {
  }

  /** `seq(x, optional(f))` is `choice(x, seq(x, f))`. */
  lemma CatOpt(x: Re, f: Re, s: string)
    ensures Accepts(Cat(x, Opt(f)), s) <==> Accepts(x, s) || Accepts(Cat(x, f), s)
  {
    if Accepts(Cat(x, Opt(f)), s) {
      var p, q := CatSplit(x, Opt(f), s);
      if q == [] && Accepts(Empty, q) {
        assert p == s;
      } else {
        CatJoin(x, f, p, q);
      }
    }
    if Accepts(x, s) {
      CatJoin(x, Opt(f), s, []);
      assert s + [] == s;
    }
    if Accepts(Cat(x, f), s) {
      var p, q := CatSplit(x, f, s);
      CatJoin(x, Opt(f), p, q);
    }
  }
}
