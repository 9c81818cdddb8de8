/**
 * The `Version` value type of the updater: a string is split on ".", every
 * piece that Swift's `Int(String)` accepts is kept (the others are skipped),
 * and exactly three surviving integers make a version. The `<` operator is
 * the one the source declares, which only compares the last component.
 */
module Versions {
  import opened Wrappers

  /* ---------------------------------------------------------------------- */
  /*  String.components(separatedBy:) with a one-character separator        */
  /* ---------------------------------------------------------------------- */

  /** The inverse of `Components`: glue pieces back together with `sep`. */
  function Join(pieces: seq<string>, sep: char): (s: string)
    requires |pieces| >= 1
    decreases |pieces|
  {
    if |pieces| == 1 then pieces[0] else pieces[0] + [sep] + Join(pieces[1..], sep)
  }

  /** `Join` of three pieces, written out. */
  lemma JoinThree(x: string, y: string, z: string, sep: char)
    ensures Join([x, y, z], sep) == x + [sep] + y + [sep] + z
  {
    assert [x, y, z][1..] == [y, z] && [y, z][1..] == [z];
    assert Join([y, z], sep) == y + [sep] + z;
    assert Join([x, y, z], sep) == x + [sep] + (y + [sep] + z);
  }

  /** `Join` of four pieces, written out. */
  lemma JoinFour(w: string, x: string, y: string, z: string, sep: char)
    ensures Join([w, x, y, z], sep) == w + [sep] + x + [sep] + y + [sep] + z
  {
    assert [w, x, y, z][1..] == [x, y, z];
    JoinThree(x, y, z, sep);
  }

  /**
   * The pieces of `s` between occurrences of `sep`, empty pieces included;
   * there is always at least one piece (the empty string gives [""]).
   */
  function Components(s: string, sep: char): (pieces: seq<string>)
    ensures |pieces| >= 1
    ensures forall i :: 0 <= i < |pieces| ==> sep !in pieces[i]
    ensures Join(pieces, sep) == s
    decreases |s|
  {
    if s == [] then [[]]
    else
      var rest := Components(s[1..], sep);
      if s[0] == sep then
        [[]] + rest
      else
        assert s == [s[0]] + s[1..];
        [[s[0]] + rest[0]] + rest[1..]
  }

  /** Splitting a piece free of `sep`, followed by `sep`, yields that piece first. */
  lemma {:induction false} ComponentsOfPrefix(w: string, sep: char, t: string)
    requires sep !in w
    ensures Components(w + [sep] + t, sep) == [w] + Components(t, sep)
    decreases |w|
  {
    if w == [] {
      assert w + [sep] + t == [sep] + t;
      assert ([sep] + t)[1..] == t;
    } else {
      var s := w + [sep] + t;
      assert s[0] == w[0] && s[1..] == w[1..] + [sep] + t;
      ComponentsOfPrefix(w[1..], sep, t);
      assert [w[0]] + w[1..] == w;
    }
  }

  /** A piece free of `sep` is its own single component. */
  lemma {:induction false} ComponentsOfPiece(w: string, sep: char)
    requires sep !in w
    ensures Components(w, sep) == [w]
    decreases |w|
  {
    if w != [] {
      ComponentsOfPiece(w[1..], sep);
      assert [w[0]] + w[1..] == w;
    }
  }

  /** Round trip: splitting what `Join` produced gives back the pieces. */
  lemma {:induction false} ComponentsOfJoin(pieces: seq<string>, sep: char)
    requires |pieces| >= 1
    requires forall i :: 0 <= i < |pieces| ==> sep !in pieces[i]
    ensures Components(Join(pieces, sep), sep) == pieces
    decreases |pieces|
  {
    if |pieces| == 1 {
      ComponentsOfPiece(pieces[0], sep);
    } else {
      ComponentsOfJoin(pieces[1..], sep);
      ComponentsOfPrefix(pieces[0], sep, Join(pieces[1..], sep));
      assert [pieces[0]] + pieces[1..] == pieces;
    }
  }

  /* ---------------------------------------------------------------------- */
  /*  Swift Int(String): 64-bit signed decimal                              */
  /* ---------------------------------------------------------------------- */

  const IntMin: int := -0x8000_0000_0000_0000
  const IntMax: int := 0x7FFF_FFFF_FFFF_FFFF

  predicate InIntRange(n: int) { IntMin <= n <= IntMax }

  predicate IsDigit(c: char) { '0' <= c <= '9' }

  predicate AllDigits(s: string) { forall i :: 0 <= i < |s| ==> IsDigit(s[i]) }

  function DigitValue(c: char): nat
    requires IsDigit(c)
  {
    (c - '0') as nat
  }

  /** The decimal value of a string of digits, most significant first. */
  function DigitsValue(ds: string): nat
    requires AllDigits(ds)
    decreases |ds|
  {
    if ds == [] then 0 else DigitsValue(ds[..|ds| - 1]) * 10 + DigitValue(ds[|ds| - 1])
  }

  /** The magnitude of an optional sign followed by its digits. */
  function Unsigned(s: string): string
  {
    if |s| > 0 && (s[0] == '+' || s[0] == '-') then s[1..] else s
  }

  /** The value of a sign and its digits: negated after a "-", as is after a "+" or no sign. */
  function SignedValue(s: string): int
    requires |Unsigned(s)| >= 1 && AllDigits(Unsigned(s))
  {
    if s[0] == '-' then -(DigitsValue(Unsigned(s)) as int) else DigitsValue(Unsigned(s)) as int
  }

  /**
   * `Int(s)`: an optional "+" or "-", then one or more ASCII digits, and a
   * value that fits in 64 bits; anything else (including "", "+", "1 ",
   * "0x1" and out-of-range numbers) gives no value.
   */
  function ParseInt(s: string): (r: Option<int>)
    ensures r.Some? ==> InIntRange(r.value)
    ensures r.Some? ==> |Unsigned(s)| >= 1 && AllDigits(Unsigned(s))
    ensures r.Some? && r.value < 0 ==> s[0] == '-'
    ensures r.Some? ==> r.value == SignedValue(s)
    ensures |Unsigned(s)| >= 1 && AllDigits(Unsigned(s)) && InIntRange(SignedValue(s)) ==> r.Some?
  {
    var ds := Unsigned(s);
    if |ds| == 0 || !AllDigits(ds) then None
    else
      var m: int := DigitsValue(ds);
      var n := if s[0] == '-' then -m else m;
      if InIntRange(n) then Some(n) else None
  }

  /** The decimal digits of `n`, most significant first, without leading zeros. */
  function NatDigits(n: nat): (ds: string)
    ensures |ds| >= 1 && AllDigits(ds)
    ensures DigitsValue(ds) == n
    decreases n
  {
    var last := ['0' + (n % 10) as char];
    if n < 10 then last
    else
      var front := NatDigits(n / 10);
      assert (front + last)[..|front + last| - 1] == front;
      front + last
  }

  /** `String(n)` / `n.description`: a "-" for negatives, then the digits. */
  function IntToString(n: int): (s: string)
    ensures s != [] && '.' !in s
  {
    if n < 0 then "-" + NatDigits(-n) else NatDigits(n)
  }

  /** Round trip: `Int(String(n)) == n` for every 64-bit `n`. */
  lemma IntToStringParses(n: int)
    requires InIntRange(n)
    ensures ParseInt(IntToString(n)) == Some(n)
  {
    var s := IntToString(n);
    if n < 0 {
      assert Unsigned(s) == NatDigits(-n);
    } else {
      assert Unsigned(s) == NatDigits(n);
    }
  }

  /** Signs and leading zeros: "-05" is -5, while "+5" and "05" are both 5. */
  lemma SignExamples()
    ensures ParseInt("-05") == Some(-5)
    ensures ParseInt("+5") == Some(5)
    ensures ParseInt("05") == Some(5)
  {
    assert Unsigned("-05") == "05" && Unsigned("+5") == "5";
    assert "05"[..1] == "0" && "0"[..0] == "" && "5"[..0] == "";
    assert DigitsValue("05") == 5;
  }

  /* ---------------------------------------------------------------------- */
  /*  compactMap({ Int($0) })                                               */
  /* ---------------------------------------------------------------------- */

  /** The pieces that parse as integers, converted, in their original order. */
  function ParsedInts(pieces: seq<string>): (ns: seq<int>)
    ensures |ns| <= |pieces|
    ensures forall i :: 0 <= i < |ns| ==> InIntRange(ns[i])
    decreases |pieces|
  {
    if pieces == [] then []
    else
      match ParseInt(pieces[0])
      case Some(n) => [n] + ParsedInts(pieces[1..])
      case None => ParsedInts(pieces[1..])
  }

  /** `compactMap` distributes over concatenation of its input. */
  lemma {:induction false} ParsedIntsAppend(xs: seq<string>, ys: seq<string>)
    ensures ParsedInts(xs + ys) == ParsedInts(xs) + ParsedInts(ys)
    decreases |xs|
  {
    if xs == [] {
      assert xs + ys == ys;
    } else {
      assert (xs + ys)[1..] == xs[1..] + ys;
      ParsedIntsAppend(xs[1..], ys);
    }
  }

  /** Pieces none of which parse leave nothing. */
  lemma {:induction false} NoIntegerPieces(pieces: seq<string>)
    requires forall i :: 0 <= i < |pieces| ==> ParseInt(pieces[i]).None?
    ensures ParsedInts(pieces) == []
    decreases |pieces|
  {
    if pieces != [] {
      NoIntegerPieces(pieces[1..]);
    }
  }

  /** Pieces that all parse are kept one for one. */
  lemma {:induction false} ParsedIntsAllParse(pieces: seq<string>)
    requires forall i :: 0 <= i < |pieces| ==> ParseInt(pieces[i]).Some?
    ensures |ParsedInts(pieces)| == |pieces|
    ensures forall i :: 0 <= i < |pieces| ==> ParsedInts(pieces)[i] == ParseInt(pieces[i]).value
    decreases |pieces|
  {
    if pieces != [] {
      ParsedIntsAllParse(pieces[1..]);
    }
  }

  /* ---------------------------------------------------------------------- */
  /*  struct Version                                                        */
  /* ---------------------------------------------------------------------- */

  datatype Version = Version(base: int, major: int, minor: int)

  /** The integer pieces of a version string, in order. */
  function VersionNumbers(s: string): seq<int>
  {
    ParsedInts(Components(s, '.'))
  }

  /**
   * `Version(str:)`: succeeds exactly when three pieces of `s` survive the
   * integer conversion, and then takes them as base, major and minor.
   */
  function ParseVersion(s: string): (r: Option<Version>)
    ensures r.Some? <==> |VersionNumbers(s)| == 3
    ensures r.Some? ==> VersionNumbers(s) == [r.value.base, r.value.major, r.value.minor]
    ensures r.Some? ==> InIntRange(r.value.base) && InIntRange(r.value.major) && InIntRange(r.value.minor)
  {
    var numbers := VersionNumbers(s);
    if |numbers| != 3 then None
    else Some(Version(numbers[0], numbers[1], numbers[2]))
  }

  /** The conventional text of a version, "base.major.minor". */
  function FormatVersion(v: Version): string
  {
    Join([IntToString(v.base), IntToString(v.major), IntToString(v.minor)], '.')
  }

  /** Round trip: every version with 64-bit components is read back from its text. */
  lemma FormatVersionParses(v: Version)
    requires InIntRange(v.base) && InIntRange(v.major) && InIntRange(v.minor)
    ensures ParseVersion(FormatVersion(v)) == Some(v)
  {
    var pieces := [IntToString(v.base), IntToString(v.major), IntToString(v.minor)];
    ComponentsOfJoin(pieces, '.');
    IntToStringParses(v.base);
    IntToStringParses(v.major);
    IntToStringParses(v.minor);
    ParsedIntsAllParse(pieces);
  }

  /** A piece that does not parse contributes nothing to `compactMap`. */
  lemma ParsedIntsSkip(front: seq<string>, junk: string, back: seq<string>)
    requires ParseInt(junk).None?
    ensures ParsedInts(front + [junk] + back) == ParsedInts(front + back)
  {
    ParsedIntsAppend(front + [junk], back);
    ParsedIntsAppend(front, [junk]);
    ParsedIntsAppend(front, back);
    assert ParsedInts([junk]) == [];
  }

  /** Inserting a piece free of "." keeps every piece free of ".". */
  lemma InsertedPiecesFree(pieces: seq<string>, k: nat, junk: string)
    requires k <= |pieces|
    requires forall i :: 0 <= i < |pieces| ==> '.' !in pieces[i]
    requires '.' !in junk
    ensures forall i :: 0 <= i < |pieces| + 1 ==> '.' !in (pieces[..k] + [junk] + pieces[k..])[i]
  {
    var longer := pieces[..k] + [junk] + pieces[k..];
    forall i | 0 <= i < |longer| ensures '.' !in longer[i] {
      if i < k { assert longer[i] == pieces[i]; }
      else if i > k { assert longer[i] == pieces[i - 1]; }
    }
  }

  /** Cutting a sequence and gluing the parts back gives the sequence. */
  lemma SliceRejoins<T>(s: seq<T>, k: nat)
    requires k <= |s|
    ensures s[..k] + s[k..] == s
  {
  }

  /** The integer pieces of a joined string are those of its pieces. */
  lemma VersionNumbersOfJoin(pieces: seq<string>)
    requires |pieces| >= 1
    requires forall i :: 0 <= i < |pieces| ==> '.' !in pieces[i]
    ensures VersionNumbers(Join(pieces, '.')) == ParsedInts(pieces)
  {
    ComponentsOfJoin(pieces, '.');
  }

  /** `Version(str:)` depends on its input only through the integer pieces. */
  lemma ParseVersionByNumbers(s: string, t: string)
    requires VersionNumbers(s) == VersionNumbers(t)
    ensures ParseVersion(s) == ParseVersion(t)
  {
  }

  /**
   * A piece that is not an integer is skipped, not rejected: inserting one
   * anywhere among the pieces of a version string leaves the result unchanged.
   */
  lemma SkipsNonIntegerPiece(pieces: seq<string>, k: nat, junk: string)
    requires |pieces| >= 1 && k <= |pieces|
    requires forall i :: 0 <= i < |pieces| ==> '.' !in pieces[i]
    requires '.' !in junk && ParseInt(junk).None?
    ensures ParseVersion(Join(pieces[..k] + [junk] + pieces[k..], '.')) == ParseVersion(Join(pieces, '.'))
  {
    var front, back := pieces[..k], pieces[k..];
    SliceRejoins(pieces, k);
    var longer := front + [junk] + back;
    ParsedIntsSkip(front, junk, back);
    InsertedPiecesFree(pieces, k, junk);
    VersionNumbersOfJoin(longer);
    VersionNumbersOfJoin(pieces);
    ParseVersionByNumbers(Join(longer, '.'), Join(pieces, '.'));
  }

  /** The character of a decimal digit. */
  function Digit(n: nat): (c: char)
    requires n < 10
    ensures IsDigit(c) && DigitValue(c) == n
  {
    '0' + n as char
  }

  /** A single digit is an integer piece. */
  lemma DigitParses(n: nat)
    requires n < 10
    ensures ParseInt([Digit(n)]) == Some(n)
  {
    assert Unsigned([Digit(n)]) == [Digit(n)];
    assert DigitsValue([Digit(n)]) == n by {
      assert [Digit(n)][..0] == [];
    }
  }

  /**
   * When every piece is an integer, the count alone decides: three pieces give
   * a version, any other number gives none.
   */
  lemma IntegerPieceCount(pieces: seq<string>)
    requires |pieces| >= 1
    requires forall i :: 0 <= i < |pieces| ==> '.' !in pieces[i] && ParseInt(pieces[i]).Some?
    ensures ParseVersion(Join(pieces, '.')).Some? <==> |pieces| == 3
  {
    ComponentsOfJoin(pieces, '.');
    ParsedIntsAllParse(pieces);
  }

  /** A version string of three single digits reads as those digits. */
  lemma SingleDigitsParse(a: nat, b: nat, c: nat)
    requires a < 10 && b < 10 && c < 10
    ensures ParseVersion([Digit(a), '.', Digit(b), '.', Digit(c)]) == Some(Version(a, b, c))
  {
    var v := Version(a, b, c);
    FormatVersionParses(v);
    var pa, pb, pc := IntToString(a), IntToString(b), IntToString(c);
    assert pa == [Digit(a)] && pb == [Digit(b)] && pc == [Digit(c)];
    JoinThree(pa, pb, pc, '.');
    assert FormatVersion(v) == [Digit(a), '.', Digit(b), '.', Digit(c)];
  }

  /** "1.2.3" reads as (1, 2, 3). */
  lemma ParsesThreeIntegers()
    ensures ParseVersion("1.2.3") == Some(Version(1, 2, 3))
  {
    SingleDigitsParse(1, 2, 3);
  }

  /** Two or four integer pieces give no version, as "1.2" and "1.2.3.4" show. */
  lemma RejectsWrongCount(a: nat, b: nat, c: nat, d: nat)
    requires a < 10 && b < 10 && c < 10 && d < 10
    ensures ParseVersion([Digit(a), '.', Digit(b)]) == None
    ensures ParseVersion([Digit(a), '.', Digit(b), '.', Digit(c), '.', Digit(d)]) == None
  {
    var pa, pb, pc, pd := [Digit(a)], [Digit(b)], [Digit(c)], [Digit(d)];
    DigitParses(a);
    DigitParses(b);
    DigitParses(c);
    DigitParses(d);
    var short, long := [pa, pb], [pa, pb, pc, pd];
    IntegerPieceCount(short);
    assert Join(short, '.') == [Digit(a), '.', Digit(b)] by {
      assert short[1..] == [pb];
    }
    IntegerPieceCount(long);
    JoinFour(pa, pb, pc, pd, '.');
    assert Join(long, '.') == [Digit(a), '.', Digit(b), '.', Digit(c), '.', Digit(d)];
  }

  /** Instances: "1.2" and "1.2.3.4" give no version. */
  lemma WrongCountExamples()
    ensures ParseVersion("1.2") == None
    ensures ParseVersion("1.2.3.4") == None
  {
    RejectsWrongCount(1, 2, 3, 4);
    assert [Digit(1), '.', Digit(2)] == "1.2";
    assert [Digit(1), '.', Digit(2), '.', Digit(3), '.', Digit(4)] == "1.2.3.4";
  }

  /** Three pieces none of which is an integer give no version. */
  lemma RejectsNonNumeric(x: string, y: string, z: string)
    requires '.' !in x && '.' !in y && '.' !in z
    requires ParseInt(x).None? && ParseInt(y).None? && ParseInt(z).None?
    ensures ParseVersion(x + ['.'] + y + ['.'] + z) == None
  {
    var pieces := [x, y, z];
    JoinThree(x, y, z, '.');
    VersionNumbersOfJoin(pieces);
    NoIntegerPieces(pieces);
  }

  /** The empty string is one empty piece, which is not an integer. */
  lemma RejectsEmpty()
    ensures ParseVersion("") == None
  {
    assert Components("", '.') == [""];
    assert ParseInt("").None?;
  }

  /** Instance: "a.b.c" gives no version. */
  lemma NonNumericExample()
    ensures ParseVersion("a.b.c") == None
  {
    assert ParseInt("a").None? && ParseInt("b").None? && ParseInt("c").None?;
    RejectsNonNumeric("a", "b", "c");
    assert "a" + ['.'] + "b" + ['.'] + "c" == "a.b.c";
  }

  /**
   * A piece that is not an integer, placed between the first two of three
   * digits, is skipped: "1.x.2.3" and "1..2.3" read as (1, 2, 3).
   */
  lemma SkipsNonIntegerExample(a: nat, b: nat, c: nat, junk: string)
    requires a < 10 && b < 10 && c < 10
    requires '.' !in junk && ParseInt(junk).None?
    ensures ParseVersion([Digit(a), '.'] + junk + ['.', Digit(b), '.', Digit(c)]) == Some(Version(a, b, c))
  {
    var pa, pb, pc := [Digit(a)], [Digit(b)], [Digit(c)];
    var pieces := [pa, pb, pc];
    var longer := [pa, junk, pb, pc];
    JoinThree(pa, pb, pc, '.');
    assert Join(pieces, '.') == [Digit(a), '.', Digit(b), '.', Digit(c)];
    JoinFour(pa, junk, pb, pc, '.');
    assert Join(longer, '.') == [Digit(a), '.'] + junk + ['.', Digit(b), '.', Digit(c)];
    SingleDigitsParse(a, b, c);
    assert pieces[..1] + [junk] + pieces[1..] == longer;
    SkipsNonIntegerPiece(pieces, 1, junk);
  }

  /** Instances: "1.x.2.3" and "1..2.3" read as (1, 2, 3). */
  lemma SkipsExamples()
    ensures ParseVersion("1.x.2.3") == Some(Version(1, 2, 3))
    ensures ParseVersion("1..2.3") == Some(Version(1, 2, 3))
  {
    assert ParseInt("x").None? && ParseInt("").None?;
    SkipsNonIntegerExample(1, 2, 3, "x");
    SkipsNonIntegerExample(1, 2, 3, "");
    assert [Digit(1), '.'] + "x" + ['.', Digit(2), '.', Digit(3)] == "1.x.2.3";
    assert [Digit(1), '.'] + "" + ['.', Digit(2), '.', Digit(3)] == "1..2.3";
  }

  /* ---------------------------------------------------------------------- */
  /*  static func <                                                         */
  /* ---------------------------------------------------------------------- */

  /**
   * The declared ordering: only versions that agree on base and major are
   * related, and then by minor alone.
   */
  predicate Less(a: Version, b: Version): (r: bool)
    ensures r ==> LexLess(a, b)
    ensures a.base != b.base || a.major != b.major ==> !r
  {
    a.base == b.base && a.major == b.major && a.minor < b.minor
  }

  /** The usual lexicographic ordering on (base, major, minor), for comparison. */
  predicate LexLess(a: Version, b: Version)
  {
    a.base < b.base
    || (a.base == b.base && a.major < b.major)
    || (a.base == b.base && a.major == b.major && a.minor < b.minor)
  }

  /** `<` is a strict partial order: irreflexive, asymmetric and transitive. */
  lemma LessIsStrictPartialOrder(a: Version, b: Version, c: Version)
    ensures !Less(a, a)
    ensures Less(a, b) ==> !Less(b, a)
    ensures Less(a, b) && Less(b, c) ==> Less(a, c)
  {
  }

  /**
   * `<` is exactly the lexicographic order restricted to versions with equal
   * base and major; any two versions that differ there are incomparable.
   */
  lemma LessIsRestrictedLexLess(a: Version, b: Version)
    ensures Less(a, b) <==> LexLess(a, b) && a.base == b.base && a.major == b.major
    ensures (a.base != b.base || a.major != b.major) ==> !Less(a, b) && !Less(b, a)
  {
  }

  /** `<` is not total: distinct versions exist that it relates in neither direction. */
  lemma LessIsNotTotal()
    ensures exists a: Version, b: Version :: a != b && !Less(a, b) && !Less(b, a) && LexLess(a, b)
  {
    var a, b := Version(1, 2, 3), Version(1, 3, 0);
    assert a != b && !Less(a, b) && !Less(b, a) && LexLess(a, b);
  }

  /** The declared order on the sample versions: only a later minor with equal base and major is greater. */
  lemma LessExamples()
    ensures Less(Version(1, 2, 3), Version(1, 2, 4))
    ensures !Less(Version(1, 2, 3), Version(1, 3, 0))
    ensures !Less(Version(1, 2, 3), Version(2, 0, 0))
  {
  }
}
