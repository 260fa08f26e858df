/** The optional value used throughout the model. */
module Wrappers {
  datatype Option<+T> = None | Some(value: T)
}

/**
  The pieces of Python's built-in string behaviour that the object updater and
  the socket-string parser rely on: byte-string ordering and `sorted`,
  `str.split` with a one-character separator, `int(s)` and `str(n)`.
  Strings are byte strings (Python 2 `str`), modelled as `seq<char>`.
 */
module PyStr {
  import opened Wrappers

  // ---------------------------------------------------------------------------
  // Ordering of strings (`a < b`) and `sorted(xs, reverse=True)`
  // ---------------------------------------------------------------------------

  /** Python's `a < b` on strings: lexicographic by character, a proper prefix first. */
  predicate Below(a: string, b: string)
    decreases |a|
  {
    |b| > 0 && (|a| == 0 || a[0] < b[0] || (a[0] == b[0] && Below(a[1..], b[1..])))
  }

  predicate IsPrefix(p: string, s: string) {
    |p| <= |s| && s[..|p|] == p
  }

  lemma {:induction false} BelowIrreflexive(a: string)
    ensures !Below(a, a)
  {
    if |a| > 0 {
      BelowIrreflexive(a[1..]);
    }
  }

  lemma {:induction false} BelowTransitive(a: string, b: string, c: string)
    requires Below(a, b) && Below(b, c)
    ensures Below(a, c)
  {
    if |a| > 0 && a[0] == b[0] && b[0] == c[0] {
      BelowTransitive(a[1..], b[1..], c[1..]);
    }
  }

  /** Any two different strings are ordered one way or the other. */
  lemma {:induction false} BelowTotal(a: string, b: string)
    requires a != b
    ensures Below(a, b) || Below(b, a)
  {
    if |a| > 0 && |b| > 0 && a[0] == b[0] {
      assert a == [a[0]] + a[1..] && b == [b[0]] + b[1..];
      BelowTotal(a[1..], b[1..]);
    }
  }

  lemma BelowAsymmetric(a: string, b: string)
    requires Below(a, b)
    ensures !Below(b, a)
  {
    if Below(b, a) {
      BelowTransitive(a, b, a);
      BelowIrreflexive(a);
    }
  }

  /** `a >= b >= c` implies `a >= c`. */
  lemma NotBelowTransitive(a: string, b: string, c: string)
    requires !Below(a, b) && !Below(b, c)
    ensures !Below(a, c)
  {
    if Below(a, c) {
      if c == b {
      } else {
        BelowTotal(b, c);
        BelowTransitive(a, c, b);
      }
    }
  }

  /**
    A string that lies (inclusively) between two strings that share a prefix
    shares that prefix too.
   */
  lemma {:induction false} BetweenSharesPrefix(p: string, lo: string, x: string, hi: string)
    requires IsPrefix(p, lo) && IsPrefix(p, hi)
    requires !Below(x, lo) && !Below(hi, x)
    ensures IsPrefix(p, x)
  {
    if |p| > 0 {
      assert lo[0] == p[0] && hi[0] == p[0];
      assert |x| > 0;
      assert x[0] == p[0];
      assert lo[1..][..|p| - 1] == p[1..] && hi[1..][..|p| - 1] == p[1..];
      BetweenSharesPrefix(p[1..], lo[1..], x[1..], hi[1..]);
      assert x[..|p|] == [x[0]] + x[1..][..|p| - 1];
    }
  }

  /** Each element is greater than or equal to every later one. */
  predicate Descending(s: seq<string>) {
    forall i, j :: 0 <= i < j < |s| ==> !Below(s[i], s[j])
  }

  /** Inserts `x` into a descending sequence, keeping it descending. */
  function Insert(x: string, s: seq<string>): (r: seq<string>)
    requires Descending(s)
    ensures Descending(r)
    ensures multiset(r) == multiset(s) + multiset{x}
  {
    if s == [] then [x]
    else if !Below(x, s[0]) then
      assert forall j :: 0 <= j < |s| ==> !Below(x, s[j]) by {
        forall j | 0 <= j < |s| ensures !Below(x, s[j]) {
          if j > 0 { NotBelowTransitive(x, s[0], s[j]); }
        }
      }
      [x] + s
    else
      var rest := Insert(x, s[1..]);
      assert s == [s[0]] + s[1..];
      HeadAboveInserted(x, s, rest);
      [s[0]] + rest
  }

  /** The head of `s` is at least every element of `s[1..]` with `x` added, when `x` is below it. */
  lemma HeadAboveInserted(x: string, s: seq<string>, rest: seq<string>)
    requires Descending(s) && |s| > 0 && Below(x, s[0])
    requires multiset(rest) == multiset(s[1..]) + multiset{x}
    ensures forall j :: 0 <= j < |rest| ==> !Below(s[0], rest[j])
  {
    forall j | 0 <= j < |rest| ensures !Below(s[0], rest[j]) {
      assert rest[j] in multiset(rest);
      if rest[j] == x {
        BelowAsymmetric(x, s[0]);
      } else {
        assert rest[j] in multiset(s[1..]);
        var m :| 0 <= m < |s[1..]| && s[1..][m] == rest[j];
        assert s[1 + m] == rest[j];
      }
    }
  }

  /** Python's `sorted(xs, reverse=True)`: the same strings, greatest first. */
  function SortDesc(xs: seq<string>): (r: seq<string>)
    ensures Descending(r)
    ensures multiset(r) == multiset(xs)
  {
    if xs == [] then []
    else
      assert xs == [xs[0]] + xs[1..];
      Insert(xs[0], SortDesc(xs[1..]))
  }

  predicate Distinct<T(==)>(s: seq<T>) {
    forall i, j :: 0 <= i < j < |s| ==> s[i] != s[j]
  }

  /** A permutation of a sequence without repetitions has none either. */
  lemma DistinctPermutation<T>(s: seq<T>, r: seq<T>)
    requires Distinct(s) && multiset(r) == multiset(s)
    ensures Distinct(r)
  {
    forall i, j | 0 <= i < j < |r| ensures r[i] != r[j] {
      if r[i] == r[j] {
        var x := r[i];
        assert multiset(r)[x] >= 2 by {
          assert r == r[..i] + [x] + r[i + 1..j] + [x] + r[j + 1..];
        }
        MultiplicityOfDistinct(s, x);
      }
    }
  }

  lemma {:induction false} MultiplicityOfDistinct<T>(s: seq<T>, x: T)
    requires Distinct(s)
    ensures multiset(s)[x] <= 1
  {
    if s != [] {
      assert s == [s[0]] + s[1..];
      MultiplicityOfDistinct(s[1..], x);
      if s[0] == x {
        assert x !in s[1..];
      }
    }
  }

  // ---------------------------------------------------------------------------
  // `s.split(c)` and `c.join(pieces)`
  // ---------------------------------------------------------------------------

  /** How often `c` occurs in `s`. */
  function Count(s: string, c: char): nat {
    if s == [] then 0 else (if s[0] == c then 1 else 0) + Count(s[1..], c)
  }

  lemma {:induction false} CountZero(s: string, c: char)
    ensures Count(s, c) == 0 <==> c !in s
  {
    if s != [] {
      CountZero(s[1..], c);
      assert s == [s[0]] + s[1..];
    }
  }

  /** `c.join(pieces)`. */
  function Join(pieces: seq<string>, c: char): string
    requires |pieces| > 0
  {
    if |pieces| == 1 then pieces[0] else pieces[0] + [c] + Join(pieces[1..], c)
  }

  /**
    `s.split(c)`: the pieces between occurrences of `c`, one more piece than
    there are separators, none of them containing `c`, joined back to `s`.
   */
  function Split(s: string, c: char): (r: seq<string>)
    ensures |r| == Count(s, c) + 1
    ensures forall i :: 0 <= i < |r| ==> c !in r[i]
    ensures Join(r, c) == s
  {
    if s == [] then [[]]
    else
      var rest := Split(s[1..], c);
      assert s == [s[0]] + s[1..];
      if s[0] == c then
        [[]] + rest
      else
        assert forall x :: x in [s[0]] + rest[0] ==> x == s[0] || x in rest[0];
        var r := [[s[0]] + rest[0]] + rest[1..];
        assert r[1..] == rest[1..];
        r
  }

  /** Splitting `a + c + b`, where neither part holds `c`, gives exactly `[a, b]`. */
  lemma SplitOnce(a: string, b: string, c: char)
    requires c !in a && c !in b
    ensures Split(a + [c] + b, c) == [a, b]
  {
    var s := a + [c] + b;
    var r := Split(s, c);
    CountOnce(a, b, c);
    assert |r| == 2;
    assert Join(r, c) == r[0] + [c] + r[1];
    IndexOfUnique(r[0], r[1], a, b, c);
  }

  lemma {:induction false} CountOnce(a: string, b: string, c: char)
    requires c !in a && c !in b
    ensures Count(a + [c] + b, c) == 1
  {
    if a == [] {
      assert a + [c] + b == [c] + b;
      assert ([c] + b)[1..] == b;
      CountZero(b, c);
    } else {
      assert (a + [c] + b)[1..] == a[1..] + [c] + b;
      CountOnce(a[1..], b, c);
    }
  }

  lemma SeparatorAt(a: string, b: string, c: char)
    ensures (a + [c] + b)[|a|] == c
  {
  }

  /** The only separator splits the string in one place. */
  lemma IndexOfUnique(a: string, b: string, a': string, b': string, c: char)
    requires c !in a && c !in b && c !in a' && c !in b'
    requires a + [c] + b == a' + [c] + b'
    ensures a == a' && b == b'
  {
    var s := a + [c] + b;
    if |a| < |a'| {
      SeparatorAt(a, b, c);
      assert false;
    } else if |a'| < |a| {
      SeparatorAt(a', b', c);
      assert false;
    }
    assert a == s[..|a|] == a';
    assert b == s[|a| + 1..] == b';
  }

  lemma PrefixAt(p: string, s: string, i: nat)
    requires IsPrefix(p, s) && i < |p|
    ensures s[i] == p[i]
  {
    assert s[..|p|][i] == s[i];
  }

  /** Two prefixes that each end at the first `c` of `s` are the same prefix. */
  lemma SameFirstSeparator(a: string, a': string, c: char, s: string)
    requires c !in a && c !in a'
    requires IsPrefix(a + [c], s) && IsPrefix(a' + [c], s)
    ensures a == a'
  {
    if |a| < |a'| {
      PrefixAt(a' + [c], s, |a|);
      PrefixAt(a + [c], s, |a|);
      assert false;
    } else if |a'| < |a| {
      PrefixAt(a + [c], s, |a'|);
      PrefixAt(a' + [c], s, |a'|);
      assert false;
    }
    assert a == s[..|a| + 1][..|a|] && a' == s[..|a'| + 1][..|a'|];
  }

  // ---------------------------------------------------------------------------
  // `int(s)` (base 10) and `str(n)`
  // ---------------------------------------------------------------------------

  predicate IsDigit(ch: char) {
    '0' <= ch <= '9'
  }

  predicate AllDigits(s: string) {
    forall i :: 0 <= i < |s| ==> IsDigit(s[i])
  }

  /** The characters `int()` skips around a number: space, \t, \n, \v, \f and \r. */
  predicate IsSpace(ch: char) {
    ch == ' ' || (9 <= ch as int <= 13)
  }

  function LStrip(s: string): (r: string)
    ensures |r| <= |s| && (|r| > 0 ==> !IsSpace(r[0]))
  {
    if |s| > 0 && IsSpace(s[0]) then LStrip(s[1..]) else s
  }

  function RStrip(s: string): (r: string)
    ensures |r| <= |s| && (|r| > 0 ==> !IsSpace(r[|r| - 1]))
  {
    if |s| > 0 && IsSpace(s[|s| - 1]) then RStrip(s[..|s| - 1]) else s
  }

  /** The value of a string of decimal digits. */
  function DigitsValue(d: string): nat
    requires AllDigits(d)
  {
    if d == [] then 0 else DigitsValue(d[..|d| - 1]) * 10 + (d[|d| - 1] as int - '0' as int)
  }

  /**
    Python 2's `int(s)` of a byte string (`PyInt_FromString`): white space, an
    optional sign, white space again (`PyOS_strtoul` skips it after the sign),
    at least one decimal digit, then white space; anything else raises
    ValueError (here: None).
   */
  function ParseInt(s: string): (r: Option<int>)
    ensures r.Some? ==> exists ch :: ch in s && IsDigit(ch)
  {
    var t := RStrip(LStrip(s));
    var signed := |t| > 0 && (t[0] == '-' || t[0] == '+');
    var digits := if signed then LStrip(t[1..]) else t;
    if |digits| > 0 && AllDigits(digits) then
      var v: int := DigitsValue(digits);
      assert digits[0] in s by {
        StripInside(s);
        if signed {
          LStripInside(t[1..]);
          assert digits[0] in t[1..];
          var j :| 0 <= j < |t[1..]| && t[1..][j] == digits[0];
          assert t[1 + j] == digits[0];
        }
      }
      Some(if signed && t[0] == '-' then -v else v)
    else None
  }

  /** White space may follow the sign. */
  lemma ParseIntSpaceAfterSign()
    ensures ParseInt("- 1") == Some(-1) && ParseInt("+ 1") == Some(1)
  {
    assert LStrip("- 1") == "- 1" && RStrip("- 1") == "- 1" && "- 1"[1..] == " 1" && LStrip(" 1") == "1";
    assert LStrip("+ 1") == "+ 1" && RStrip("+ 1") == "+ 1" && "+ 1"[1..] == " 1";
  }

  /** Zeros may lead, and white space may surround the number. */
  lemma ParseIntLeadingZero()
    ensures ParseInt(" 07\n") == Some(7)
  {
    assert LStrip(" 07\n") == "07\n" && RStrip("07\n") == "07" && DigitsValue("07") == 7;
  }

  /** A sign alone, two signs and a suffix are refused. */
  lemma ParseIntRefuses()
    ensures ParseInt("-") == None && ParseInt("+-1") == None && ParseInt("1L") == None && ParseInt("") == None
  {
    assert LStrip("-") == "-" && RStrip("-") == "-" && "-"[1..] == "" && LStrip("") == "";
    assert LStrip("+-1") == "+-1" && RStrip("+-1") == "+-1" && "+-1"[1..] == "-1" && LStrip("-1") == "-1";
    assert LStrip("1L") == "1L" && RStrip("1L") == "1L";
  }

  lemma StripInside(s: string)
    ensures forall ch :: ch in RStrip(LStrip(s)) ==> ch in s
  {
    LStripInside(s);
    RStripInside(LStrip(s));
  }

  lemma {:induction false} LStripInside(s: string)
    ensures forall ch :: ch in LStrip(s) ==> ch in s
  {
    if |s| > 0 && IsSpace(s[0]) {
      LStripInside(s[1..]);
    }
  }

  lemma {:induction false} RStripInside(s: string)
    ensures forall ch :: ch in RStrip(s) ==> ch in s
  {
    if |s| > 0 && IsSpace(s[|s| - 1]) {
      RStripInside(s[..|s| - 1]);
    }
  }

  function Digit(n: nat): (ch: char)
    requires n < 10
    ensures IsDigit(ch) && ch as int - '0' as int == n
  {
    ('0' as int + n) as char
  }

  /** `str(n)` for a natural number. */
  function NatToString(n: nat): (s: string)
    ensures |s| > 0 && AllDigits(s)
  {
    if n < 10 then [Digit(n)] else NatToString(n / 10) + [Digit(n % 10)]
  }

  /** `str(n)`. */
  function IntToString(n: int): string {
    if n < 0 then "-" + NatToString(-n) else NatToString(n)
  }

  lemma {:induction false} DigitsValueOfNatToString(n: nat)
    ensures DigitsValue(NatToString(n)) == n
  {
    var s := NatToString(n);
    if n >= 10 {
      assert s[..|s| - 1] == NatToString(n / 10);
      DigitsValueOfNatToString(n / 10);
    }
  }

  /** `int(str(n)) == n`. */
  lemma ParseIntOfIntToString(n: int)
    ensures ParseInt(IntToString(n)) == Some(n)
  {
    var s := IntToString(n);
    var m := if n < 0 then -n else n;
    var d := NatToString(m);
    DigitsValueOfNatToString(m);
    assert !IsSpace(s[0]) && !IsSpace(s[|s| - 1]);
    assert LStrip(s) == s;
    assert RStrip(s) == s;
    if n < 0 {
      assert s[1..] == d;
      assert !IsSpace(d[0]);
      assert LStrip(d) == d;
    } else {
      assert s == d && s[0] != '-' && s[0] != '+';
    }
  }
}
