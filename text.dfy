/** The string operations behind the ISO date keys: `String(n)` of an
    integer, `padStart`, `split` on one character, and `Number` of a string of
    decimal digits. */
module Text {

  predicate IsDigit(c: char) {
    '0' <= c <= '9'
  }

  predicate IsDecimal(s: string) {
    forall i :: 0 <= i < |s| ==> IsDigit(s[i])
  }

  function DigitChar(k: int): (c: char)
    requires 0 <= k < 10
    ensures IsDigit(c) && DigitValue(c) == k
  {
    (48 + k) as char
  }

  function DigitValue(c: char): (k: int)
    requires IsDigit(c)
    ensures 0 <= k < 10
  {
    c as int - 48
  }

  /** `String(k)` of a non-negative integer: its decimal digits. */
  function NatToString(k: nat): (s: string)
    ensures 1 <= |s| && IsDecimal(s)
    ensures s[0] == '0' ==> k == 0
    decreases k
  {
    if k < 10 then [DigitChar(k)] else NatToString(k / 10) + [DigitChar(k % 10)]
  }

  /** `Number(s)` of a string of decimal digits; the empty string is 0. */
  function DecimalValue(s: string): nat
    requires IsDecimal(s)
  {
    if s == [] then 0 else DecimalValue(s[..|s| - 1]) * 10 + DigitValue(s[|s| - 1])
  }

  /** Reading back the digits `String` wrote gives the number again. */
  lemma {:induction false} DecimalRoundTrip(k: nat)
    ensures DecimalValue(NatToString(k)) == k
    decreases k
  {
    if k >= 10 {
      var s := NatToString(k);
      assert s[..|s| - 1] == NatToString(k / 10);
      DecimalRoundTrip(k / 10);
    }
  }

  /** A leading zero does not change the value. */
  lemma {:induction false} DecimalLeadingZero(s: string)
    requires IsDecimal(s)
    ensures DecimalValue("0" + s) == DecimalValue(s)
    decreases |s|
  {
    if s != [] {
      var t := "0" + s;
      assert t[..|t| - 1] == "0" + s[..|s| - 1];
      DecimalLeadingZero(s[..|s| - 1]);
    }
  }

  /** The number of digits `String` writes for the ranges the keys use. */
  lemma DecimalLength(k: nat)
    ensures k < 10 ==> |NatToString(k)| == 1
    ensures 10 <= k < 100 ==> |NatToString(k)| == 2
    ensures 1000 <= k < 10000 ==> |NatToString(k)| == 4
  {
    if 1000 <= k < 10000 {
      assert |NatToString(k / 10)| == 3 by {
        assert |NatToString(k / 100)| == 2;
      }
    }
  }

  /** `String(x)` of an integer: a minus sign before the digits of a
      negative one. */
  function NumberToString(x: int): (s: string)
    ensures 1 <= |s|
    ensures x >= 0 ==> IsDecimal(s)
    ensures x < 0 ==> s[0] == '-' && IsDecimal(s[1..])
  {
    if x < 0 then "-" + NatToString(-x) else NatToString(x)
  }

  /** Reads what `NumberToString` writes. */
  function SignedDecimalValue(s: string): int
    requires |s| >= 1 && (if s[0] == '-' then IsDecimal(s[1..]) else IsDecimal(s))
  {
    if s[0] == '-' then 0 - DecimalValue(s[1..]) as int else DecimalValue(s)
  }

  lemma NumberToStringRoundTrip(x: int)
    ensures SignedDecimalValue(NumberToString(x)) == x
  {
    var s := NumberToString(x);
    if x < 0 {
      assert s[1..] == NatToString(-x);
      DecimalRoundTrip(-x);
    } else {
      assert IsDigit(s[0]);
      DecimalRoundTrip(x);
    }
  }

  /** `s.padStart(width, fill)`: `fill` characters before `s` up to `width`
      characters; a string already as long is unchanged. */
  function PadStart(s: string, width: nat, fill: char): (r: string)
    ensures |r| == if |s| >= width then |s| else width
    ensures r[|r| - |s|..] == s
    ensures forall i :: 0 <= i < |r| - |s| ==> r[i] == fill
  {
    if |s| >= width then s else seq(width - |s|, _ => fill) + s
  }

  /** `String(k).padStart(2, '0')` for a day or month number: two digits
      whose value is `k`. */
  lemma TwoDigits(k: nat)
    requires 1 <= k <= 31
    ensures |PadStart(NatToString(k), 2, '0')| == 2
    ensures IsDecimal(PadStart(NatToString(k), 2, '0'))
    ensures DecimalValue(PadStart(NatToString(k), 2, '0')) == k
  {
    DecimalLength(k);
    DecimalRoundTrip(k);
    if k < 10 {
      assert PadStart(NatToString(k), 2, '0') == "0" + NatToString(k);
      DecimalLeadingZero(NatToString(k));
    }
  }

  /** The occurrences of `c` in `s`. */
  function Count(s: string, c: char): nat {
    if s == [] then 0 else (if s[0] == c then 1 else 0) + Count(s[1..], c)
  }

  /** The parts joined with `sep` between neighbours. */
  function Join(parts: seq<string>, sep: char): string {
    if |parts| == 0 then ""
    else if |parts| == 1 then parts[0]
    else parts[0] + [sep] + Join(parts[1..], sep)
  }

  lemma JoinThree(a: string, b: string, c: string, sep: char)
    ensures Join([a, b, c], sep) == a + [sep] + b + [sep] + c
  {
    assert [a, b, c][1..] == [b, c];
    assert [b, c][1..] == [c];
    assert Join([b, c], sep) == b + [sep] + c;
    assert Join([a, b, c], sep) == a + [sep] + (b + [sep] + c);
  }

  /** `s.split(sep)`: the maximal pieces of `s` free of `sep`, in order, with
      an empty piece wherever `sep` starts or ends `s` or two `sep` meet. */
  function Split(s: string, sep: char): (parts: seq<string>)
    ensures |parts| >= 1
    ensures Join(parts, sep) == s
    ensures forall i :: 0 <= i < |parts| ==> sep !in parts[i]
    decreases |s|
  {
    if s == [] then [""]
    else if s[0] == sep then
      var rest := Split(s[1..], sep);
      assert s == [sep] + s[1..];
      [""] + rest
    else
      var rest := Split(s[1..], sep);
      var parts := [[s[0]] + rest[0]] + rest[1..];
      assert s == [s[0]] + s[1..];
      assert Join(parts, sep) == [s[0]] + Join(rest, sep) by {
        if |rest| > 1 {
          assert parts[1..] == rest[1..];
        }
      }
      parts
  }

  /** A string splits into one more piece than it has separators. */
  lemma {:induction false} SplitCount(s: string, sep: char)
    ensures |Split(s, sep)| == Count(s, sep) + 1
    decreases |s|
  {
    if s != [] {
      SplitCount(s[1..], sep);
    }
  }

  /** Splitting a joined sequence of separator-free pieces gives the pieces
      back. */
  lemma {:induction false} SplitJoin(parts: seq<string>, sep: char)
    requires |parts| >= 1
    requires forall i :: 0 <= i < |parts| ==> sep !in parts[i]
    ensures Split(Join(parts, sep), sep) == parts
    decreases |parts|
  {
    if |parts| == 1 {
      SplitPiece(parts[0], [], sep);
    } else {
      SplitJoin(parts[1..], sep);
      SplitPiece(parts[0], Split(Join(parts[1..], sep), sep), sep);
    }
  }

  /** A separator-free piece in front: alone, or followed by a separator and
      a string that splits into `rest`. */
  lemma {:induction false} SplitPiece(a: string, rest: seq<string>, sep: char)
    requires sep !in a
    requires rest != [] ==> |Split(Join(rest, sep), sep)| >= 1
    ensures rest == [] ==> Split(a, sep) == [a]
    ensures rest != [] && Split(Join(rest, sep), sep) == rest
         ==> Split(a + [sep] + Join(rest, sep), sep) == [a] + rest
    decreases |a|
  {
    if a != [] {
      SplitPiece(a[1..], rest, sep);
      assert a == [a[0]] + a[1..];
      assert a[0] != sep by { assert a[0] in a; }
      var s := a + [sep] + Join(rest, sep);
      assert s[0] == a[0] && s[1..] == a[1..] + [sep] + Join(rest, sep);
    } else {
      assert a + [sep] + Join(rest, sep) == [sep] + Join(rest, sep);
    }
  }
}
