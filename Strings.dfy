/** The Python `str` operations the parser relies on, for the one-character
    patterns it uses: `split`, `join`, `replace`, `''.join`, and the decimal
    conversions `int(s)` and `str(n)`. */
module Strings {
  import opened Wrappers

  /** `s.count(c)`. */
  function Count(s: string, c: char): nat
  {
    if s == [] then 0 else (if s[0] == c then 1 else 0) + Count(s[1..], c)
  }

  lemma {:induction false} CountZero(s: string, c: char)
    ensures Count(s, c) == 0 <==> c !in s
  {
    if s != [] {
      CountZero(s[1..], c);
      assert s == [s[0]] + s[1..];
    }
  }

  // ---------------------------------------------------------------------------
  // str.split and str.join

  /** `s.split(sep)`: the pieces between separators, always at least one, each
      free of `sep`; an empty string gives `[""]`. */
  function Split(s: string, sep: char): (parts: seq<string>)
    ensures |parts| == Count(s, sep) + 1
    ensures forall i :: 0 <= i < |parts| ==> sep !in parts[i]
  {
    if s == [] then [[]]
    else
      var rest := Split(s[1..], sep);
      if s[0] == sep then [[]] + rest
      else [[s[0]] + rest[0]] + rest[1..]
  }

  /** `sep.join(parts)`. */
  function Join(parts: seq<string>, sep: char): string
  {
    if parts == [] then []
    else if |parts| == 1 then parts[0]
    else parts[0] + [sep] + Join(parts[1..], sep)
  }

  /** Joining the pieces of a split with the same separator gives back the string. */
  lemma {:induction false} JoinSplit(s: string, sep: char)
    ensures Join(Split(s, sep), sep) == s
  {
    if s != [] {
      JoinSplit(s[1..], sep);
      var rest := Split(s[1..], sep);
      assert s == [s[0]] + s[1..];
      if s[0] == sep {
        assert Split(s, sep) == [[]] + rest;
        assert ([[]] + rest)[1..] == rest;
      } else {
        var parts := Split(s, sep);
        assert parts == [[s[0]] + rest[0]] + rest[1..];
        if |rest| > 1 {
          assert parts[1..] == rest[1..];
          assert Join(rest, sep) == rest[0] + [sep] + Join(rest[1..], sep);
        }
      }
    }
  }

  lemma {:induction false} SplitNoSeparator(s: string, sep: char)
    requires sep !in s
    ensures Split(s, sep) == [s]
  {
    if s != [] {
      SplitNoSeparator(s[1..], sep);
      assert s == [s[0]] + s[1..];
    }
  }

  /** A leading separator-free piece followed by the separator splits off as one part. */
  lemma {:induction false} SplitAfterPiece(a: string, t: string, sep: char)
    requires sep !in a
    ensures Split(a + [sep] + t, sep) == [a] + Split(t, sep)
  {
    var s := a + [sep] + t;
    if a == [] {
      assert s[1..] == t;
    } else {
      assert s[1..] == a[1..] + [sep] + t;
      SplitAfterPiece(a[1..], t, sep);
      assert [a[0]] + a[1..] == a;
    }
  }

  /** Splitting a join of separator-free pieces gives back the pieces. */
  lemma {:induction false} SplitJoin(parts: seq<string>, sep: char)
    requires |parts| > 0
    requires forall i :: 0 <= i < |parts| ==> sep !in parts[i]
    ensures Split(Join(parts, sep), sep) == parts
  {
    if |parts| == 1 {
      SplitNoSeparator(parts[0], sep);
    } else {
      SplitJoin(parts[1..], sep);
      SplitAfterPiece(parts[0], Join(parts[1..], sep), sep);
      assert [parts[0]] + parts[1..] == parts;
    }
  }

  /** `s.split(sep)[-1]`. */
  function LastPart(s: string, sep: char): string
  {
    var parts := Split(s, sep);
    parts[|parts| - 1]
  }

  /** How `s.split(sep)[-1]` changes when one character is put in front. */
  lemma LastPartCons(x: char, t: string, sep: char)
    ensures LastPart([x] + t, sep) == if x == sep || sep in t then LastPart(t, sep) else [x] + t
  {
    var s := [x] + t;
    assert s[1..] == t;
    var rest := Split(t, sep);
    if x != sep && sep !in t {
      SplitNoSeparator(t, sep);
    } else if x != sep {
      CountZero(t, sep);
      assert Split(s, sep) == [[x] + rest[0]] + rest[1..];
    }
  }

  /** `s.split(sep)[-1]` is the longest separator-free suffix of `s`: it is all
      of `s`, or the character before it is the separator. */
  lemma {:induction false} LastPartIsFinalPiece(s: string, sep: char)
    ensures var r := LastPart(s, sep);
      && sep !in r && |r| <= |s| && s[|s| - |r|..] == r
      && (|r| < |s| ==> s[|s| - |r| - 1] == sep)
  {
    if s != [] {
      var t := s[1..];
      assert s == [s[0]] + t;
      LastPartCons(s[0], t, sep);
      LastPartIsFinalPiece(t, sep);
      var r := LastPart(s, sep);
      if r != s {
        assert r == LastPart(t, sep);
        assert s[|s| - |r|..] == t[|t| - |r|..];
        if |r| < |t| {
          assert s[|s| - |r| - 1] == t[|t| - |r| - 1];
        } else {
          assert r == t;
        }
      }
    }
  }

  /** The piece after the last separator is `s.split(sep)[-1]`. */
  lemma LastPartAfterSeparator(p: string, r: string, sep: char)
    requires sep !in r
    ensures LastPart(p + [sep] + r, sep) == r
  {
    var s := p + [sep] + r;
    var r' := LastPart(s, sep);
    LastPartIsFinalPiece(s, sep);
    assert s[|s| - |r| - 1] == sep;
    assert s[|s| - |r|..] == r;
  }

  // ---------------------------------------------------------------------------
  // ''.join and str.replace

  /** `''.join(parts)`. */
  function Concat(parts: seq<string>): string
  {
    if parts == [] then [] else parts[0] + Concat(parts[1..])
  }

  lemma {:induction false} ConcatAppend(a: seq<string>, b: seq<string>)
    ensures Concat(a + b) == Concat(a) + Concat(b)
  {
    if a == [] {
      assert a + b == b;
    } else {
      var x, y, z := a[0], Concat(a[1..]), Concat(b);
      assert (a + b)[0] == a[0];
      assert (a + b)[1..] == a[1..] + b;
      ConcatAppend(a[1..], b);
      assert Concat(a + b) == x + (y + z);
      assert x + (y + z) == (x + y) + z;
    }
  }

  /** `s.replace(c, r)` for a one-character pattern `c`. */
  function ReplaceChar(s: string, c: char, r: string): string
  {
    if s == [] then [] else (if s[0] == c then r else [s[0]]) + ReplaceChar(s[1..], c, r)
  }

  /** Each occurrence of `c` becomes `r`, everything else is kept in place: the
      replacement of a concatenation is the concatenation of the replacements. */
  lemma {:induction false} ReplaceCharAppend(a: string, b: string, c: char, r: string)
    ensures ReplaceChar(a + b, c, r) == ReplaceChar(a, c, r) + ReplaceChar(b, c, r)
  {
    if a == [] {
      assert a + b == b;
    } else {
      var x := if a[0] == c then r else [a[0]];
      var y, z := ReplaceChar(a[1..], c, r), ReplaceChar(b, c, r);
      assert (a + b)[0] == a[0];
      assert (a + b)[1..] == a[1..] + b;
      ReplaceCharAppend(a[1..], b, c, r);
      assert ReplaceChar(a + b, c, r) == x + (y + z);
      assert x + (y + z) == (x + y) + z;
    }
  }

  /** No `c` survives a replacement whose text has no `c`; the length grows by
      `|r| - 1` per occurrence; a string without `c` is unchanged. */
  lemma {:induction false} ReplaceCharFacts(s: string, c: char, r: string)
    ensures c !in r ==> c !in ReplaceChar(s, c, r)
    ensures |ReplaceChar(s, c, r)| == |s| + Count(s, c) * (|r| - 1)
    ensures c !in s ==> ReplaceChar(s, c, r) == s
  {
    if s != [] {
      ReplaceCharFacts(s[1..], c, r);
      assert s == [s[0]] + s[1..];
      var k := Count(s[1..], c);
      if s[0] == c {
        assert (k + 1) * (|r| - 1) == k * (|r| - 1) + (|r| - 1);
      }
    }
  }

  // ---------------------------------------------------------------------------
  // int(s) and str(n) on decimal digit strings

  predicate IsDigit(ch: char)
  {
    '0' <= ch <= '9'
  }

  predicate AllDigits(s: string)
  {
    forall i :: 0 <= i < |s| ==> IsDigit(s[i])
  }

  /** What `int` accepts here: one or more decimal digits, zero padding allowed. */
  predicate IsDecimal(s: string)
  {
    |s| > 0 && AllDigits(s)
  }

  function DigitValue(ch: char): nat
    requires IsDigit(ch)
  {
    ch as int - '0' as int
  }

  function DigitChar(d: nat): char
    requires d < 10
  {
    ('0' as int + d) as char
  }

  /** The number a digit string denotes, most significant digit first. */
  function DigitsValue(s: string): nat
    requires AllDigits(s)
  {
    if s == [] then 0 else DigitsValue(s[..|s| - 1]) * 10 + DigitValue(s[|s| - 1])
  }

  /** `int(s)`; `None` where `int` raises ValueError. */
  function ParseDecimal(s: string): Option<nat>
  {
    if IsDecimal(s) then Some(DigitsValue(s)) else None
  }

  /** `str(n)`: the canonical decimal digits of `n`. */
  function NatToDecimal(n: nat): (s: string)
    ensures IsDecimal(s)
    ensures s[0] == '0' ==> n == 0
  {
    if n < 10 then [DigitChar(n)] else NatToDecimal(n / 10) + [DigitChar(n % 10)]
  }

  /** `int(str(n)) == n`. */
  lemma {:induction false} DecimalRoundTrip(n: nat)
    ensures ParseDecimal(NatToDecimal(n)) == Some(n)
  {
    var s := NatToDecimal(n);
    if n < 10 {
      assert s[..0] == [] && DigitValue(s[0]) == n;
      assert DigitsValue(s) == DigitsValue(s[..0]) * 10 + DigitValue(s[0]);
    } else {
      DecimalRoundTrip(n / 10);
      assert s[..|s| - 1] == NatToDecimal(n / 10);
    }
  }

  lemma {:induction false} DigitsValuePositive(s: string)
    requires IsDecimal(s) && s[0] != '0'
    ensures DigitsValue(s) >= 1
  {
    if |s| > 1 {
      DigitsValuePositive(s[..|s| - 1]);
    }
  }

  /** `str(int(s)) == s` for a digit string without leading zeros. */
  lemma {:induction false} DecimalCanonical(s: string)
    requires IsDecimal(s) && (s[0] != '0' || |s| == 1)
    ensures NatToDecimal(DigitsValue(s)) == s
  {
    if |s| > 1 {
      var t := s[..|s| - 1];
      DecimalCanonical(t);
      DigitsValuePositive(t);
      var v := DigitsValue(s);
      assert v / 10 == DigitsValue(t) && v % 10 == DigitValue(s[|s| - 1]);
      assert s == t + [s[|s| - 1]];
    }
  }

  /** `k` zero digits. */
  function Zeros(k: nat): (z: string)
    ensures |z| == k && AllDigits(z)
  {
    seq(k, _ => '0')
  }

  lemma {:induction false} ZerosValue(k: nat)
    ensures DigitsValue(Zeros(k)) == 0
  {
    if k > 0 {
      ZerosValue(k - 1);
      assert Zeros(k)[..k - 1] == Zeros(k - 1);
    }
  }

  /** Leading zeros do not change the number a digit string denotes. */
  lemma {:induction false} LeadingZerosIgnored(k: nat, s: string)
    requires AllDigits(s)
    ensures AllDigits(Zeros(k) + s)
    ensures DigitsValue(Zeros(k) + s) == DigitsValue(s)
  {
    var z := Zeros(k) + s;
    assert AllDigits(z) by {
      forall i | 0 <= i < |z| ensures IsDigit(z[i]) {
        if i >= k { assert z[i] == s[i - k]; }
      }
    }
    if s == [] {
      assert z == Zeros(k);
      ZerosValue(k);
    } else {
      LeadingZerosIgnored(k, s[..|s| - 1]);
      assert z[..|z| - 1] == Zeros(k) + s[..|s| - 1];
    }
  }

  /** `'%0*d' % (width, n)`: `n` in decimal, padded on the left with zeros to `width`. */
  function ZeroPad(n: nat, width: nat): string
  {
    if width <= |NatToDecimal(n)| then NatToDecimal(n) else ['0'] + ZeroPad(n, width - 1)
  }

  /** The padding is the zeros that make up the missing width. */
  lemma {:induction false} ZeroPadIsZerosThenDigits(n: nat, width: nat)
    ensures var digits := NatToDecimal(n);
      ZeroPad(n, width) == if |digits| < width then Zeros(width - |digits|) + digits else digits
  {
    var digits := NatToDecimal(n);
    if |digits| < width {
      ZeroPadIsZerosThenDigits(n, width - 1);
      if |digits| < width - 1 {
        assert ['0'] + Zeros(width - 1 - |digits|) == Zeros(width - |digits|);
      } else {
        assert ['0'] == Zeros(1);
      }
    }
  }

  function Pow10(k: nat): nat
  {
    if k == 0 then 1 else 10 * Pow10(k - 1)
  }

  lemma {:induction false} DecimalLength(n: nat, width: nat)
    requires 0 < width && n < Pow10(width)
    ensures |NatToDecimal(n)| <= width
  {
    if n >= 10 {
      assert width > 1;
      DecimalLength(n / 10, width - 1);
    }
  }

  /** A zero-padded number reads back as the number, and is exactly `width`
      characters long when the number fits. */
  lemma ZeroPadReadsBack(n: nat, width: nat)
    requires 0 < width && n < Pow10(width)
    ensures |ZeroPad(n, width)| == width
    ensures ParseDecimal(ZeroPad(n, width)) == Some(n)
  {
    DecimalLength(n, width);
    DecimalRoundTrip(n);
    ZeroPadIsZerosThenDigits(n, width);
    var digits := NatToDecimal(n);
    if |digits| < width {
      LeadingZerosIgnored(width - |digits|, digits);
    }
  }
}
