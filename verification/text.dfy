/**
 * The pieces of Python's `str` behaviour that the image augmenter relies on:
 * `count`, `split`/`join` on a one-character separator, ASCII `lower`,
 * `rfind`, slicing with Python's index normalisation, and decimal formatting
 * with zero padding (`f'{i:03}'`).
 */
module Text {
  import opened Seqs

  /** Number of occurrences of `c` in `s` (Python `s.count(c)`). */
  function Count(s: string, c: char): (n: nat)
    ensures n <= |s|
    ensures n == 0 <==> c !in s
    decreases |s|
  {
    if |s| == 0 then 0
    else
      var rest := Count(s[1..], c);
      assert c in s <==> s[0] == c || c in s[1..];
      (if s[0] == c then 1 else 0) + rest
  }

  lemma {:induction false} CountAppend(a: string, b: string, c: char)
    ensures Count(a + b, c) == Count(a, c) + Count(b, c)
    decreases |a|
  {
    if |a| == 0 {
      assert a + b == b;
    } else {
      assert (a + b)[1..] == a[1..] + b;
      CountAppend(a[1..], b, c);
    }
  }

  /**
   * Python `s.split(sep)` for a one-character separator: the pieces between
   * consecutive occurrences of `sep`, empty pieces included.
   */
  function Split(s: string, sep: char): (parts: seq<string>)
    ensures |parts| == Count(s, sep) + 1
    ensures forall i :: 0 <= i < |parts| ==> sep !in parts[i]
    decreases |s|
  {
    if |s| == 0 then [[]]
    else
      var rest := Split(s[1..], sep);
      if s[0] == sep then [[]] + rest
      else [[s[0]] + rest[0]] + rest[1..]
  }

  /** Python `sep.join(parts)`. */
  function Join(parts: seq<string>, sep: char): string
    requires |parts| > 0
  {
    if |parts| == 1 then parts[0] else parts[0] + [sep] + Join(parts[1..], sep)
  }

  /** Extending the first piece extends the joined text at the front. */
  lemma JoinExtendFirst(x: char, parts: seq<string>, sep: char)
    requires |parts| > 0
    ensures Join([[x] + parts[0]] + parts[1..], sep) == [x] + Join(parts, sep)
  {
    var q := [[x] + parts[0]] + parts[1..];
    if |parts| > 1 {
      assert q[1..] == parts[1..];
    }
  }

  /** Splitting and joining again on the same separator gives back the text. */
  lemma {:induction false} JoinSplit(s: string, sep: char)
    ensures Join(Split(s, sep), sep) == s
    decreases |s|
  {
    if |s| > 0 {
      JoinSplit(s[1..], sep);
      var rest := Split(s[1..], sep);
      if s[0] != sep {
        JoinExtendFirst(s[0], rest, sep);
      } else {
        assert ([[]] + rest)[1..] == rest;
      }
      assert s == [s[0]] + s[1..];
    }
  }

  /** Text with exactly one separator is its two pieces around it. */
  lemma SplitInTwo(s: string, sep: char)
    requires |Split(s, sep)| == 2
    ensures var parts := Split(s, sep);
            && s == parts[0] + [sep] + parts[1]
            && |parts[0]| < |s| && s[..|parts[0]|] == parts[0] && s[|parts[0]|] == sep
  {
    var parts := Split(s, sep);
    JoinSplit(s, sep);
    assert parts[1..] == [parts[1]];
    assert Join(parts, sep) == parts[0] + [sep] + Join([parts[1]], sep);
  }

  /** A piece free of the separator splits to itself. */
  lemma {:induction false} SplitNoSeparator(a: string, sep: char)
    requires sep !in a
    ensures Split(a, sep) == [a]
    decreases |a|
  {
    if |a| > 0 {
      SplitNoSeparator(a[1..], sep);
      assert [a[0]] + a[1..] == a;
    }
  }

  /** The first piece ends at the first occurrence of the separator. */
  lemma {:induction false} SplitCons(a: string, sep: char, b: string)
    requires sep !in a
    ensures Split(a + [sep] + b, sep) == [a] + Split(b, sep)
    decreases |a|
  {
    if |a| == 0 {
      assert a + [sep] + b == [sep] + b;
      assert ([sep] + b)[1..] == b;
    } else {
      var s := a + [sep] + b;
      assert s[0] == a[0] && s[0] != sep;
      assert s[1..] == a[1..] + [sep] + b;
      SplitCons(a[1..], sep, b);
      var rest := Split(s[1..], sep);
      assert rest[0] == a[1..] && rest[1..] == Split(b, sep);
      assert [s[0]] + rest[0] == a;
    }
  }

  /** Joining separator-free pieces and splitting again gives back the pieces. */
  lemma {:induction false} SplitJoin(parts: seq<string>, sep: char)
    requires |parts| > 0
    requires forall i :: 0 <= i < |parts| ==> sep !in parts[i]
    ensures Split(Join(parts, sep), sep) == parts
    decreases |parts|
  {
    if |parts| == 1 {
      SplitNoSeparator(parts[0], sep);
    } else {
      SplitJoin(parts[1..], sep);
      SplitCons(parts[0], sep, Join(parts[1..], sep));
    }
  }

  /** The pieces together hold every character except the separators. */
  lemma {:induction false} SplitConcatLength(s: string, sep: char)
    ensures |Concat(Split(s, sep))| == |s| - Count(s, sep)
    decreases |s|
  {
    if |s| > 0 {
      SplitConcatLength(s[1..], sep);
      var rest := Split(s[1..], sep);
      var parts := Split(s, sep);
      if s[0] == sep {
        assert parts[1..] == rest;
      } else {
        assert parts[1..] == rest[1..];
        assert Concat(rest) == rest[0] + Concat(rest[1..]);
      }
    }
  }

  /** Python `str.lower` restricted to ASCII letters. */
  function LowerChar(c: char): char
  {
    if 'A' <= c <= 'Z' then (c as int + 32) as char else c
  }

  function Lower(s: string): string
  {
    seq(|s|, i requires 0 <= i < |s| => LowerChar(s[i]))
  }

  lemma LowerTwice(s: string)
    ensures Lower(Lower(s)) == Lower(s)
  {
  }

  /** Python `s.rfind(c)`: the last index holding `c`, or -1. */
  function RFind(s: string, c: char): (r: int)
    ensures -1 <= r < |s|
    ensures r >= 0 ==> s[r] == c && c !in s[r + 1..]
    ensures r == -1 <==> c !in s
    decreases |s|
  {
    if |s| == 0 then -1
    else if s[|s| - 1] == c then |s| - 1
    else
      var init := s[..|s| - 1];
      var r := RFind(init, c);
      assert s == init + [s[|s| - 1]];
      assert c in s <==> c in init || c == s[|s| - 1];
      assert r >= 0 ==> s[r] == init[r] && s[r + 1..] == init[r + 1..] + [s[|s| - 1]];
      r
  }

  /** Python's clamping of a slice bound against a length `n`. */
  function SliceIndex(i: int, n: nat): (k: nat)
    ensures k <= n
  {
    if i < 0 then (if i + n < 0 then 0 else i + n)
    else if i > n then n
    else i
  }

  /** Python `s[start:stop]`, negative bounds counting from the end. */
  function Slice<T>(s: seq<T>, start: int, stop: int): (r: seq<T>)
    ensures 0 <= start <= stop <= |s| ==> r == s[start..stop]
    ensures 0 <= start <= stop ==>
              r == s[(if start < |s| then start else |s|)..(if stop < |s| then stop else |s|)]
  {
    var lo := SliceIndex(start, |s|);
    var hi := SliceIndex(stop, |s|);
    if hi <= lo then [] else s[lo..hi]
  }

  predicate IsDigit(c: char)
  {
    '0' <= c <= '9'
  }

  predicate AllDigits(s: string)
  {
    forall i :: 0 <= i < |s| ==> IsDigit(s[i])
  }

  function DigitChar(d: nat): (c: char)
    requires d < 10
    ensures IsDigit(c)
  {
    (d + '0' as int) as char
  }

  function DigitValue(c: char): (d: nat)
    requires IsDigit(c)
    ensures d < 10
  {
    c as int - '0' as int
  }

  /** The decimal representation of `n`, without sign or leading zeros (Python `str(n)`). */
  function Decimal(n: nat): (s: string)
    ensures 0 < |s|
    ensures AllDigits(s)
    decreases n
  {
    if n < 10 then [DigitChar(n)] else Decimal(n / 10) + [DigitChar(n % 10)]
  }

  /** The number a string of decimal digits denotes (Python `int(s)`, empty string read as 0). */
  function ParseDecimal(s: string): nat
    requires AllDigits(s)
    decreases |s|
  {
    if |s| == 0 then 0 else ParseDecimal(s[..|s| - 1]) * 10 + DigitValue(s[|s| - 1])
  }

  lemma {:induction false} ParseDecimalOfDecimal(n: nat)
    ensures ParseDecimal(Decimal(n)) == n
    decreases n
  {
    if n >= 10 {
      ParseDecimalOfDecimal(n / 10);
      var s := Decimal(n);
      assert s[..|s| - 1] == Decimal(n / 10);
    }
  }

  function Zeros(k: nat): (z: string)
    ensures |z| == k
    ensures AllDigits(z)
  {
    seq(k, i => '0')
  }

  lemma {:induction false} ParseLeadingZeros(k: nat, s: string)
    requires AllDigits(s)
    ensures ParseDecimal(Zeros(k) + s) == ParseDecimal(s)
    decreases |s|
  {
    if |s| == 0 {
      assert Zeros(k) + s == Zeros(k);
      ParseZeros(k);
    } else {
      var t := Zeros(k) + s;
      assert t[..|t| - 1] == Zeros(k) + s[..|s| - 1];
      ParseLeadingZeros(k, s[..|s| - 1]);
    }
  }

  lemma {:induction false} ParseZeros(k: nat)
    ensures ParseDecimal(Zeros(k)) == 0
    decreases k
  {
    if k > 0 {
      assert Zeros(k)[..k - 1] == Zeros(k - 1);
      ParseZeros(k - 1);
    }
  }

  /**
   * Python `f'{n:0{width}}'` for a non-negative integer: the decimal digits of
   * `n`, left-padded with zeros up to `width` characters.
   */
  function ZeroPad(n: nat, width: nat): (s: string)
    ensures |s| == if width > |Decimal(n)| then width else |Decimal(n)|
    ensures AllDigits(s)
    ensures ParseDecimal(s) == n
  {
    var d := Decimal(n);
    var z := if width > |d| then Zeros(width - |d|) else [];
    ParseDecimalOfDecimal(n);
    ParseLeadingZeros(|z|, d);
    assert Zeros(|z|) == z;
    z + d
  }

  /** Zero padding keeps distinct indices distinct. */
  lemma ZeroPadInjective(i: nat, j: nat, width: nat)
    requires ZeroPad(i, width) == ZeroPad(j, width)
    ensures i == j
  {
  }
}
