/**
 * The few Python string conversions the blog relies on, restricted to what it
 * uses them for: `str(n)` and `int(s)` on non-negative decimal numbers,
 * `format(n, '02d')`, and `s.split(c)` with a one-character separator.
 */
module Text {

  predicate IsDigit(c: char) { '0' <= c <= '9' }

  predicate IsDigits(s: string) { forall i :: 0 <= i < |s| ==> IsDigit(s[i]) }

  function DigitChar(d: nat): (c: char)
    requires d < 10
    ensures IsDigit(c)
  {
    ('0' as int + d) as char
  }

  function DigitValue(c: char): (d: nat)
    requires IsDigit(c)
    ensures d < 10
  {
    c as int - '0' as int
  }

  function Pow10(k: nat): (p: nat)
    ensures p >= 1
  {
    if k == 0 then 1 else 10 * Pow10(k - 1)
  }

  /** `str(n)`: the decimal digits of `n`, with no leading zero. */
  function Str(n: nat): (s: string)
    ensures 1 <= |s| && IsDigits(s)
    ensures s[0] == '0' <==> n == 0
  {
    if n < 10 then [DigitChar(n)] else Str(n / 10) + [DigitChar(n % 10)]
  }

  /** `int(s)` on a non-empty string of decimal digits; leading zeros are allowed. */
  function Int(s: string): (n: nat)
    requires 1 <= |s| && IsDigits(s)
    ensures n < Pow10(|s|)
  {
    if |s| == 1 then DigitValue(s[0])
    else
      var high := Int(s[..|s| - 1]);
      assert high * 10 <= (Pow10(|s| - 1) - 1) * 10;
      high * 10 + DigitValue(s[|s| - 1])
  }

  /** `format(n, '02d')`: the decimal digits of `n`, zero-padded on the left to at least two. */
  function ZeroPad2(n: nat): (s: string)
    ensures IsDigits(s)
  {
    if n < 10 then "0" + Str(n) else Str(n)
  }

  /** `sep.join(parts)`, the inverse of `Split`. */
  function Join(parts: seq<string>, sep: char): string
    requires |parts| >= 1
  {
    if |parts| == 1 then parts[0] else parts[0] + [sep] + Join(parts[1..], sep)
  }

  /** `s.split(sep)` for a one-character separator: the maximal runs between separators. */
  function Split(s: string, sep: char): (parts: seq<string>)
    ensures |parts| >= 1
    ensures forall i :: 0 <= i < |parts| ==> sep !in parts[i]
    ensures Join(parts, sep) == s
    ensures |parts| == 1 <==> sep !in s
  {
    if s == [] then [""]
    else
      var rest := Split(s[1..], sep);
      if s[0] == sep then
        assert ([""] + rest)[1..] == rest;
        [""] + rest
      else
        var parts := [[s[0]] + rest[0]] + rest[1..];
        assert parts[1..] == rest[1..];
        assert s == [s[0]] + s[1..];
        parts
  }

  // ---------------------------------------------------------------------------
  // Lemmas

  lemma {:induction false} Pow10Mono(a: nat, b: nat)
    requires a <= b
    ensures Pow10(a) <= Pow10(b)
    decreases b
  {
    if a < b { Pow10Mono(a, b - 1); }
  }

  /** Reading a concatenation: the left part shifted by the width of the right one. */
  lemma {:induction false} IntConcat(a: string, b: string)
    requires 1 <= |a| && IsDigits(a) && 1 <= |b| && IsDigits(b)
    ensures IsDigits(a + b)
    ensures Int(a + b) == Int(a) * Pow10(|b|) + Int(b)
    decreases |b|
  {
    var s := a + b;
    assert s[..|s| - 1] == a + b[..|b| - 1];
    if |b| == 1 {
      assert s[..|s| - 1] == a;
    } else {
      var b' := b[..|b| - 1];
      var d := DigitValue(b[|b| - 1]);
      IntConcat(a, b');
      assert Int(s) == Int(a + b') * 10 + d;
      assert Int(b) == Int(b') * 10 + d;
      assert Pow10(|b|) == 10 * Pow10(|b'|);
      ShiftByDigit(Int(a), Pow10(|b'|), Int(b'), d);
    }
  }

  lemma ShiftByDigit(x: nat, p: nat, y: nat, d: nat)
    ensures (x * p + y) * 10 + d == x * (10 * p) + (y * 10 + d)
  {
  }

  /** `int(str(n)) == n`. */
  lemma {:induction false} IntStr(n: nat)
    ensures Int(Str(n)) == n
  {
    if n >= 10 {
      var s := Str(n);
      assert s[..|s| - 1] == Str(n / 10);
      IntStr(n / 10);
    }
  }

  /** `int(format(n, '02d')) == n`, and the width is two until `n` reaches 100. */
  lemma ZeroPad2Value(n: nat)
    ensures |ZeroPad2(n)| >= 2 && Int(ZeroPad2(n)) == n
    ensures |ZeroPad2(n)| == (if n < 100 then 2 else |Str(n)|)
  {
    IntStr(n);
    if n < 10 {
      IntConcat("0", Str(n));
    } else if n < 100 {
      assert Str(n) == Str(n / 10) + [DigitChar(n % 10)];
    } else {
      StrLengthMono(100, n);
      assert Str(10) == Str(1) + "0";
      assert Str(100) == Str(10) + "0";
    }
  }

  lemma {:induction false} StrLengthMono(a: nat, b: nat)
    requires a <= b
    ensures |Str(a)| <= |Str(b)|
    decreases b
  {
    if a >= 10 { StrLengthMono(a / 10, b / 10); }
  }

  lemma ZeroPad2LengthMono(a: nat, b: nat)
    requires a <= b
    ensures |ZeroPad2(a)| <= |ZeroPad2(b)|
  {
    ZeroPad2Value(a);
    ZeroPad2Value(b);
    StrLengthMono(a, b);
  }

  /** A number of four digits: `str(y)` has length four exactly when 1000 <= y <= 9999. */
  lemma StrFourDigits(y: nat)
    requires 1000 <= y <= 9999
    ensures |Str(y)| == 4
  {
    var a, b, c := y / 10, y / 10 / 10, y / 10 / 10 / 10;
    assert Str(y) == Str(a) + [DigitChar(y % 10)];
    assert Str(a) == Str(b) + [DigitChar(a % 10)];
    assert Str(b) == Str(c) + [DigitChar(b % 10)];
  }

  /** Dropping the first two digits of a four-digit number leaves it modulo 100. */
  lemma {:induction false} LastTwoDigits(y: nat)
    requires 1000 <= y <= 9999
    ensures |Str(y)| == 4 && Int(Str(y)[2..]) == y % 100
  {
    var s := Str(y);
    StrFourDigits(y);
    assert s == s[..2] + s[2..];
    IntConcat(s[..2], s[2..]);
    IntStr(y);
    assert Pow10(2) == 100;
    DivMod100(y, Int(s[..2]), Int(s[2..]));
  }

  /** Quotient and remainder by 100 are determined. */
  lemma DivMod100(n: nat, q: nat, r: nat)
    requires n == q * 100 + r && r < 100
    ensures n / 100 == q && n % 100 == r
  {
  }

  /**
   * A decimal number followed by text that starts with a non-digit determines
   * both the number and the text.
   */
  lemma StrThenNonDigit(a: nat, x: string, b: nat, y: string)
    requires |x| >= 1 && !IsDigit(x[0]) && |y| >= 1 && !IsDigit(y[0])
    requires Str(a) + x == Str(b) + y
    ensures a == b && x == y
  {
    var sa, sb := Str(a), Str(b);
    DigitRunBeforeNonDigit(sa, x);
    DigitRunBeforeNonDigit(sb, y);
    assert sa == (sa + x)[..|sa|] == (sb + y)[..|sb|] == sb;
    assert x == (sa + x)[|sa|..] == (sb + y)[|sb|..] == y;
    IntStr(a);
    IntStr(b);
  }

  /** The length of the run of digits `s` starts with. */
  function DigitRun(s: string): nat
  {
    if s == [] || !IsDigit(s[0]) then 0 else 1 + DigitRun(s[1..])
  }

  lemma {:induction false} DigitRunBeforeNonDigit(digits: string, x: string)
    requires IsDigits(digits) && |x| >= 1 && !IsDigit(x[0])
    ensures DigitRun(digits + x) == |digits|
    decreases |digits|
  {
    if digits != [] {
      assert (digits + x)[1..] == digits[1..] + x;
      DigitRunBeforeNonDigit(digits[1..], x);
    } else {
      assert digits + x == x;
    }
  }

  /** Splitting where the first separator comes right after `head`. */
  lemma {:induction false} SplitAfterHead(head: string, tail: string, sep: char)
    requires sep !in head && |tail| >= 1 && tail[0] == sep
    ensures Split(head + tail, sep) == [head] + Split(tail[1..], sep)
    decreases |head|
  {
    if head != [] {
      var s := head + tail;
      assert s[1..] == head[1..] + tail;
      SplitAfterHead(head[1..], tail, sep);
      assert [head[0]] + head[1..] == head;
    } else {
      assert head + tail == tail;
    }
  }

  /** The first piece of a split is the text before the first separator. */
  lemma {:induction false} SplitFirst(head: string, rest: string, sep: char)
    requires sep !in head && (rest == [] || rest[0] == sep)
    ensures Split(head + rest, sep)[0] == head
  {
    if rest == [] {
      assert head + rest == head;
      var parts := Split(head, sep);
      assert |parts| == 1;
      assert Join(parts, sep) == parts[0];
    } else {
      SplitAfterHead(head, rest, sep);
    }
  }

  /** A string of digits holds no separator that is not a digit. */
  lemma NoSeparatorInDigits(s: string, sep: char)
    requires IsDigits(s) && !IsDigit(sep)
    ensures sep !in s
  {
    forall i | 0 <= i < |s| ensures s[i] != sep {
      assert IsDigit(s[i]);
    }
  }

  /** A string without the separator splits into itself alone. */
  lemma SplitWithoutSeparator(s: string, sep: char)
    requires sep !in s
    ensures Split(s, sep) == [s]
  {
    var parts := Split(s, sep);
    assert Join(parts, sep) == parts[0];
  }

  /** Three numbers joined by a non-digit split back into their decimal forms. */
  lemma {:induction false} SplitThreeNumbers(a: nat, b: nat, c: nat, sep: char)
    requires !IsDigit(sep)
    ensures Split(Str(a) + [sep] + Str(b) + [sep] + Str(c), sep) == [Str(a), Str(b), Str(c)]
  {
    var x, y, z := Str(a), Str(b), Str(c);
    NoSeparatorInDigits(x, sep);
    NoSeparatorInDigits(y, sep);
    NoSeparatorInDigits(z, sep);
    assert x + [sep] + y + [sep] + z == x + [sep] + (y + [sep] + z);
    SplitAfterSeparator(x, y + [sep] + z, sep);
    SplitAfterSeparator(y, z, sep);
    SplitWithoutSeparator(z, sep);
  }

  /** Splitting at a separator that follows `stem` directly. */
  lemma {:induction false} SplitAfterSeparator(stem: string, after: string, sep: char)
    requires sep !in stem
    ensures Split(stem + [sep] + after, sep) == [stem] + Split(after, sep)
  {
    var tail := [sep] + after;
    assert stem + [sep] + after == stem + tail;
    assert tail[1..] == after;
    SplitAfterHead(stem, tail, sep);
  }

  /** The second piece of a split is the text between the first and the second separator. */
  lemma {:induction false} SplitSecond(stem: string, middle: string, rest: string, sep: char)
    requires sep !in stem && sep !in middle && (rest == [] || rest[0] == sep)
    ensures |Split(stem + [sep] + middle + rest, sep)| >= 2
    ensures Split(stem + [sep] + middle + rest, sep)[1] == middle
  {
    assert stem + [sep] + middle + rest == stem + [sep] + (middle + rest);
    SplitAfterSeparator(stem, middle + rest, sep);
    SplitFirst(middle, rest, sep);
  }
}
