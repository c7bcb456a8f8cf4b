/** What the two printf engines (rlibc/stdio/vdprintf.c, kernel/lib/vsprintf.c) print: the text of a converted number
    and the meaning of a whole format string. */
module PrintfSpec {

  import opened Layout

  type int32 = x: int | -INT32 <= x < INT32

  /** The flag bits FL_SIGN .. FL_SMALL. */
  datatype Flags = Flags(sign: bool, left: bool, plus: bool, space: bool, special: bool, zero: bool, small: bool)

  const NO_FLAGS := Flags(false, false, false, false, false, false, false)

  function Max(a: int, b: int): int { if a < b then b else a }

  function Abs(a: int): int { if a < 0 then -a else a }

  /** n times c, nothing when n is negative. */
  function Rep(c: char, n: int): (s: string)
    ensures |s| == Max(n, 0) && forall k :: 0 <= k < |s| ==> s[k] == c
  {
    seq(Max(n, 0), _ => c)
  }

  // ---------------------------------------------------------------- numbers

  function Magnitude(number: int, sign: bool): nat { if sign && number < 0 then -number else number % WORD }

  /** Entry d of the digit table. */
  function Digit(d: int, small: bool): char
    requires 0 <= d < 36
  {
    if d < 10 then '0' + d as char else if small then 'a' + (d - 10) as char else 'A' + (d - 10) as char
  }

  function Digits(num: nat, base: int, small: bool): (s: string)
    requires 2 <= base <= 36
    ensures s != []
    decreases num
  {
    if num < base then [Digit(num, small)] else Digits(num / base, base, small) + [Digit(num % base, small)]
  }

  function SignText(number: int, f: Flags): string {
    if f.sign && number < 0 then "-" else if f.plus then "+" else if f.space then " " else ""
  }

  function Prefix(base: int, f: Flags): string {
    if !f.special then "" else if base == 8 then "0" else if base == 16 then ['0', Digit(33, f.small)] else ""
  }

  /** Digits, at least prec of them. */
  function Figures(number: int, base: int, prec: int, f: Flags): string
    requires 2 <= base <= 36
  {
    var ds := Digits(Magnitude(number, f.sign), base, f.small);
    Rep('0', prec - |ds|) + ds
  }

  /** The converted number: padded on the right, between prefix and figures, or on the left. */
  function NumText(number: int, base: int, width: int, prec: int, f: Flags): string
    requires 2 <= base <= 36
  {
    var lead, figs := SignText(number, f) + Prefix(base, f), Figures(number, base, prec, f);
    var pad := Abs(width) - |lead| - |figs|;
    if f.left then lead + figs + Rep(' ', pad)
    else if f.zero then lead + Rep('0', pad) + figs
    else Rep(' ', pad) + lead + figs
  }

  /** The field is as wide as asked for, or as wide as the number needs. */
  lemma NumTextLength(number: int, base: int, width: int, prec: int, f: Flags)
    requires 2 <= base <= 36
    ensures |NumText(number, base, width, prec, f)| ==
            Max(Abs(width), |SignText(number, f)| + |Prefix(base, f)| + Max(prec, |Digits(Magnitude(number, f.sign), base, f.small)|))
  {
  }

  function Power(base: int, n: nat): int { if n == 0 then 1 else base * Power(base, n - 1) }

  /** A number below base^n has at most n digits; 32 bits need at most 32 of the 36 places there are. */
  lemma {:induction false} DigitsFew(num: nat, base: int, small: bool, n: nat)
    requires 2 <= base <= 36 && n >= 1 && num < Power(2, n)
    ensures |Digits(num, base, small)| <= n
    decreases n
  {
    if num >= base {
      assert Power(2, 1) == 2 * Power(2, 0);
      HalfLess(num, base);
      DigitsFew(num / base, base, small, n - 1);
    }
  }

  lemma HalfLess(num: nat, base: int)
    requires 2 <= base
    ensures num / base <= num / 2
  {
    var q := num / base;
    assert 2 * q <= base * q <= num;
  }

  lemma ScratchEnough(number: int32, base: int, f: Flags)
    requires 2 <= base <= 36
    ensures |Digits(Magnitude(number, f.sign), base, f.small)| <= 32
  {
    assert Power(2, 4) == 16 && Power(2, 8) == 256;
    PowerSplit(2, 8, 8);
    PowerSplit(2, 16, 16);
    DigitsFew(Magnitude(number, f.sign), base, f.small, 32);
  }

  lemma {:induction false} PowerSplit(base: int, m: nat, n: nat)
    ensures Power(base, m + n) == Power(base, m) * Power(base, n)
    decreases m
  {
    if m > 0 {
      PowerSplit(base, m - 1, n);
      assert base * (Power(base, m - 1) * Power(base, n)) == base * Power(base, m - 1) * Power(base, n);
    }
  }

  // ---------------------------------------------------------------- reading a number back

  /** The value of a digit in either case, 36 for any other character. */
  function DigitValue(c: char): (d: int)
    ensures 0 <= d <= 36
  {
    if '0' <= c <= '9' then (c - '0') as int
    else if 'a' <= c <= 'z' then (c - 'a') as int + 10
    else if 'A' <= c <= 'Z' then (c - 'A') as int + 10
    else 36
  }

  /** Digits up to the first character that is none. */
  function ReadDigits(s: string, base: int, acc: int): int
    decreases |s|
  {
    if s == [] || DigitValue(s[0]) >= base then acc
    else ReadDigits(s[1..], base, acc * base + DigitValue(s[0]))
  }

  function Drop(s: string, n: nat): string { if n <= |s| then s[n..] else [] }

  /** Blanks, an optional sign, a prefix of the given length, digits. */
  function Read(s: string, base: int, prefix: nat): int
    decreases |s|
  {
    if s == [] then 0
    else if s[0] == ' ' then Read(s[1..], base, prefix)
    else if s[0] == '-' then -ReadDigits(Drop(s, 1 + prefix), base, 0)
    else if s[0] == '+' then ReadDigits(Drop(s, 1 + prefix), base, 0)
    else ReadDigits(Drop(s, prefix), base, 0)
  }

  lemma DigitRead(d: int, small: bool)
    requires 0 <= d < 36
    ensures DigitValue(Digit(d, small)) == d && Digit(d, small) !in " +-"
  {
  }

  lemma Division(num: nat, base: int)
    requires 2 <= base
    ensures num == num / base * base + num % base && 0 <= num % base < base
    ensures if num < base then num % base == num && num / base == 0 else num / base < num
  {
    HalfLess(num, base);
    if num < base {
      assert num / base == 0;
    }
  }

  lemma {:induction false} ReadsDigits(num: nat, base: int, small: bool, t: string)
    requires 2 <= base <= 36
    ensures ReadDigits(Digits(num, base, small) + t, base, 0) == ReadDigits(t, base, num)
    decreases num
  {
    Division(num, base);
    var d := num % base;
    DigitRead(d, small);
    var last := [Digit(d, small)] + t;
    assert last[1..] == t;
    if num < base {
      assert Digits(num, base, small) + t == last;
      assert ReadDigits(last, base, 0) == ReadDigits(t, base, 0 * base + d);
    } else {
      assert Digits(num, base, small) + t == Digits(num / base, base, small) + last;
      ReadsDigits(num / base, base, small, last);
      assert ReadDigits(last, base, num / base) == ReadDigits(t, base, num / base * base + d);
    }
  }

  lemma {:induction false} ReadsZeros(n: int, base: int, t: string)
    requires 2 <= base <= 36
    ensures ReadDigits(Rep('0', n) + t, base, 0) == ReadDigits(t, base, 0)
    decreases Max(n, 0)
  {
    if n <= 0 {
      assert Rep('0', n) + t == t;
    } else {
      var s := Rep('0', n) + t;
      assert s[0] == '0' && s[1..] == Rep('0', n - 1) + t;
      ReadsZeros(n - 1, base, t);
      assert 0 * base + 0 == 0;
    }
  }

  lemma {:induction false} ReadsBlanks(n: int, base: int, prefix: nat, t: string)
    ensures Read(Rep(' ', n) + t, base, prefix) == Read(t, base, prefix)
    decreases Max(n, 0)
  {
    if n <= 0 {
      assert Rep(' ', n) + t == t;
    } else {
      var s := Rep(' ', n) + t;
      assert s[0] == ' ' && s[1..] == Rep(' ', n - 1) + t;
      ReadsBlanks(n - 1, base, prefix, t);
    }
  }

  /** Figures, with more zeros before and blanks after. */
  function Padded(number: int, base: int, prec: int, f: Flags, zeros: int, blanks: int): string
    requires 2 <= base <= 36
  {
    Rep('0', zeros) + Figures(number, base, prec, f) + Rep(' ', blanks)
  }

  lemma ReadsPadded(number: int, base: int, prec: int, f: Flags, zeros: int, blanks: int)
    requires 2 <= base <= 36
    ensures ReadDigits(Padded(number, base, prec, f, zeros, blanks), base, 0) == Magnitude(number, f.sign)
  {
    var num := Magnitude(number, f.sign);
    var ds, end := Digits(num, base, f.small), Rep(' ', blanks);
    assert Padded(number, base, prec, f, zeros, blanks) == Rep('0', zeros) + (Rep('0', prec - |ds|) + (ds + end));
    ReadsZeros(zeros, base, Rep('0', prec - |ds|) + (ds + end));
    ReadsZeros(prec - |ds|, base, ds + end);
    ReadsDigits(num, base, f.small, end);
    assert end == [] || end[0] == ' ';
  }

  lemma {:induction false} StartsWithDigit(number: int, base: int, prec: int, f: Flags, zeros: int, blanks: int)
    requires 2 <= base <= 36
    ensures Padded(number, base, prec, f, zeros, blanks) != [] && Padded(number, base, prec, f, zeros, blanks)[0] !in " +-"
  {
    var num := Magnitude(number, f.sign);
    FirstDigit(num, base, f.small);
    var ds := Digits(num, base, f.small);
    assert Figures(number, base, prec, f)[0] == if prec > |ds| then '0' else ds[0];
  }

  lemma {:induction false} FirstDigit(num: nat, base: int, small: bool)
    requires 2 <= base <= 36
    ensures Digits(num, base, small)[0] !in " +-"
    decreases num
  {
    Division(num, base);
    DigitRead(num % base, small);
    if num >= base {
      FirstDigit(num / base, base, small);
    }
  }

  function PrefixLength(base: int, f: Flags): nat { if f.special && base == 16 then 2 else 0 }

  /** Past the sign: prefix and figures. */
  lemma ReadsPrefixed(number: int, base: int, f: Flags, body: string)
    requires 2 <= base <= 36 && body != [] && body[0] !in " +-"
    requires ReadDigits(body, base, 0) == Magnitude(number, f.sign)
    ensures var s := Prefix(base, f) + body;
            && ReadDigits(Drop(s, PrefixLength(base, f)), base, 0) == Magnitude(number, f.sign)
            && s[0] !in " +-"
  {
    var s := Prefix(base, f) + body;
    if f.special && base == 16 {
      assert s[2..] == body;
    } else if f.special && base == 8 {
      assert s == Rep('0', 1) + body && s[0..] == s;
      ReadsZeros(1, base, body);
    } else {
      assert s == body && s[0..] == s;
    }
  }

  lemma ReadsSigned(number: int, base: int, f: Flags, s: string)
    requires 2 <= base <= 36 && s != [] && s[0] !in " +-"
    requires ReadDigits(Drop(s, PrefixLength(base, f)), base, 0) == Magnitude(number, f.sign)
    ensures Read(SignText(number, f) + s, base, PrefixLength(base, f)) ==
            if f.sign && number < 0 then number else Magnitude(number, f.sign)
  {
    var sign, n := SignText(number, f), PrefixLength(base, f);
    var all := sign + s;
    if sign == "" {
      assert all == s;
    } else {
      assert all[1..] == s;
      assert Drop(all, 1 + n) == Drop(s, n);
    }
  }

  /** The three layouts as one: blanks, sign, prefix, zeros, figures, blanks. */
  lemma NumTextLayout(number: int, base: int, width: int, prec: int, f: Flags)
      returns (front: int, zeros: int, blanks: int)
    requires 2 <= base <= 36
    ensures NumText(number, base, width, prec, f) ==
            Rep(' ', front) + (SignText(number, f) + (Prefix(base, f) + Padded(number, base, prec, f, zeros, blanks)))
  {
    var sign, pre, figs := SignText(number, f), Prefix(base, f), Figures(number, base, prec, f);
    var lead := sign + pre;
    var pad := Abs(width) - |lead| - |figs|;
    front, zeros, blanks := 0, 0, 0;
    assert Rep(' ', 0) == [] && Rep('0', 0) == [];
    if f.left {
      blanks := pad;
      Regroup([], sign, pre, [], figs, Rep(' ', pad));
    } else if f.zero {
      zeros := pad;
      Regroup([], sign, pre, Rep('0', pad), figs, []);
    } else {
      front := pad;
      Regroup(Rep(' ', pad), sign, pre, [], figs, []);
    }
  }

  lemma Regroup(front: string, sign: string, pre: string, zeros: string, figs: string, blanks: string)
    ensures front + (sign + (pre + (zeros + figs + blanks))) == front + (sign + pre) + zeros + figs + blanks
    ensures front == [] && zeros == [] ==> front + (sign + pre) + zeros + figs + blanks == sign + pre + figs + blanks
    ensures front == [] && blanks == [] ==> front + (sign + pre) + zeros + figs + blanks == sign + pre + zeros + figs
    ensures zeros == [] && blanks == [] ==> front + (sign + pre) + zeros + figs + blanks == front + (sign + pre) + figs
  {
  }

  /** A number printed with any flags, width and precision reads back as itself; without FL_SIGN, modulo 2^32. */
  lemma NumTextReadsBack(number: int32, base: int, width: int, prec: int, f: Flags)
    requires 2 <= base <= 36
    ensures Read(NumText(number, base, width, prec, f), base, PrefixLength(base, f)) ==
            if f.sign then number else number % WORD
  {
    var front, zeros, blanks := NumTextLayout(number, base, width, prec, f);
    var sign, pre, body := SignText(number, f), Prefix(base, f), Padded(number, base, prec, f, zeros, blanks);
    ReadsPadded(number, base, prec, f, zeros, blanks);
    StartsWithDigit(number, base, prec, f, zeros, blanks);
    ReadsPrefixed(number, base, f, body);
    ReadsSigned(number, base, f, pre + body);
    ReadsBlanks(front, base, PrefixLength(base, f), sign + (pre + body));
  }
}
