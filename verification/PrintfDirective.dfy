/** What one directive prints, said of the characters it is written with. */
module PrintfDirective {
  import opened PrintfSpec
  import opened PrintfFormat
  import opened PrintfFlags

  // ---------------------------------------------------------------- the numbers in a format

  /** The digits of every base: 0 to 9, then the letters, small or not. */
  lemma DigitChars(d: int)
    requires 0 <= d < 36
    ensures Digit(d, true) == "0123456789abcdefghijklmnopqrstuvwxyz"[d]
    ensures Digit(d, false) == "0123456789ABCDEFGHIJKLMNOPQRSTUVWXYZ"[d]
  {
  }

  /** A number is written without leading zeros. */
  lemma {:induction false} DigitsStart(num: nat, base: int, small: bool)
    requires 2 <= base <= 36
    ensures if num == 0 then Digits(num, base, small) == "0" else Digits(num, base, small)[0] != '0'
    decreases num
  {
    Division(num, base);
    if num >= base {
      assert num / base > 0;
      DigitsStart(num / base, base, small);
    }
  }

  lemma {:induction false} DecimalDigits(n: nat, small: bool)
    ensures AllDigits(Digits(n, 10, small)) && (n > 0 ==> Digits(n, 10, small)[0] != '0')
    decreases n
  {
    DigitsStart(n, 10, small);
    if n >= 10 {
      DecimalDigits(n / 10, small);
    }
  }

  /** The decimal digits of n, read as a width, are n. */
  lemma AtoiDigits(n: nat, small: bool)
    ensures AllDigits(Digits(n, 10, small)) && Atoi(Digits(n, 10, small)) == n
  {
    DecimalDigits(n, small);
    AtoiReads(Digits(n, 10, small));
    ReadsDigits(n, 10, small, []);
    assert Digits(n, 10, small) + [] == Digits(n, 10, small);
  }

  // ---------------------------------------------------------------- the flag characters

  predicate FlagChars(fl: string) { forall k :: 0 <= k < |fl| ==> fl[k] in "-0+ #" }

  /** What each character sets. */
  lemma FlagSets(f: Flags, c: char, g: Flags)
    requires c in "-0+ #" && g == ApplyFlag(f, c)
    ensures (g.left <==> f.left || c == '-') && (g.zero <==> f.zero || c == '0') && (g.plus <==> f.plus || c == '+')
    ensures (g.sign <==> f.sign || c == '+') && (g.space <==> f.space || c == ' ') && (g.special <==> f.special || c == '#')
    ensures g.small == f.small
  {
  }

  lemma InFront(fl: string, x: char)
    requires fl != []
    ensures x in fl <==> x in fl[..|fl| - 1] || x == fl[|fl| - 1]
  {
    assert fl == fl[..|fl| - 1] + [fl[|fl| - 1]];
  }

  lemma {:induction false} FlagsMean(fl: string)
    requires FlagChars(fl)
    ensures var f := ApplyFlags(NO_FLAGS, fl);
            && (f.left <==> '-' in fl) && (f.zero <==> '0' in fl) && (f.plus <==> '+' in fl) && (f.sign <==> '+' in fl)
            && (f.space <==> ' ' in fl) && (f.special <==> '#' in fl) && !f.small
    decreases |fl|
  {
    if fl != [] {
      var front, c := fl[..|fl| - 1], fl[|fl| - 1];
      FlagsMean(front);
      FlagSets(ApplyFlags(NO_FLAGS, front), c, ApplyFlags(NO_FLAGS, fl));
      InFront(fl, '-');
      InFront(fl, '0');
      InFront(fl, '+');
      InFront(fl, ' ');
      InFront(fl, '#');
    }
  }

  // ---------------------------------------------------------------- numbers

  /** Printed as a signed number: by d and i, and by every conversion with the flag `+`. */
  predicate AsSigned(conv: char, fl: string) { conv == 'd' || conv == 'i' || '+' in fl }

  function BaseOf(conv: char): int { if conv == 'o' then 8 else if conv == 'x' || conv == 'X' then 16 else 10 }

  /** What stands before the digits. */
  function Lead(conv: char, fl: string, n: int): string {
    (if AsSigned(conv, fl) && n < 0 then "-" else if '+' in fl then "+" else if ' ' in fl then " " else "")
    + if '#' !in fl then "" else if conv == 'o' then "0" else if conv == 'x' then "0x" else if conv == 'X' then "0X" else ""
  }

  /** The digits, at least prec of them. */
  function Body(conv: char, fl: string, prec: int, n: int): string
    requires conv in "diuoxX"
  {
    var magnitude := if AsSigned(conv, fl) && n < 0 then -n else n % 0x1_0000_0000;
    var ds := Digits(magnitude, BaseOf(conv), conv == 'x');
    Rep('0', prec - |ds|) + ds
  }

  /** Text and what stands before it in a field: `-` puts blanks after it, `0` zeros between, neither blanks before. */
  function Fill(fl: string, lead: string, body: string, width: int): string {
    var n := width - |lead| - |body|;
    if '-' in fl then lead + body + Rep(' ', n) else if '0' in fl then lead + Rep('0', n) + body else Rep(' ', n) + lead + body
  }

  /** n as it is left by the length modifier: h keeps 16 bits, as a signed number. */
  ghost predicate Shortened(len: Len, n: int, m: int) {
    if len == Short then -0x8000 <= m < 0x8000 && (m - n) % 0x1_0000 == 0 else m == n
  }

  lemma ConvertShortens(len: Len, n: int32)
    ensures Shortened(len, n, Convert(len, n))
  {
  }

  /** The flags a number is converted with. */
  function NumberFlags(conv: char, fl: string): Flags {
    var f := Settle(ApplyFlags(NO_FLAGS, fl));
    if conv == 'd' || conv == 'i' then f.(sign := true) else if conv == 'x' then f.(small := true) else f
  }

  lemma NumberFlagsMean(conv: char, fl: string)
    requires FlagChars(fl)
    ensures var f := NumberFlags(conv, fl);
            && (f.left <==> '-' in fl) && (f.zero <==> '0' in fl && '-' !in fl) && (f.plus <==> '+' in fl)
            && (f.sign <==> AsSigned(conv, fl)) && (f.space <==> ' ' in fl && '+' !in fl) && (f.special <==> '#' in fl)
            && (f.small <==> conv == 'x')
  {
    FlagsMean(fl);
  }

  lemma SameLead(conv: char, fl: string, n: int)
    requires FlagChars(fl) && conv in "diuoxX"
    ensures var f := NumberFlags(conv, fl); SignText(n, f) + Prefix(BaseOf(conv), f) == Lead(conv, fl, n)
  {
    NumberFlagsMean(conv, fl);
    assert Digit(33, true) == 'x' && Digit(33, false) == 'X';
  }

  lemma SameBody(conv: char, fl: string, prec: int, n: int)
    requires FlagChars(fl) && conv in "diuoxX"
    ensures Figures(n, BaseOf(conv), prec, NumberFlags(conv, fl)) == Body(conv, fl, prec, n)
  {
    NumberFlagsMean(conv, fl);
  }

  lemma SameFill(conv: char, fl: string, width: int, prec: int, n: int)
    requires FlagChars(fl) && conv in "diuoxX"
    ensures NumText(n, BaseOf(conv), width, prec, NumberFlags(conv, fl)) ==
            Fill(fl, Lead(conv, fl, n), Body(conv, fl, prec, n), if width < 0 then -width else width)
  {
    var f := NumberFlags(conv, fl);
    SameLead(conv, fl, n);
    SameBody(conv, fl, prec, n);
    NumberFlagsMean(conv, fl);
  }

  lemma NumberTask(conv: char, fl: string, width: int, prec: int, len: Len, n: int32)
    requires FlagChars(fl) && conv in "diuoxX"
    ensures var t := Task(conv, Settle(ApplyFlags(NO_FLAGS, fl)), width, prec, len, Int(n));
            UserText(t) == KernelText(t) == NumText(Convert(len, n), BaseOf(conv), width, prec, NumberFlags(conv, fl))
  {
  }

  /** A conversion of a number, in a field of |width| characters at least. */
  lemma NumberText(conv: char, fl: string, width: int, prec: int, len: Len, n: int32, m: int32)
    requires FlagChars(fl) && conv in "diuoxX" && Shortened(len, n, m)
    ensures var t := Task(conv, Settle(ApplyFlags(NO_FLAGS, fl)), width, prec, len, Int(n));
            UserText(t) == KernelText(t) == Fill(fl, Lead(conv, fl, m), Body(conv, fl, prec, m), if width < 0 then -width else width)
  {
    ConvertShortens(len, n);
    assert m == Convert(len, n);
    NumberTask(conv, fl, width, prec, len, n);
    SameFill(conv, fl, width, prec, m);
  }

  // ---------------------------------------------------------------- pointers, characters, strings

  /** With `-` the flag `0` has no effect. */
  lemma SameButZero(n: int, width: int, prec: int, f: Flags, g: Flags)
    requires f == g.(zero := f.zero) && (f.zero == g.zero || f.left)
    ensures NumText(n, 16, width, prec, f) == NumText(n, 16, width, prec, g)
  {
    assert Figures(n, 16, prec, f) == Figures(n, 16, prec, g);
  }

  /** The flags that turn %x into %p. */
  function PointerWith(fl: string, width: int, kernel: bool): string {
    fl + ((if width == -1 then "0" else "") + (if kernel then "#" else ""))
  }

  lemma PointerChars(fl: string, width: int, kernel: bool)
    requires FlagChars(fl)
    ensures var with := PointerWith(fl, width, kernel);
            && FlagChars(with) && ('-' in with <==> '-' in fl) && ('+' in with <==> '+' in fl) && (' ' in with <==> ' ' in fl)
            && ('0' in with <==> '0' in fl || width == -1) && ('#' in with <==> '#' in fl || kernel)
  {
    var more := (if width == -1 then "0" else "") + (if kernel then "#" else "");
    assert forall c :: c in fl + more <==> c in fl || c in more;
  }

  lemma PointerFlagsMean(fl: string, t: Task, kernel: bool, f: Flags, g: Flags)
    requires FlagChars(fl) && t.f == Settle(ApplyFlags(NO_FLAGS, fl))
    requires f == PointerFlags(t, kernel) && g == NumberFlags('x', PointerWith(fl, t.width, kernel))
    ensures f == g.(zero := f.zero) && (f.zero == g.zero || f.left)
  {
    FlagsMean(fl);
    PointerChars(fl, t.width, kernel);
    NumberFlagsMean('x', PointerWith(fl, t.width, kernel));
  }

  lemma PointerFlagged(fl: string, t: Task, kernel: bool, n: int32, width: int)
    requires FlagChars(fl) && t.f == Settle(ApplyFlags(NO_FLAGS, fl))
    ensures NumText(n, 16, width, t.prec, PointerFlags(t, kernel)) ==
            NumText(n, 16, width, t.prec, NumberFlags('x', PointerWith(fl, t.width, kernel)))
  {
    var f, g := PointerFlags(t, kernel), NumberFlags('x', PointerWith(fl, t.width, kernel));
    PointerFlagsMean(fl, t, kernel, f, g);
    SameButZero(n, width, t.prec, f, g);
  }

  /** %p is %x with eight zero-filled places unless a width is given, and in the kernel with the prefix. */
  lemma PointerIsHex(fl: string, t: Task, with: string, kernel: bool, n: int32, width: int)
    requires FlagChars(fl) && t.conv == 'p' && t.f == Settle(ApplyFlags(NO_FLAGS, fl)) && t.arg == Int(n)
    requires with == PointerWith(fl, t.width, kernel) && width == if t.width == -1 then 8 else t.width
    ensures (if kernel then KernelText(t) else UserText(t)) ==
            Fill(with, Lead('x', with, n), Body('x', with, t.prec, n), if width < 0 then -width else width)
  {
    PointerFlagged(fl, t, kernel, n, width);
    PointerChars(fl, t.width, kernel);
    SameFill('x', with, width, t.prec, n);
  }

  /** A field of at least width places; blanks before the text, with `-` after it. */
  function Place(fl: string, text: string, width: int): string {
    if '-' in fl then text + Rep(' ', width - |text|) else Rep(' ', width - |text|) + text
  }

  lemma CharacterText(fl: string, width: int, prec: int, len: Len, n: int32)
    requires FlagChars(fl)
    ensures var t := Task('c', Settle(ApplyFlags(NO_FLAGS, fl)), width, prec, len, Int(n));
            UserText(t) == KernelText(t) == Place(fl, [(n % 256) as char], width)
  {
    FlagsMean(fl);
  }

  /** Of a string at most prec characters are printed; of a NULL nothing. */
  lemma StringText(fl: string, width: int, prec: int, len: Len, arg: Arg)
    requires FlagChars(fl)
    ensures var t := Task('s', Settle(ApplyFlags(NO_FLAGS, fl)), width, prec, len, arg);
            && (arg.Str? ==> UserText(t) == KernelText(t) == Place(fl, if 0 <= prec < |arg.s| then arg.s[..prec] else arg.s, width))
            && (arg.Null? ==> UserText(t) == KernelText(t) == "")
  {
    FlagsMean(fl);
  }

  // ---------------------------------------------------------------- whole directives

  function NumOf(n: Num, args: seq<Arg>): int {
    match n
    case Absent => -1
    case Written(ds) => ReadDigits(ds, 10, 0)
    case Star => if args != [] && args[0].Int? then args[0].n else 0
  }

  /** The arguments without the one that `*` takes. */
  function Without(n: Num, args: seq<Arg>): seq<Arg> { if n == Star && args != [] then args[1..] else args }

  /** What a directive works with: width and precision as written or passed, then the next argument, which a conversion
      uses up. */
  lemma DirectiveTask(it: Item, args: seq<Arg>, show: Task -> string)
    requires ItemOk(it) && it.Directive?
    ensures var w, rest := NumOf(it.width, args), Without(it.width, args);
            var p, more := NumOf(it.prec, rest), Without(it.prec, rest);
            && Output([it], NO_FLAGS, args, show) ==
               show(Task(it.conv, Settle(ApplyFlags(NO_FLAGS, it.fl)), w, p, it.len, if more == [] then Null else more[0]))
            && Pending([it], NO_FLAGS) == NO_FLAGS
            && Left([it], args) == if more != [] && it.conv in "diuoxXcsp" then more[1..] else more
  {
    var rest := Without(it.width, args);
    OneOutput(it, NO_FLAGS, args, show);
    SameNum(it.width, args);
    SameNum(it.prec, rest);
    assert [it][1..] == [];
  }

  lemma SameNum(n: Num, args: seq<Arg>)
    requires NumOk(n)
    ensures NumValue(n, args) == NumOf(n, args) && After(n, args) == Without(n, args)
  {
    if n.Written? {
      AtoiReads(n.ds);
    }
  }

  /** A directive is well written with these characters. */
  lemma WellWritten(it: Item)
    requires it.Directive? && FlagChars(it.fl) && it.conv in "diuoxXcsp" && (it.dot || it.prec == Absent)
    requires it.width.Written? ==> it.width.ds != [] && it.width.ds[0] != '0' && forall k :: 0 <= k < |it.width.ds| ==> '0' <= it.width.ds[k] <= '9'
    requires it.prec.Written? ==> it.prec.ds != [] && forall k :: 0 <= k < |it.prec.ds| ==> '0' <= it.prec.ds[k] <= '9'
    ensures ItemOk(it)
    ensures ItemText(it) == "%" + (it.fl + (NumWritten(it.width) + ((if it.dot then "." + NumWritten(it.prec) else "")
                            + ((if it.len == Long then "l" else if it.len == Short then "h" else "") + [it.conv]))))
  {
  }

  function Plain(s: string): (items: seq<Item>)
    ensures |items| == |s|
  {
    seq(|s|, k requires 0 <= k < |s| => Lit(s[k]))
  }

  /** Text without `%` prints itself. */
  lemma {:induction false} PlainPrints(s: string, f: Flags, args: seq<Arg>, show: Task -> string)
    requires forall k :: 0 <= k < |s| ==> s[k] != '%' && s[k] != '\0'
    ensures ItemsOk(Plain(s)) && Text(Plain(s)) == s && Output(Plain(s), f, args, show) == s
    decreases |s|
  {
    if s != [] {
      PlainPrints(s[1..], f, args, show);
      assert Plain(s)[1..] == Plain(s[1..]);
      OutputHead(Plain(s), Plain(s[1..]), f, args, show);
      assert [s[0]] + s[1..] == s;
    }
  }

  /** `%` and flags and the width w in decimal and a conversion of a number. */
  function NumberItem(fl: string, w: nat, conv: char): Item {
    Directive(fl, Written(Digits(w, 10, false)), false, Absent, NoLen, conv)
  }

  lemma NumberItemText(fl: string, w: nat, conv: char)
    requires FlagChars(fl) && w > 0 && conv in "diuoxX"
    ensures ItemsOk([NumberItem(fl, w, conv)])
    ensures Text([NumberItem(fl, w, conv)]) == "%" + (fl + (Digits(w, 10, false) + [conv]))
  {
    var it := NumberItem(fl, w, conv);
    DecimalDigits(w, false);
    assert NumOk(it.width);
    assert [it][1..] == [] && TextBy([], ItemText) == "";
    assert Text([it]) == ItemText(it) + "" == ItemText(it);
    assert EndText(it) == [conv] && PrecText(it) + EndText(it) == [conv];
  }

  /** Such a format prints at least w characters, in both engines the same, and they read back as the number: in base 10 for
      d, i and u, 8 for o, 16 for x and X; as it was for d and i and with `+`, else modulo 2^32. */
  lemma NumberPrints(fl: string, w: nat, conv: char, n: int32)
    requires FlagChars(fl) && w > 0 && conv in "diuoxX"
    ensures ItemsOk([NumberItem(fl, w, conv)])
    ensures var out := Output([NumberItem(fl, w, conv)], NO_FLAGS, [Int(n)], UserText);
            && out == Output([NumberItem(fl, w, conv)], NO_FLAGS, [Int(n)], KernelText) && |out| >= w
            && Read(out, if conv in "diu" then 10 else if conv == 'o' then 8 else 16, if conv in "xX" && '#' in fl then 2 else 0) ==
               if conv in "di" || '+' in fl then n else n % 0x1_0000_0000
  {
    var it, f := NumberItem(fl, w, conv), NumberFlags(conv, fl);
    NumberItemText(fl, w, conv);
    AtoiDigits(w, false);
    AtoiReads(Digits(w, 10, false));
    DirectiveTask(it, [Int(n)], UserText);
    DirectiveTask(it, [Int(n)], KernelText);
    NumberTask(conv, fl, w, -1, NoLen, n);
    NumberFlagsMean(conv, fl);
    NumTextLength(n, BaseOf(conv), w, -1, f);
    NumTextReadsBack(n, BaseOf(conv), w, -1, f);
  }

  lemma TenIsRead()
    ensures ReadDigits("10", 10, 0) == 10
  {
    ReadsMore("1", '0', 0);
    assert "1" + ['0'] == "10" && "1"[1..] == "";
  }

  lemma TenText()
    ensures ItemsOk([Dec("10")]) && Text([Dec("10")]) == "%10d"
  {
    assert [Dec("10")][1..] == [] && ItemText(Dec("10")) == "%10d";
    assert TextBy([], ItemText) == "";
    assert "%10d" + "" == "%10d";
  }

  lemma SevenInTen(seven: int32, t: Task)
    requires seven == 7 && t == Task('d', Settle(ApplyFlags(NO_FLAGS, "")), 10, -1, NoLen, Int(seven))
    ensures UserText(t) == "         7"
  {
    NumberTask('d', "", 10, -1, NoLen, seven);
    NumberFlagsMean('d', "");
    DigitField(seven, 10, NumberFlags('d', ""));
    assert Rep(' ', 9) == "         ";
  }

  /** `%10d` prints a seven in ten places. */
  lemma TenPlaces()
    ensures ItemsOk([Dec("10")]) && Text([Dec("10")]) == "%10d"
    ensures Output([Dec("10")], NO_FLAGS, [Int(7)], UserText) == "         7"
  {
    TenText();
    TenIsRead();
    DirectiveTask(Dec("10"), [Int(7)], UserText);
    SevenInTen(7, Task('d', Settle(ApplyFlags(NO_FLAGS, "")), 10, -1, NoLen, Int(7)));
  }
}
