/** The two printf engines: rlibc/stdio/vdprintf.c, which collects its output in a 16-byte buffer, and
    kernel/lib/vsprintf.c, which writes it straight into memory. */
module Printf {
  import opened Layout
  import opened PrintfSpec
  import opened PrintfFormat

  function Reversed(s: string): string { if s == [] then [] else [s[|s| - 1]] + Reversed(s[..|s| - 1]) }

  lemma ReversedGrows(s: string, c: char)
    ensures Reversed(s + [c]) == [c] + Reversed(s)
  {
    assert (s + [c])[..|s|] == s;
  }

  /** Digits still to be taken off. */
  function Rest(n: nat, base: int, small: bool): string
    requires 2 <= base <= 36
  {
    if n == 0 then [] else Digits(n, base, small)
  }

  lemma TakeDigit(n: nat, base: int, small: bool, done: string, all: string)
    requires 2 <= base <= 36 && n != 0 && Rest(n, base, small) + Reversed(done) == all
    ensures 0 <= n % base < base && 0 <= n / base < n && |done| < |all|
    ensures Rest(n / base, base, small) + Reversed(done + [Digit(n % base, small)]) == all
  {
    DropDigit(n, base, small);
    var d := [Digit(n % base, small)];
    ReversedGrows(done, d[0]);
    ReversedLength(done);
    Associative(Rest(n / base, base, small), d, Reversed(done));
  }

  lemma DropDigit(n: nat, base: int, small: bool)
    requires 2 <= base <= 36 && n != 0
    ensures 0 <= n % base < base && 0 <= n / base < n
    ensures Rest(n, base, small) == Rest(n / base, base, small) + [Digit(n % base, small)]
  {
    Division(n, base);
    if n < base {
      assert Rest(n / base, base, small) == [];
    }
  }

  lemma {:induction false} ReversedLength(s: string)
    ensures |Reversed(s)| == |s|
    decreases |s|
  {
    if s != [] {
      ReversedLength(s[..|s| - 1]);
    }
  }

  /** The digit loop of `numstr`: the scratch area holds the digits, last first, and never overruns. */
  method ScratchDigits(number: int32, num: nat, base: int, f: Flags) returns (tmp: array<char>, i: nat)
    requires 2 <= base <= 36 && num == Magnitude(number, f.sign)
    ensures fresh(tmp) && tmp.Length == 36 && 0 < i <= 36 && Reversed(tmp[..i]) == Digits(num, base, f.small)
  {
    ScratchEnough(number, base, f);
    tmp := new char[36](_ => '\0');
    i := 0;
    if num == 0 {
      tmp[i] := '0';
      i := i + 1;
      assert tmp[..1] == [] + ['0'];
      ReversedGrows([], '0');
    } else {
      var n := num;
      ghost var all := Digits(num, base, f.small);
      while n != 0
        invariant 0 <= n && i <= 32 && (n == 0 ==> i > 0)
        invariant Rest(n, base, f.small) + Reversed(tmp[..i]) == all
        decreases n
      {
        ghost var done := tmp[..i];
        TakeDigit(n, base, f.small, done, all);
        tmp[i] := Digit(n % base, f.small);
        assert tmp[..i + 1] == done + [Digit(n % base, f.small)];
        n, i := n / base, i + 1;
      }
    }
  }

  /** The sign `numstr` prints; NUL for none. */
  function SignChar(number: int, f: Flags): char {
    if f.sign && number < 0 then '-' else if f.plus then '+' else if f.space then ' ' else '\0'
  }

  /** What is left of the width once sign, prefix and figures are taken off. */
  lemma WidthLeft(number: int, base: int, prec: int, f: Flags)
    requires 2 <= base <= 36
    ensures |SignText(number, f)| == (if SignChar(number, f) == '\0' then 0 else 1)
    ensures SignText(number, f) == (if SignChar(number, f) == '\0' then [] else [SignChar(number, f)])
    ensures |Prefix(base, f)| == (if !f.special then 0 else if base == 16 then 2 else if base == 8 then 1 else 0)
    ensures |Figures(number, base, prec, f)| == Max(prec, |Digits(Magnitude(number, f.sign), base, f.small)|)
  {
  }

  /** The three runs of padding when w is left of the width: `while (width-- > 0)` uses the width up, so at most one of
      them is not empty. */
  function FrontPad(w: int, f: Flags): int { if !f.left && !f.zero then w else 0 }

  function MiddlePad(w: int, f: Flags): int { if f.left then 0 else if f.zero then w else if w > 0 then -1 else w - 1 }

  function BackPad(w: int, f: Flags): int {
    if f.left then w else var m := MiddlePad(w, f); if m > 0 then -1 else m - 1
  }

  /** The pieces `numstr` prints, in its order, make up the converted number. */
  lemma NumTextPieces(number: int, base: int, width: int, prec: int, f: Flags, w: int)
    requires 2 <= base <= 36
    requires w == Abs(width) - |SignText(number, f)| - |Prefix(base, f)| - |Figures(number, base, prec, f)|
    ensures NumText(number, base, width, prec, f) ==
            Rep(' ', FrontPad(w, f)) + SignText(number, f) + Prefix(base, f) + Rep(if f.zero then '0' else ' ', MiddlePad(w, f))
            + Figures(number, base, prec, f) + Rep(' ', BackPad(w, f))
  {
    var sign, pre, figs := SignText(number, f), Prefix(base, f), Figures(number, base, prec, f);
    var a, z, c := Rep(' ', FrontPad(w, f)), Rep(if f.zero then '0' else ' ', MiddlePad(w, f)), Rep(' ', BackPad(w, f));
    assert |sign + pre| == |sign| + |pre|;
    assert a + sign + pre + z + figs + c == a + (sign + pre) + z + figs + c;
    if f.left {
      assert a == [] && z == [];
    } else {
      assert c == [];
    }
    Regroup(a, sign, pre, z, figs, c);
  }

  /** What `numstr` prints behind s0, in its order. */
  ghost function Printed(s0: string, sign: char, base: int, f: Flags, w: int, zeros: int, ds: string): string {
    s0 + Rep(' ', FrontPad(w, f)) + (if sign == '\0' then [] else [sign]) + Prefix(base, f)
    + Rep(if f.zero then '0' else ' ', MiddlePad(w, f)) + Rep('0', zeros) + ds + Rep(' ', BackPad(w, f))
  }

  lemma PrintedPieces(s0: string, number: int, base: int, width: int, prec: int, f: Flags, w: int, zeros: int, ds: string)
    requires 2 <= base <= 36 && ds == Digits(Magnitude(number, f.sign), base, f.small) && zeros == Max(prec, |ds|) - |ds|
    requires w == Abs(width) - (if SignChar(number, f) == '\0' then 0 else 1)
                  - (if !f.special then 0 else if base == 16 then 2 else if base == 8 then 1 else 0) - Max(prec, |ds|)
    ensures Printed(s0, SignChar(number, f), base, f, w, zeros, ds) == s0 + NumText(number, base, width, prec, f)
  {
    WidthLeft(number, base, prec, f);
    NumTextPieces(number, base, width, prec, f, w);
    assert Rep('0', zeros) == Rep('0', prec - |ds|);
    Rejoin(s0, Rep(' ', FrontPad(w, f)), SignText(number, f), Prefix(base, f), Rep(if f.zero then '0' else ' ', MiddlePad(w, f)),
           Rep('0', prec - |ds|), ds, Rep(' ', BackPad(w, f)));
  }

  lemma Rejoin(s0: string, a: string, sign: string, pre: string, z: string, zeros: string, ds: string, c: string)
    ensures s0 + a + sign + pre + z + zeros + ds + c == s0 + (a + sign + pre + z + (zeros + ds) + c)
  {
  }

  /** Sign, prefix and figures fit into the field with what is left of the width. */
  lemma NumTextRoom(number: int, base: int, width: int, prec: int, f: Flags)
    requires 2 <= base <= 36
    ensures var ds := Digits(Magnitude(number, f.sign), base, f.small);
            var lead := (if SignChar(number, f) == '\0' then 0 else 1) + |Prefix(base, f)|;
            |NumText(number, base, width, prec, f)| == lead + Max(prec, |ds|) + Max(Abs(width) - lead - Max(prec, |ds|), 0)
  {
    WidthLeft(number, base, prec, f);
    NumTextLength(number, base, width, prec, f);
  }

  /** The half of `numstr` before anything is printed: sign, width left, leading zeros, and the scratch digits. */
  method Prepare(number: int32, base: int, width: int, prec: int, f: Flags)
      returns (sign: char, w: int, zeros: int, tmp: array<char>, i: nat)
    requires 2 <= base <= 36
    ensures fresh(tmp) && tmp.Length == 36 && i <= 36 && zeros >= 0
    ensures forall s0 :: Printed(s0, sign, base, f, w, zeros, Reversed(tmp[..i])) == s0 + NumText(number, base, width, prec, f)
    ensures (if sign == '\0' then 0 else 1) + |Prefix(base, f)| + zeros + i + Max(w, 0) == |NumText(number, base, width, prec, f)|
  {
    w := if width < 0 then -width else width;
    var n: int := number;
    var num: nat := if f.sign && n < 0 then -n else n % WORD;
    sign := SignChar(number, f);
    if sign != '\0' { w := w - 1; }
    if f.special {
      w := if base == 16 then w - 2 else if base == 8 then w - 1 else w;
    }
    tmp, i := ScratchDigits(number, num, base, f);
    var p := if i > prec then i else prec;
    w := w - p;
    zeros := p - i;
    ReversedLength(tmp[..i]);
    Prepared(number, base, width, prec, f, w, zeros, Reversed(tmp[..i]));
  }

  /** What is prepared is what is printed, wherever it is printed, and takes up the field. */
  lemma Prepared(number: int, base: int, width: int, prec: int, f: Flags, w: int, zeros: int, ds: string)
    requires 2 <= base <= 36 && ds == Digits(Magnitude(number, f.sign), base, f.small) && zeros == Max(prec, |ds|) - |ds|
    requires w == Abs(width) - (if SignChar(number, f) == '\0' then 0 else 1)
                  - (if !f.special then 0 else if base == 16 then 2 else if base == 8 then 1 else 0) - Max(prec, |ds|)
    ensures forall s0 :: Printed(s0, SignChar(number, f), base, f, w, zeros, ds) == s0 + NumText(number, base, width, prec, f)
    ensures (if SignChar(number, f) == '\0' then 0 else 1) + |Prefix(base, f)| + zeros + |ds| + Max(w, 0)
            == |NumText(number, base, width, prec, f)|
  {
    NumTextRoom(number, base, width, prec, f);
    WidthLeft(number, base, prec, f);
    forall s0
      ensures Printed(s0, SignChar(number, f), base, f, w, zeros, ds) == s0 + NumText(number, base, width, prec, f)
    {
      PrintedPieces(s0, number, base, width, prec, f, w, zeros, ds);
    }
  }

  lemma OneMore(s: string, c: char, n: int)
    requires n >= 0
    ensures s + Rep(c, n + 1) == s + Rep(c, n) + [c]
  {
  }

  lemma PeelLast(s: string, t: string)
    requires t != []
    ensures s + Reversed(t) == s + [t[|t| - 1]] + Reversed(t[..|t| - 1])
  {
    Associative(s, [t[|t| - 1]], Reversed(t[..|t| - 1]));
  }

  lemma JustifiedPieces(s0: string, f: Flags, width: int, t: string)
    ensures f.left ==> s0 + t + Rep(' ', width - |t|) == s0 + Justified(f, width, t)
    ensures !f.left ==> s0 + Rep(' ', width - |t|) + t == s0 + Justified(f, width, t)
    ensures forall n, s: string {:trigger s + Rep(' ', n)} :: n <= 0 ==> s + Rep(' ', n) == s
  {
    Associative(s0, t, Rep(' ', width - |t|));
    Associative(s0, Rep(' ', width - |t|), t);
    forall n, s: string | n <= 0
      ensures s + Rep(' ', n) == s
    {
      assert Rep(' ', n) == [];
    }
  }

  function Flat(chunks: seq<string>): string
    decreases |chunks|
  {
    if chunks == [] then [] else Flat(chunks[..|chunks| - 1]) + chunks[|chunks| - 1]
  }

  /** The static variables of vdprintf.c; `chunks` is what `write` has been given. */
  class WBuf {
    const wbuf: array<char>
    var size: nat
    var nprinted: nat
    var chunks: seq<string>
    ghost var before: nat      // characters printed by earlier calls

    /** Everything printed: the chunks written and the buffer still pending. */
    ghost function Stream(): string
      reads this, wbuf
      requires size <= wbuf.Length
    {
      Flat(chunks) + wbuf[..size]
    }

    ghost predicate Valid()
      reads this, wbuf
    {
      wbuf.Length == 16 && size < 16 && |Stream()| == before + nprinted
    }

    constructor ()
      ensures Valid() && fresh(wbuf) && Stream() == []
    {
      wbuf := new char[16](_ => '\0');
      size, nprinted, chunks, before := 0, 0, [], 0;
    }

    /** `wbuf_flush`. */
    method Flush()
      requires wbuf.Length == 16 && size <= 16
      modifies this`size, this`chunks
      ensures size == 0 && Stream() == old(Stream()) && nprinted == old(nprinted)
    {
      if size > 0 {
        ghost var was := chunks;
        chunks := chunks + [wbuf[..size]];
        assert chunks[..|chunks| - 1] == was;
        size := 0;
      }
    }

    /** `wbuf_write`. */
    method Put(c: char)
      requires Valid()
      modifies this`size, this`nprinted, this`chunks, wbuf
      ensures Valid() && Stream() == old(Stream()) + [c] && nprinted == old(nprinted) + 1
    {
      ghost var s0 := Stream();
      wbuf[size] := c;
      size, nprinted := size + 1, nprinted + 1;
      assert Stream() == s0 + [c];
      if size == 16 {
        Flush();
      }
    }

    /** A run of `while (n-- > 0)`. */
    method Pad(c: char, n: int) returns (left: int)
      requires Valid()
      modifies this`size, this`nprinted, this`chunks, wbuf
      ensures Valid() && Stream() == old(Stream()) + Rep(c, n) && left == (if n > 0 then -1 else n - 1)
    {
      left := n;
      while left > 0
        invariant Valid() && left <= n && (n >= 0 ==> left >= 0) && (n < 0 ==> left == n)
        invariant Stream() == old(Stream()) + Rep(c, n - left)
        decreases left
      {
        OneMore(old(Stream()), c, n - left);
        Put(c);
        left := left - 1;
      }
      left := left - 1;
    }

    /** The digits, from the end of the scratch area. */
    method PutDigits(tmp: array<char>, i: nat)
      requires Valid() && i <= tmp.Length && tmp != wbuf
      modifies this`size, this`nprinted, this`chunks, wbuf
      ensures Valid() && Stream() == old(Stream()) + Reversed(tmp[..i])
    {
      var n := i;
      ReversedLength(tmp[..i]);
      while n > 0
        invariant Valid() && 0 <= n <= i && tmp[..] == old(tmp[..])
        invariant Stream() + Reversed(tmp[..n]) == old(Stream()) + Reversed(tmp[..i])
      {
        n := n - 1;
        PeelLast(Stream(), tmp[..n + 1]);
        ReversedLength(tmp[..n]);
        Put(tmp[n]);
        assert tmp[..n + 1][..n] == tmp[..n];
      }
    }

    method PutPrefix(base: int, f: Flags)
      requires Valid()
      modifies this`size, this`nprinted, this`chunks, wbuf
      ensures Valid() && Stream() == old(Stream()) + Prefix(base, f)
    {
      if f.special {
        if base == 8 {
          Put('0');
        } else if base == 16 {
          Put('0');
          Put(Digit(33, f.small));
        }
      }
    }

    /** The printing half of `numstr`: w is what is left of the width. */
    method PutNumber(sign: char, base: int, f: Flags, w: int, zeros: int, tmp: array<char>, i: nat)
      requires Valid() && i <= tmp.Length && tmp != wbuf
      modifies this`size, this`nprinted, this`chunks, wbuf
      ensures Valid()
      ensures Stream() == Printed(old(Stream()), sign, base, f, w, zeros, Reversed(old(tmp[..i])))
    {
      ghost var s0 := Stream();
      var left := w;
      if !f.left && !f.zero {
        left := Pad(' ', left);
      }
      assert Stream() == s0 + Rep(' ', FrontPad(w, f));
      if sign != '\0' { Put(sign); }
      assert Stream() == s0 + Rep(' ', FrontPad(w, f)) + if sign == '\0' then [] else [sign];
      PutPrefix(base, f);
      ghost var s1 := Stream();
      if !f.left {
        left := Pad(if f.zero then '0' else ' ', left);
      }
      assert Stream() == s1 + Rep(if f.zero then '0' else ' ', MiddlePad(w, f));
      var _ := Pad('0', zeros);
      PutDigits(tmp, i);
      var _ := Pad(' ', left);
    }

    /** `numstr`. */
    method NumStr(number: int32, base: int, width: int, prec: int, f: Flags)
      requires Valid()
      modifies this`size, this`nprinted, this`chunks, wbuf
      ensures Valid() && Stream() == old(Stream()) + (if 2 <= base <= 36 then NumText(number, base, width, prec, f) else [])
    {
      if base < 2 || base > 36 { return; }
      NumStrIn(number, base, width, prec, f);
    }

    /** `numstr` for a base it has digits for. */
    method NumStrIn(number: int32, base: int, width: int, prec: int, f: Flags)
      requires Valid() && 2 <= base <= 36
      modifies this`size, this`nprinted, this`chunks, wbuf
      ensures Valid() && Stream() == old(Stream()) + NumText(number, base, width, prec, f)
    {
      var sign, w, zeros, tmp, i := Prepare(number, base, width, prec, f);
      PutNumber(sign, base, f, w, zeros, tmp, i);
    }

    /** `while (--width > 0)` with blanks. */
    method PadDown(width: int) returns (left: int)
      requires Valid()
      modifies this`size, this`nprinted, this`chunks, wbuf
      ensures Valid() && Stream() == old(Stream()) + Rep(' ', width - 1) && left == (if width > 1 then 0 else width - 1)
    {
      var n := Pad(' ', width - 1);
      left := n + 1;
    }

    /** %c. */
    method PutChar(f: Flags, width: int, c: char)
      requires Valid()
      modifies this`size, this`nprinted, this`chunks, wbuf
      ensures Valid() && Stream() == old(Stream()) + Justified(f, width, [c])
    {
      var w := width;
      if !f.left {
        w := PadDown(w);
      }
      Put(c);
      w := PadDown(w);
    }

    /** %s. */
    method PutString(f: Flags, width: int, prec: int, s: string)
      requires Valid()
      modifies this`size, this`nprinted, this`chunks, wbuf
      ensures Valid() && Stream() == old(Stream()) + Justified(f, width, Clip(s, prec))
    {
      var slen := if 0 <= prec < |s| then prec else |s|;
      assert s[..slen] == Clip(s, prec);
      JustifiedPieces(Stream(), f, width, s[..slen]);
      var w := width - slen;
      if !f.left {
        w := Pad(' ', w);
      }
      PutChars(s, slen);
      w := Pad(' ', w);
    }

    method PutChars(s: string, slen: nat)
      requires Valid() && slen <= |s|
      modifies this`size, this`nprinted, this`chunks, wbuf
      ensures Valid() && Stream() == old(Stream()) + s[..slen]
    {
      ghost var s0 := Stream();
      for i := 0 to slen
        invariant Valid() && Stream() == s0 + s[..i]
      {
        Put(s[i]);
        assert s[..i + 1] == s[..i] + [s[i]];
      }
    }

    /** Case 5. */
    method Perform(t: Task)
      requires Valid()
      modifies this`size, this`nprinted, this`chunks, wbuf
      ensures Valid() && Stream() == old(Stream()) + UserText(t)
    {
      if t.conv == 'c' {
        PutChar(t.f, t.width, (IntOf([t.arg]) % 256) as char);
      } else if t.conv == 's' {
        if t.arg.Str? {
          PutString(t.f, t.width, t.prec, t.arg.s);
        }
      } else if t.conv == 'p' {
        NumStr(IntOf([t.arg]), 16, if t.width == -1 then 8 else t.width, t.prec, PointerFlags(t, false));
      } else if IsNumber(t.conv) {
        NumStr(Convert(t.len, IntOf([t.arg])), TaskBase(t), t.width, t.prec, TaskFlags(t));
      }
    }

    method Emit(e: Emission)
      requires Valid()
      modifies this`size, this`nprinted, this`chunks, wbuf
      ensures Valid() && Stream() == old(Stream()) + EmissionText(e, UserText)
    {
      match e {
        case Nothing =>
        case Character(c) => Put(c);
        case Conversion(t) => Perform(t);
      }
    }

    /** `vdprintf`: prints the format's output and, unlike `vsprintf`, also the NUL, which it counts. */
    method Vdprintf(fmt: string, args: seq<Arg>, ghost items: seq<Item>) returns (n: nat)
      requires Valid() && ItemsOk(items) && fmt == Text(items)
      modifies this, wbuf
      ensures Valid() && size == 0 && n == |Output(items, NO_FLAGS, args, UserText)| + 1
      ensures Flat(chunks) == old(Stream()) + Output(items, NO_FLAGS, args, UserText) + ['\0']
    {
      before, nprinted := |Stream()|, 0;
      ghost var s0, all := Stream(), Output(items, NO_FLAGS, args, UserText);
      var m := new Machine(fmt, args, items);
      WholeEnds(s0, items, NO_FLAGS, args, UserText);
      while m.i < |fmt|
        invariant Valid() && m.Valid() && m.items == items && m.fmt == fmt && fresh(m) && m.k <= |items|
        invariant before == |s0| && Whole(Stream(), items, m.k, m.f0, m.a0, UserText) == s0 + all
        decreases |fmt| - m.i, m.Rank()
      {
        ghost var s, k, f0, a0 := Stream(), m.k, m.f0, m.a0;
        var e := m.Step();
        MovesOutput(s, items, e, k, f0, a0, m.k, m.f0, m.a0, UserText);
        Emit(e);
      }
      m.AtTheEnd();
      WholeEnds(Stream(), items, m.f0, m.a0, UserText);
      Put('\0');
      Flush();
      return nprinted;
    }
  }

  /** The output pointer of `vsprintf`. */
  class KBuf {
    const buf: array<char>
    var pos: nat

    ghost predicate Valid()
      reads this
    {
      pos <= buf.Length
    }

    /** Everything printed. */
    ghost function Stream(): string
      reads this, buf
      requires Valid()
    {
      buf[..pos]
    }

    /** The caller's buffer has n characters left: the code does not check. */
    ghost predicate Room(n: int)
      reads this
    {
      pos + n <= buf.Length
    }

    constructor (buf: array<char>)
      ensures this.buf == buf && pos == 0 && Valid() && Stream() == []
    {
      this.buf, pos := buf, 0;
    }

    method Put(c: char)
      requires Valid() && Room(1)
      modifies this`pos, buf
      ensures Valid() && Stream() == old(Stream()) + [c]
    {
      buf[pos] := c;
      pos := pos + 1;
    }

    /** A run of `while (n-- > 0)`. */
    method Pad(c: char, n: int) returns (left: int)
      requires Valid() && Room(Max(n, 0))
      modifies this`pos, buf
      ensures Valid() && Stream() == old(Stream()) + Rep(c, n) && left == (if n > 0 then -1 else n - 1)
    {
      left := n;
      while left > 0
        invariant Valid() && left <= n && (n >= 0 ==> left >= 0) && (n < 0 ==> left == n) && Room(Max(left, 0))
        invariant Stream() == old(Stream()) + Rep(c, n - left)
        decreases left
      {
        OneMore(old(Stream()), c, n - left);
        Put(c);
        left := left - 1;
      }
      left := left - 1;
    }

    /** The digits, from the end of the scratch area. */
    method PutDigits(tmp: array<char>, i: nat)
      requires Valid() && i <= tmp.Length && tmp != buf && Room(i)
      modifies this`pos, buf
      ensures Valid() && Stream() == old(Stream()) + Reversed(tmp[..i])
    {
      var n: nat := i;
      while n > 0
        invariant Valid() && n <= i && tmp[..] == old(tmp[..]) && Room(n)
        invariant Stream() + Reversed(tmp[..n]) == old(Stream()) + Reversed(tmp[..i])
      {
        n := n - 1;
        PeelLast(Stream(), tmp[..n + 1]);
        Put(tmp[n]);
        assert tmp[..n + 1][..n] == tmp[..n];
      }
    }

    method PutPrefix(base: int, f: Flags)
      requires Valid() && Room(|Prefix(base, f)|)
      modifies this`pos, buf
      ensures Valid() && Stream() == old(Stream()) + Prefix(base, f)
    {
      if f.special {
        if base == 8 {
          Put('0');
        } else if base == 16 {
          Put('0');
          Put(Digit(33, f.small));
        }
      }
    }

    /** The printing half of `numstr`: w is what is left of the width. */
    method PutNumber(sign: char, base: int, f: Flags, w: int, zeros: int, tmp: array<char>, i: nat)
      requires Valid() && i <= tmp.Length && tmp != buf
      requires Room((if sign == '\0' then 0 else 1) + |Prefix(base, f)| + zeros + i + Max(w, 0)) && zeros >= 0
      modifies this`pos, buf
      ensures Valid() && Stream() == Printed(old(Stream()), sign, base, f, w, zeros, Reversed(old(tmp[..i])))
    {
      ghost var s0 := Stream();
      var left := w;
      if !f.left && !f.zero {
        left := Pad(' ', left);
      }
      assert Stream() == s0 + Rep(' ', FrontPad(w, f));
      if sign != '\0' { Put(sign); }
      assert Stream() == s0 + Rep(' ', FrontPad(w, f)) + if sign == '\0' then [] else [sign];
      PutPrefix(base, f);
      ghost var s1 := Stream();
      if !f.left {
        left := Pad(if f.zero then '0' else ' ', left);
      }
      assert Stream() == s1 + Rep(if f.zero then '0' else ' ', MiddlePad(w, f));
      var _ := Pad('0', zeros);
      ReversedLength(tmp[..i]);
      PutDigits(tmp, i);
      var _ := Pad(' ', left);
    }

    /** `numstr`; a base it has no digits for makes it return NULL. */
    method NumStr(number: int32, base: int, width: int, prec: int, f: Flags) returns (ok: bool)
      requires Valid() && (2 <= base <= 36 ==> Room(|NumText(number, base, width, prec, f)|))
      modifies this`pos, buf
      ensures Valid() && ok == (2 <= base <= 36)
      ensures Stream() == old(Stream()) + if ok then NumText(number, base, width, prec, f) else []
    {
      if base < 2 || base > 36 { return false; }
      NumStrIn(number, base, width, prec, f);
      return true;
    }

    /** `numstr` for a base it has digits for. */
    method NumStrIn(number: int32, base: int, width: int, prec: int, f: Flags)
      requires Valid() && 2 <= base <= 36 && Room(|NumText(number, base, width, prec, f)|)
      modifies this`pos, buf
      ensures Valid() && Stream() == old(Stream()) + NumText(number, base, width, prec, f)
    {
      var sign, w, zeros, tmp, i := Prepare(number, base, width, prec, f);
      PutNumber(sign, base, f, w, zeros, tmp, i);
    }

    /** `while (--width > 0)` with blanks. */
    method PadDown(width: int) returns (left: int)
      requires Valid() && Room(Max(width - 1, 0))
      modifies this`pos, buf
      ensures Valid() && Stream() == old(Stream()) + Rep(' ', width - 1) && left == (if width > 1 then 0 else width - 1)
    {
      var n := Pad(' ', width - 1);
      left := n + 1;
    }

    /** %c. */
    method PutChar(f: Flags, width: int, c: char)
      requires Valid() && Room(Max(width, 1))
      modifies this`pos, buf
      ensures Valid() && Stream() == old(Stream()) + Justified(f, width, [c])
    {
      var w := width;
      if !f.left {
        w := PadDown(w);
      }
      Put(c);
      w := PadDown(w);
    }

    method PutChars(s: string, slen: nat)
      requires Valid() && slen <= |s| && Room(slen)
      modifies this`pos, buf
      ensures Valid() && Stream() == old(Stream()) + s[..slen]
    {
      ghost var s0 := Stream();
      for i := 0 to slen
        invariant Valid() && Stream() == s0 + s[..i] && Room(slen - i)
      {
        Put(s[i]);
        assert s[..i + 1] == s[..i] + [s[i]];
      }
    }

    /** %s. */
    method PutString(f: Flags, width: int, prec: int, s: string)
      requires Valid() && Room(Max(width, |Clip(s, prec)|))
      modifies this`pos, buf
      ensures Valid() && Stream() == old(Stream()) + Justified(f, width, Clip(s, prec))
    {
      var slen := if 0 <= prec < |s| then prec else |s|;
      assert s[..slen] == Clip(s, prec);
      JustifiedPieces(Stream(), f, width, s[..slen]);
      var w := width - slen;
      if !f.left {
        w := Pad(' ', w);
      }
      PutChars(s, slen);
      w := Pad(' ', w);
    }

    /** Case 5. */
    method Perform(t: Task)
      requires Valid() && Room(|KernelText(t)|)
      modifies this`pos, buf
      ensures Valid() && Stream() == old(Stream()) + KernelText(t)
    {
      if t.conv == 'c' {
        PutChar(t.f, t.width, (IntOf([t.arg]) % 256) as char);
      } else if t.conv == 's' {
        if t.arg.Str? {
          PutString(t.f, t.width, t.prec, t.arg.s);
        }
      } else if t.conv == 'p' {
        var _ := NumStr(IntOf([t.arg]), 16, if t.width == -1 then 8 else t.width, t.prec, PointerFlags(t, true));
      } else if IsNumber(t.conv) {
        var _ := NumStr(Convert(t.len, IntOf([t.arg])), TaskBase(t), t.width, t.prec, TaskFlags(t));
      }
    }

    method Emit(e: Emission)
      requires Valid() && Room(|EmissionText(e, KernelText)|)
      modifies this`pos, buf
      ensures Valid() && Stream() == old(Stream()) + EmissionText(e, KernelText)
    {
      match e {
        case Nothing =>
        case Character(c) => Put(c);
        case Conversion(t) => Perform(t);
      }
    }
  }

  /** `vsprintf`: the buffer holds the format's output and a NUL, and the length is returned. */
  method Vsprintf(buf: array<char>, fmt: string, args: seq<Arg>, ghost items: seq<Item>) returns (n: nat)
    requires ItemsOk(items) && fmt == Text(items) && |Output(items, NO_FLAGS, args, KernelText)| < buf.Length
    modifies buf
    ensures n == |Output(items, NO_FLAGS, args, KernelText)|
    ensures n < buf.Length && buf[..n] == Output(items, NO_FLAGS, args, KernelText) && buf[n] == '\0'
  {
    ghost var all := Output(items, NO_FLAGS, args, KernelText);
    var out := new KBuf(buf);
    var m := new Machine(fmt, args, items);
    WholeEnds([], items, NO_FLAGS, args, KernelText);
    while m.i < |fmt|
      invariant out.Valid() && m.Valid() && m.items == items && m.fmt == fmt && fresh(m) && fresh(out) && out.buf == buf
      invariant m.k <= |items| && Whole(out.Stream(), items, m.k, m.f0, m.a0, KernelText) == all
      decreases |fmt| - m.i, m.Rank()
    {
      ghost var s, k, f0, a0 := out.Stream(), m.k, m.f0, m.a0;
      var e := m.Step();
      MovesOutput(s, items, e, k, f0, a0, m.k, m.f0, m.a0, KernelText);
      WholeLength(s, e, items, m.k, m.f0, m.a0, KernelText);
      out.Emit(e);
    }
    m.AtTheEnd();
    WholeEnds(out.Stream(), items, m.f0, m.a0, KernelText);
    buf[out.pos] := '\0';
    return out.pos;
  }

  lemma WholeLength(s: string, e: Emission, items: seq<Item>, k: nat, f: Flags, args: seq<Arg>, show: Task -> string)
    requires ItemsOk(items) && k <= |items|
    ensures |Whole(s + EmissionText(e, show), items, k, f, args, show)| >= |s| + |EmissionText(e, show)|
  {
  }
}
