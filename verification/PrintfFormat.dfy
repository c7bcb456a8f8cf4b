/** The meaning of format strings, item by item, and the state machine that both printf engines run over them. */
module PrintfFormat {
  import opened PrintfSpec

  // ---------------------------------------------------------------- format strings

  /** A width or precision: none, a number, or an argument. */
  datatype Num = Absent | Written(ds: string) | Star

  datatype Len = NoLen | Long | Short

  datatype Item =
    | Lit(c: char)
    | Percent(fl: string)
    | Directive(fl: string, width: Num, dot: bool, prec: Num, len: Len, conv: char)

  predicate IsFlag(c: char) { c == '-' || c == '0' || c == '+' || c == ' ' || c == '#' }

  predicate IsDigit(c: char) { '0' <= c <= '9' }

  predicate IsNumber(c: char) { c == 'd' || c == 'i' || c == 'u' || c == 'o' || c == 'x' || c == 'X' }

  /** Conversions that take an argument; an unknown one takes none and prints nothing. */
  predicate Takes(c: char) { IsNumber(c) || c == 'c' || c == 's' || c == 'p' }

  /** The character that ends a directive; %n, %f and %F are not modelled. */
  predicate IsConv(c: char) {
    && c != '\0' && !IsFlag(c) && !IsDigit(c) && c != '*' && c != '.' && c != '%' && c != 'l' && c != 'h'
    && c != 'n' && c != 'f' && c != 'F'
  }

  predicate AllDigits(ds: string) { forall i :: 0 <= i < |ds| ==> IsDigit(ds[i]) }

  predicate NumOk(n: Num) { n.Written? ==> n.ds != [] && AllDigits(n.ds) }

  predicate FlagsOk(fl: string) { forall i :: 0 <= i < |fl| ==> IsFlag(fl[i]) }

  predicate ItemOk(it: Item) {
    match it
    case Lit(c) => c != '%' && c != '\0'
    case Percent(fl) => FlagsOk(fl)
    case Directive(fl, width, dot, prec, _, conv) =>
      && FlagsOk(fl) && NumOk(width) && (width.Written? ==> width.ds[0] != '0')
      && NumOk(prec) && (!dot ==> prec == Absent) && IsConv(conv)
  }

  function NumWritten(n: Num): string { match n case Absent => "" case Written(ds) => ds case Star => "*" }

  function LenWritten(len: Len): string { match len case NoLen => "" case Long => "l" case Short => "h" }

  /** From the length modifier on. */
  function EndText(it: Item): string
    requires it.Directive?
  {
    LenWritten(it.len) + [it.conv]
  }

  function PrecText(it: Item): string
    requires it.Directive?
  {
    if it.dot then "." + NumWritten(it.prec) else ""
  }

  /** What follows the flags. */
  function TailText(it: Item): string
    requires !it.Lit?
  {
    if it.Percent? then "%" else NumWritten(it.width) + (PrecText(it) + EndText(it))
  }

  function ItemText(it: Item): string { if it.Lit? then [it.c] else "%" + (it.fl + TailText(it)) }

  /** The items written one after the other. */
  function TextBy(items: seq<Item>, write: Item -> string): string {
    if items == [] then "" else write(items[0]) + TextBy(items[1..], write)
  }

  function Text(items: seq<Item>): string { TextBy(items, ItemText) }

  // ---------------------------------------------------------------- their meaning

  datatype Arg = Int(n: int32) | Str(s: string) | Null

  /** The next argument as an int; one that is missing or no int, which C leaves undefined, reads as 0. */
  function IntOf(args: seq<Arg>): int32 { if args != [] && args[0].Int? then args[0].n else 0 }

  function First(args: seq<Arg>): Arg { if args == [] then Null else args[0] }

  function Tail(args: seq<Arg>): seq<Arg> { if args == [] then [] else args[1..] }

  function ApplyFlag(f: Flags, c: char): Flags {
    if c == '-' then f.(left := true)
    else if c == '0' then f.(zero := true)
    else if c == '+' then f.(plus := true, sign := true)
    else if c == ' ' then f.(space := true)
    else f.(special := true)
  }

  function ApplyFlags(f: Flags, fl: string): Flags
    decreases |fl|
  {
    if fl == [] then f else ApplyFlag(ApplyFlags(f, fl[..|fl| - 1]), fl[|fl| - 1])
  }

  /** '+' overrides ' ' and '-' overrides '0'. */
  function Settle(f: Flags): Flags { f.(space := f.space && !f.plus, zero := f.zero && !f.left) }

  function Atoi(ds: string): int
    requires AllDigits(ds)
    decreases |ds|
  {
    if ds == [] then 0 else
    assert IsDigit(ds[|ds| - 1]);
    Atoi(ds[..|ds| - 1]) * 10 + (ds[|ds| - 1] - '0') as int
  }

  function NumValue(n: Num, args: seq<Arg>): int
    requires NumOk(n)
  {
    match n case Absent => -1 case Written(ds) => Atoi(ds) case Star => IntOf(args)
  }

  function After(n: Num, args: seq<Arg>): seq<Arg> { if n == Star then Tail(args) else args }

  /** `(short)` for Short. */
  function Convert(len: Len, n: int32): int32 { if len == Short then (n + 0x8000) % 0x1_0000 - 0x8000 else n }

  /** A conversion with all it needs. */
  datatype Task = Task(conv: char, f: Flags, width: int, prec: int, len: Len, arg: Arg)

  function Clip(s: string, prec: int): string { if 0 <= prec < |s| then s[..prec] else s }

  function Justified(f: Flags, width: int, s: string): string {
    if f.left then s + Rep(' ', width - |s|) else Rep(' ', width - |s|) + s
  }

  function TaskFlags(t: Task): Flags {
    if t.conv == 'd' || t.conv == 'i' then t.f.(sign := true) else if t.conv == 'x' then t.f.(small := true) else t.f
  }

  function TaskBase(t: Task): (b: int)
    ensures 2 <= b <= 36
  {
    if t.conv == 'o' then 8 else if t.conv == 'x' || t.conv == 'X' then 16 else 10
  }

  /** What both engines print for a conversion other than %p. */
  function TaskText(t: Task): string {
    if t.conv == 'c' then Justified(t.f, t.width, [(IntOf([t.arg]) % 256) as char])
    else if t.conv == 's' then (if t.arg.Str? then Justified(t.f, t.width, Clip(t.arg.s, t.prec)) else "")
    else if IsNumber(t.conv) then NumText(Convert(t.len, IntOf([t.arg])), TaskBase(t), t.width, t.prec, TaskFlags(t))
    else ""
  }

  function PointerWidth(t: Task): int { if t.width == -1 then 8 else t.width }

  function PointerFlags(t: Task, special: bool): Flags {
    t.f.(small := true, special := t.f.special || special, zero := t.f.zero || t.width == -1)
  }

  /** %p: eight zero-padded hexadecimal digits unless told otherwise; only the kernel asks for the prefix. */
  function PointerText(t: Task, special: bool): string {
    NumText(IntOf([t.arg]), 16, PointerWidth(t), t.prec, PointerFlags(t, special))
  }

  function UserText(t: Task): string { if t.conv == 'p' then PointerText(t, false) else TaskText(t) }

  function KernelText(t: Task): string { if t.conv == 'p' then PointerText(t, true) else TaskText(t) }

  function ArgsFor(it: Item, args: seq<Arg>): seq<Arg>
    requires it.Directive?
  {
    After(it.prec, After(it.width, args))
  }

  function TaskOf(it: Item, f: Flags, args: seq<Arg>): Task
    requires it.Directive? && ItemOk(it)
  {
    Task(it.conv, Settle(ApplyFlags(f, it.fl)), NumValue(it.width, args), NumValue(it.prec, After(it.width, args)),
         it.len, First(ArgsFor(it, args)))
  }

  predicate ItemsOk(items: seq<Item>) { forall i :: 0 <= i < |items| ==> ItemOk(items[i]) }

  /** What an item prints, given how conversions are shown. */
  function ItemOutput(it: Item, f: Flags, args: seq<Arg>, show: Task -> string): string
    requires ItemOk(it)
  {
    match it
    case Lit(c) => [c]
    case Percent(_) => "%"
    case Directive(_, _, _, _, _, _) => show(TaskOf(it, f, args))
  }

  /** The flags pending after an item: only a directive clears them. */
  function FlagsAfter(it: Item, f: Flags): Flags {
    match it case Lit(_) => f case Percent(fl) => ApplyFlags(f, fl) case _ => NO_FLAGS
  }

  function ArgsAfter(it: Item, args: seq<Arg>): seq<Arg> {
    if !it.Directive? then args else if Takes(it.conv) then Tail(ArgsFor(it, args)) else ArgsFor(it, args)
  }

  /** What a format prints when flags f are pending. */
  function Output(items: seq<Item>, f: Flags, args: seq<Arg>, show: Task -> string): string
    requires ItemsOk(items)
    decreases |items|
  {
    if items == [] then ""
    else ItemOutput(items[0], f, args, show) + Output(items[1..], FlagsAfter(items[0], f), ArgsAfter(items[0], args), show)
  }

  // ---------------------------------------------------------------- putting formats together

  function Pending(items: seq<Item>, f: Flags): Flags
    decreases |items|
  {
    if items == [] then f else Pending(items[1..], FlagsAfter(items[0], f))
  }

  function Left(items: seq<Item>, args: seq<Arg>): seq<Arg>
    decreases |items|
  {
    if items == [] then args else Left(items[1..], ArgsAfter(items[0], args))
  }

  lemma {:induction false} TextJoins(xs: seq<Item>, ys: seq<Item>, write: Item -> string)
    ensures TextBy(xs + ys, write) == TextBy(xs, write) + TextBy(ys, write)
    decreases |xs|
  {
    if xs == [] {
      assert xs + ys == ys;
    } else {
      assert (xs + ys)[1..] == xs[1..] + ys;
      TextJoins(xs[1..], ys, write);
    }
  }

  lemma OutputHead(items: seq<Item>, more: seq<Item>, f: Flags, args: seq<Arg>, show: Task -> string)
    requires ItemsOk(items) && items != [] && items[1..] == more
    ensures Output(items, f, args, show) ==
            ItemOutput(items[0], f, args, show) + Output(more, FlagsAfter(items[0], f), ArgsAfter(items[0], args), show)
  {
  }

  /** A format put together from two prints what the two print, the second with the flags the first leaves pending. */
  lemma {:induction false} OutputJoins(xs: seq<Item>, ys: seq<Item>, f: Flags, args: seq<Arg>, show: Task -> string)
    requires ItemsOk(xs) && ItemsOk(ys) && ItemsOk(xs + ys)
    ensures Output(xs + ys, f, args, show) == Output(xs, f, args, show) + Output(ys, Pending(xs, f), Left(xs, args), show)
    decreases |xs|
  {
    if xs == [] {
      assert xs + ys == ys;
    } else {
      var all, more := xs + ys, xs[1..];
      assert all[1..] == more + ys && all[0] == xs[0];
      var f', args' := FlagsAfter(xs[0], f), ArgsAfter(xs[0], args);
      OutputJoins(more, ys, f', args', show);
      OutputHead(xs, more, f, args, show);
      OutputHead(all, more + ys, f, args, show);
      Associative(ItemOutput(xs[0], f, args, show), Output(more, f', args', show), Output(ys, Pending(more, f'), Left(more, args'), show));
    }
  }

  lemma Associative(a: string, b: string, c: string)
    ensures (a + b) + c == a + (b + c)
  {
  }

  // ---------------------------------------------------------------- the state machine

  datatype Emission = Nothing | Character(c: char) | Conversion(task: Task)

  function EmissionText(e: Emission, show: Task -> string): string {
    match e case Nothing => "" case Character(c) => [c] case Conversion(t) => show(t)
  }

  /** What an item makes the machine print. */
  function EmissionOf(it: Item, f: Flags, args: seq<Arg>): Emission
    requires ItemOk(it)
  {
    match it
    case Lit(c) => Character(c)
    case Percent(_) => Character('%')
    case Directive(_, _, _, _, _, _) => Conversion(TaskOf(it, f, args))
  }

  /** A pass of the loop prints nothing and stays in its item, or prints the item and goes on to the next. */
  ghost predicate Moves(items: seq<Item>, e: Emission, k: nat, f: Flags, args: seq<Arg>, k': nat, f': Flags, args': seq<Arg>)
    requires ItemsOk(items)
  {
    || (e == Nothing && k' == k && f' == f && args' == args)
    || (k < |items| && k' == k + 1 && e == EmissionOf(items[k], f, args)
        && f' == FlagsAfter(items[k], f) && args' == ArgsAfter(items[k], args))
  }

  /** What has been printed and what the items from k on will print. */
  ghost function Whole(s: string, items: seq<Item>, k: nat, f: Flags, args: seq<Arg>, show: Task -> string): string
    requires ItemsOk(items) && k <= |items|
  {
    s + Output(items[k..], f, args, show)
  }

  /** Whichever it is, what has been printed and what remains make up the same whole. */
  lemma MovesOutput(s: string, items: seq<Item>, e: Emission, k: nat, f: Flags, args: seq<Arg>, k': nat, f': Flags, args': seq<Arg>,
                    show: Task -> string)
    requires ItemsOk(items) && k <= |items| && Moves(items, e, k, f, args, k', f', args')
    ensures k' <= |items|
    ensures Whole(s, items, k, f, args, show) == Whole(s + EmissionText(e, show), items, k', f', args', show)
  {
    if e == Nothing && k' == k {
      assert s + EmissionText(e, show) == s;
    } else {
      assert items[k..][1..] == items[k + 1..];
      assert ItemOutput(items[k], f, args, show) == EmissionText(e, show);
      Associative(s, EmissionText(e, show), Output(items[k'..], f', args', show));
    }
  }

  lemma WholeEnds(s: string, items: seq<Item>, f: Flags, args: seq<Arg>, show: Task -> string)
    requires ItemsOk(items)
    ensures Whole(s, items, |items|, f, args, show) == s && Whole(s, items, 0, f, args, show) == s + Output(items, f, args, show)
  {
    assert items[0..] == items && items[|items|..] == [];
  }

  // ---------------------------------------------------------------- where the parts of an item lie

  function NumLength(n: Num): nat { match n case Absent => 0 case Written(ds) => |ds| case Star => 1 }

  function FlagsEnd(it: Item): nat
    requires !it.Lit?
  {
    1 + |it.fl|
  }

  function WidthEnd(it: Item): nat
    requires it.Directive?
  {
    FlagsEnd(it) + NumLength(it.width)
  }

  function PrecEnd(it: Item): nat
    requires it.Directive?
  {
    WidthEnd(it) + if it.dot then 1 + NumLength(it.prec) else 0
  }

  function LenEnd(it: Item): nat
    requires it.Directive?
  {
    PrecEnd(it) + if it.len == NoLen then 0 else 1
  }

  function ItemLength(it: Item): nat {
    match it case Lit(_) => 1 case Percent(_) => FlagsEnd(it) + 1 case _ => LenEnd(it) + 1
  }

  /** The characters of a width or precision lie at i. */
  ghost predicate NumChars(fmt: string, i: nat, n: Num) {
    && i + NumLength(n) <= |fmt|
    && (n == Star ==> fmt[i] == '*')
    && (n.Written? ==> forall x :: 0 <= x < |n.ds| ==> fmt[i + x] == n.ds[x])
  }

  /** Every part of the item lies where it should. */
  ghost predicate Spells(fmt: string, s: nat, it: Item) {
    && s + ItemLength(it) <= |fmt|
    && (it.Lit? ==> fmt[s] == it.c)
    && (!it.Lit? ==> fmt[s] == '%' && forall x :: 0 <= x < |it.fl| ==> fmt[s + 1 + x] == it.fl[x])
    && (it.Percent? ==> fmt[s + FlagsEnd(it)] == '%')
    && (it.Directive? ==>
          && NumChars(fmt, s + FlagsEnd(it), it.width)
          && (it.dot ==> fmt[s + WidthEnd(it)] == '.' && NumChars(fmt, s + WidthEnd(it) + 1, it.prec))
          && (it.len == Long ==> fmt[s + PrecEnd(it)] == 'l') && (it.len == Short ==> fmt[s + PrecEnd(it)] == 'h')
          && fmt[s + LenEnd(it)] == it.conv)
  }

  /** The items lie in the format one after the other from s on, item k from at[k] on. */
  ghost predicate Laid(fmt: string, s: nat, items: seq<Item>, at: seq<nat>) {
    && |at| == |items| + 1 && at[0] == s && at[|items|] == |fmt|
    && forall k {:trigger LaidAt(fmt, items, at, k)} :: 0 <= k < |items| ==> LaidAt(fmt, items, at, k)
  }

  ghost predicate LaidAt(fmt: string, items: seq<Item>, at: seq<nat>, k: nat)
    requires k < |items| < |at|
  {
    at[k] + ItemLength(items[k]) == at[k + 1] <= |fmt| && Spells(fmt, at[k], items[k])
  }

  lemma NumLies(n: Num)
    ensures |NumWritten(n)| == NumLength(n) && NumChars(NumWritten(n), 0, n)
  {
  }

  /** A number stays where it is when text is put around it. */
  lemma NumMoves(n: Num, before: string, after: string)
    ensures NumChars(before + NumWritten(n) + after, |before|, n)
  {
    NumLies(n);
    var t := before + NumWritten(n) + after;
    assert forall x :: 0 <= x < NumLength(n) ==> t[|before| + x] == NumWritten(n)[x];
    if n.Written? {
      assert forall x :: 0 <= x < |n.ds| ==> t[|before| + x] == n.ds[x];
    }
  }

  lemma LengthOfItem(it: Item)
    ensures |ItemText(it)| == ItemLength(it)
  {
  }

  lemma Cuts(a: string, b: string, c: string, d: string, e: string)
    ensures a + (b + (c + (d + e))) == (a + b) + c + (d + e) == ((a + b) + c + d) + e
  {
  }

  lemma CutsAtDot(a: string, b: string, c: string)
    ensures a + (("." + b) + c) == (a + ".") + b + c
  {
  }

  lemma FlagsLie(fl: string, rest: string)
    ensures var t := "%" + (fl + rest); t[0] == '%' && forall x :: 0 <= x < |fl| ==> t[1 + x] == fl[x]
  {
  }

  lemma WidthLies(it: Item)
    requires it.Directive?
    ensures NumChars(ItemText(it), FlagsEnd(it), it.width)
  {
    var head, rest := "%" + it.fl, PrecText(it) + EndText(it);
    Cuts("%", it.fl, NumWritten(it.width), PrecText(it), EndText(it));
    NumMoves(it.width, head, rest);
  }

  lemma PrecLies(it: Item)
    requires it.Directive? && it.dot
    ensures WidthEnd(it) < |ItemText(it)| && ItemText(it)[WidthEnd(it)] == '.'
    ensures NumChars(ItemText(it), WidthEnd(it) + 1, it.prec)
  {
    NumLies(it.width);
    var head := "%" + it.fl + NumWritten(it.width);
    Cuts("%", it.fl, NumWritten(it.width), PrecText(it), EndText(it));
    CutsAtDot(head, NumWritten(it.prec), EndText(it));
    assert ItemText(it) == (head + ".") + NumWritten(it.prec) + EndText(it);
    NumMoves(it.prec, head + ".", EndText(it));
  }

  /** What follows a text of the length of the part before. */
  lemma EndLies(front: string, it: Item)
    requires it.Directive? && |front| == PrecEnd(it)
    ensures var t := front + EndText(it);
            && |t| == ItemLength(it) && t[LenEnd(it)] == it.conv
            && (it.len == Long ==> t[PrecEnd(it)] == 'l') && (it.len == Short ==> t[PrecEnd(it)] == 'h')
  {
  }

  lemma FrontLength(it: Item)
    requires it.Directive?
    ensures |"%" + it.fl + NumWritten(it.width) + PrecText(it)| == PrecEnd(it)
  {
    NumLies(it.width);
    NumLies(it.prec);
  }

  lemma DirectiveEnds(it: Item)
    requires it.Directive?
    ensures var t := ItemText(it);
            && |t| == ItemLength(it) && t[LenEnd(it)] == it.conv
            && (it.len == Long ==> t[PrecEnd(it)] == 'l') && (it.len == Short ==> t[PrecEnd(it)] == 'h')
  {
    Cuts("%", it.fl, NumWritten(it.width), PrecText(it), EndText(it));
    FrontLength(it);
    EndLies("%" + it.fl + NumWritten(it.width) + PrecText(it), it);
  }

  /** The written directive spells itself. */
  lemma DirectiveSpells(it: Item)
    requires it.Directive?
    ensures Spells(ItemText(it), 0, it)
  {
    FlagsLie(it.fl, TailText(it));
    WidthLies(it);
    if it.dot {
      PrecLies(it);
    }
    DirectiveEnds(it);
  }

  lemma ItemSpells(it: Item)
    ensures Spells(ItemText(it), 0, it)
  {
    LengthOfItem(it);
    if it.Directive? {
      DirectiveSpells(it);
    } else if it.Percent? {
      assert ItemText(it) == "%" + it.fl + "%";
    }
  }

  lemma NumShifts(t: string, i: nat, n: Num, fmt: string, s: nat)
    requires NumChars(t, i, n) && s + |t| <= |fmt| && forall y :: s <= y < s + |t| ==> fmt[y] == t[y - s]
    ensures NumChars(fmt, s + i, n)
  {
    if n == Star {
      assert fmt[s + i] == t[i];
    }
    if n.Written? {
      forall x | 0 <= x < |n.ds|
        ensures fmt[s + i + x] == n.ds[x]
      {
        assert fmt[s + (i + x)] == t[i + x];
      }
    }
  }

  lemma SpellsShifts(t: string, it: Item, fmt: string, s: nat)
    requires Spells(t, 0, it) && s + |t| <= |fmt| && forall y :: s <= y < s + |t| ==> fmt[y] == t[y - s]
    ensures Spells(fmt, s, it)
  {
    assert fmt[s + 0] == t[0];
    if it.Directive? {
      NumShifts(t, FlagsEnd(it), it.width, fmt, s);
      assert fmt[s + LenEnd(it)] == t[LenEnd(it)] && fmt[s + PrecEnd(it)] == t[PrecEnd(it)];
      if it.dot {
        assert fmt[s + WidthEnd(it)] == t[WidthEnd(it)];
        NumShifts(t, WidthEnd(it) + 1, it.prec, fmt, s);
      }
    }
    if it.Percent? {
      assert fmt[s + FlagsEnd(it)] == t[FlagsEnd(it)];
    }
    if !it.Lit? {
      forall x | 0 <= x < |it.fl|
        ensures fmt[s + 1 + x] == it.fl[x]
      {
        assert fmt[s + (1 + x)] == t[1 + x] == it.fl[x];
      }
    }
  }

  lemma CharsHere(fmt: string, s: nat, t: string, rest: string)
    requires s <= |fmt| && fmt[s..] == t + rest
    ensures s + |t| <= |fmt| && fmt[s + |t|..] == rest && forall y :: s <= y < s + |t| ==> fmt[y] == t[y - s]
  {
    assert |fmt[s..]| == |t| + |rest|;
    assert fmt[s + |t|..] == fmt[s..][|t|..];
    forall y | s <= y < s + |t|
      ensures fmt[y] == t[y - s]
    {
      assert fmt[s..][y - s] == (t + rest)[y - s];
    }
  }

  lemma ItemHere(fmt: string, s: nat, it: Item, rest: string)
    requires s <= |fmt| && fmt[s..] == ItemText(it) + rest
    ensures Spells(fmt, s, it) && fmt[s + ItemLength(it)..] == rest
  {
    ItemSpells(it);
    LengthOfItem(it);
    CharsHere(fmt, s, ItemText(it), rest);
    SpellsShifts(ItemText(it), it, fmt, s);
  }

  lemma OneMoreItem(fmt: string, s: nat, it: Item, more: seq<Item>, rest: seq<nat>)
    requires Spells(fmt, s, it) && Laid(fmt, s + ItemLength(it), more, rest)
    ensures Laid(fmt, s, [it] + more, [s] + rest)
  {
    var items, at := [it] + more, [s] + rest;
    forall k | 0 <= k < |items|
      ensures LaidAt(fmt, items, at, k)
    {
      if k > 0 {
        assert items[k] == more[k - 1] && LaidAt(fmt, more, rest, k - 1);
      } else if more != [] {
        assert LaidAt(fmt, more, rest, 0);
      }
    }
  }

  /** Wherever `write` puts an item, the item is spelled out. */
  ghost predicate Writes(fmt: string, write: Item -> string) {
    forall s: nat, it: Item, rest: string {:trigger fmt[s..], write(it) + rest} ::
      s <= |fmt| && fmt[s..] == write(it) + rest ==> Spells(fmt, s, it) && fmt[s + ItemLength(it)..] == rest
  }

  lemma ItemTextWrites(fmt: string)
    ensures Writes(fmt, ItemText)
  {
    forall s: nat, it: Item, rest: string | s <= |fmt| && fmt[s..] == ItemText(it) + rest
      ensures Spells(fmt, s, it) && fmt[s + ItemLength(it)..] == rest
    {
      ItemHere(fmt, s, it, rest);
    }
  }

  /** Every format has a layout. */
  lemma {:induction false} LayOut(fmt: string, s: nat, items: seq<Item>, write: Item -> string) returns (at: seq<nat>)
    requires s <= |fmt| && fmt[s..] == TextBy(items, write) && Writes(fmt, write)
    ensures Laid(fmt, s, items, at)
    decreases |items|
  {
    if items == [] {
      at := [s];
      assert |fmt[s..]| == 0;
    } else {
      var it, more := items[0], items[1..];
      assert fmt[s..] == write(it) + TextBy(more, write);
      var rest := LayOut(fmt, s + ItemLength(it), more, write);
      OneMoreItem(fmt, s, it, more, rest);
      assert items == [it] + more;
      at := [s] + rest;
    }
  }

  // ---------------------------------------------------------------- reading an item

  lemma ConvIsEnd(c: char)
    requires IsConv(c)
    ensures !IsFlag(c) && !IsDigit(c) && c != '*' && c != '.' && c != '%' && c != 'l' && c != 'h'
  {
  }

  /** The character after the precision: it ends a number and a directive without `.`. */
  lemma AfterPrec(fmt: string, s: nat, it: Item)
    requires Spells(fmt, s, it) && ItemOk(it) && it.Directive?
    ensures var c := fmt[s + PrecEnd(it)];
            && !IsFlag(c) && !IsDigit(c) && c != '*' && c != '.' && c != '%'
            && (c == 'l' <==> it.len == Long) && (c == 'h' <==> it.len == Short)
  {
    ConvIsEnd(it.conv);
  }

  /** The character after the width. */
  lemma AfterWidth(fmt: string, s: nat, it: Item)
    requires Spells(fmt, s, it) && ItemOk(it) && it.Directive?
    ensures var c := fmt[s + WidthEnd(it)]; !IsFlag(c) && !IsDigit(c) && c != '*' && c != '%' && (c == '.' <==> it.dot)
  {
    AfterPrec(fmt, s, it);
  }

  /** The character after the flags. */
  lemma AfterFlags(fmt: string, s: nat, it: Item)
    requires Spells(fmt, s, it) && ItemOk(it) && it.Directive?
    ensures var c := fmt[s + FlagsEnd(it)]; !IsFlag(c) && c != '%'
  {
    AfterWidth(fmt, s, it);
    if it.width.Written? {
      assert fmt[s + FlagsEnd(it) + 0] == it.width.ds[0] && IsDigit(it.width.ds[0]);
    }
  }

  /** The character after j flags is the next flag, the closing `%`, or neither. */
  lemma AtFlag(fmt: string, s: nat, it: Item, j: nat)
    requires Spells(fmt, s, it) && ItemOk(it) && !it.Lit? && j <= |it.fl|
    ensures var c := fmt[s + 1 + j];
            && (IsFlag(c) <==> j < |it.fl|) && (j < |it.fl| ==> c == it.fl[j])
            && (c == '%' <==> j == |it.fl| && it.Percent?)
  {
    if j < |it.fl| {
      assert IsFlag(it.fl[j]) && fmt[s + 1 + j] == it.fl[j];
    } else if it.Directive? {
      AfterFlags(fmt, s, it);
    }
  }

  /** A width or precision lies at i and ends where it should. */
  ghost predicate NumAt(fmt: string, i: nat, n: Num) {
    NumOk(n) && NumChars(fmt, i, n) && i + NumLength(n) < |fmt| && !IsDigit(fmt[i + NumLength(n)]) && fmt[i + NumLength(n)] != '*'
  }

  lemma OneMoreFlag(f: Flags, fl: string, j: nat)
    requires j <= |fl|
    ensures j < |fl| ==> ApplyFlags(f, fl[..j + 1]) == ApplyFlag(ApplyFlags(f, fl[..j]), fl[j])
    ensures j == 0 ==> ApplyFlags(f, fl[..j]) == f
    ensures j == |fl| ==> fl[..j] == fl
  {
    if j < |fl| {
      assert fl[..j + 1][..j] == fl[..j];
    }
  }

  lemma {:induction false} ReadsMore(ds: string, c: char, acc: int)
    requires AllDigits(ds) && IsDigit(c)
    ensures ReadDigits(ds + [c], 10, acc) == ReadDigits(ds, 10, acc) * 10 + (c - '0') as int
    decreases |ds|
  {
    if ds == [] {
      assert ds + [c] == [c] && [c][1..] == [];
    } else {
      assert (ds + [c])[1..] == ds[1..] + [c];
      ReadsMore(ds[1..], c, acc * 10 + DigitValue(ds[0]));
    }
  }

  /** A width or precision is the number its digits write in base 10. */
  lemma {:induction false} AtoiReads(ds: string)
    requires AllDigits(ds)
    ensures Atoi(ds) == ReadDigits(ds, 10, 0)
    decreases |ds|
  {
    if ds != [] {
      var front, c := ds[..|ds| - 1], ds[|ds| - 1];
      assert ds == front + [c];
      AtoiReads(front);
      ReadsMore(front, c, 0);
    }
  }

  /** `atoi_ptr`. */
  method AtoiPtr(fmt: string, i: nat, ghost n: Num) returns (v: int, j: nat)
    requires NumAt(fmt, i, n) && n.Written?
    ensures j == i + |n.ds| && v == Atoi(n.ds) == ReadDigits(n.ds, 10, 0)
  {
    v, j := 0, i;
    ghost var m := 0;
    while IsDigit(fmt[j])
      invariant m < |n.ds| ==> fmt[i + m] == n.ds[m]
      invariant 0 <= m <= |n.ds| && j == i + m && v == Atoi(n.ds[..m])
      decreases |n.ds| - m
    {
      assert fmt[i + m] == n.ds[m];
      assert n.ds[..m + 1][..m] == n.ds[..m];
      v := v * 10 + (fmt[j] - '0') as int;
      j := j + 1;
      m := m + 1;
    }
    assert n.ds[..m] == n.ds;
    AtoiReads(n.ds);
  }

  /** Cases 2 and 3: a number, `*` or nothing. */
  method ReadNum(fmt: string, i: nat, args: seq<Arg>, ghost n: Num) returns (v: int, j: nat, left: seq<Arg>)
    requires NumAt(fmt, i, n)
    ensures j == i + NumLength(n) && v == NumValue(n, args) && left == After(n, args)
  {
    v, j, left := -1, i, args;
    assert n.Written? ==> fmt[i + 0] == n.ds[0];
    if IsDigit(fmt[i]) {
      v, j := AtoiPtr(fmt, i, n);
    } else if fmt[i] == '*' {
      v, j, left := IntOf(args), i + 1, Tail(args);
    }
  }

  /** The variables of the engines, and how far the format has been read. */
  class Machine {
    const fmt: string
    ghost const items: seq<Item>
    ghost const at: seq<nat>
    var i: nat
    var state: int
    var flags: Flags
    var width: int
    var prec: int
    var len: Len
    var args: seq<Arg>
    ghost var k: nat           // the item being read,
    ghost var j: nat           // how many of its flags have been,
    ghost var f0: Flags        // the flags pending before it
    ghost var a0: seq<Arg>     // and the arguments left for it

    ghost predicate Clear()
      reads this
    {
      width == -1 && prec == -1 && len == NoLen
    }

    /** Between items. */
    ghost predicate Between()
      reads this
    {
      k <= |items| < |at| && i == at[k] && args == a0
    }

    /** After j flags. */
    ghost predicate AtFlags()
      reads this
    {
      && k < |items| < |at| && !items[k].Lit? && j <= |items[k].fl| && i == at[k] + 1 + j && Clear() && args == a0
      && flags == ApplyFlags(f0, items[k].fl[..j])
    }

    /** After the flags of a directive. */
    ghost predicate AtSize()
      reads this
    {
      && k < |items| < |at| && items[k].Directive? && i == at[k] + FlagsEnd(items[k]) && Clear() && args == a0
      && flags == Settle(ApplyFlags(f0, items[k].fl))
    }

    /** After width and precision. */
    ghost predicate AtEnd()
      reads this
      requires ItemsOk(items)
    {
      && k < |items| < |at| && items[k].Directive? && i == at[k] + PrecEnd(items[k]) && len == NoLen
      && flags == Settle(ApplyFlags(f0, items[k].fl)) && args == ArgsFor(items[k], a0)
      && width == NumValue(items[k].width, a0) && prec == NumValue(items[k].prec, After(items[k].width, a0))
    }

    ghost predicate Valid()
      reads this
    {
      && Laid(fmt, 0, items, at) && ItemsOk(items)
      && match state
         case 0 => Between() && Clear() && flags == f0
         case 1 => AtFlags()
         case 4 => AtEnd()
         case 6 => Between() && f0 == NO_FLAGS
         case _ => false
    }

    function Rank(): nat
      reads this
    {
      match state case 6 => 3 case 0 => 2 case 1 => 1 case _ => 0
    }

    constructor (fmt: string, args: seq<Arg>, ghost items: seq<Item>)
      requires ItemsOk(items) && fmt == Text(items)
      ensures this.fmt == fmt && this.items == items && Valid() && k == 0 && f0 == NO_FLAGS && a0 == args
    {
      ItemTextWrites(fmt);
      assert fmt[0..] == fmt;
      ghost var layout := LayOut(fmt, 0, items, ItemText);
      this.fmt, this.items, this.at, this.args, i, state := fmt, items, layout, args, 0, 0;
      flags, width, prec, len := NO_FLAGS, -1, -1, NoLen;
      k, j, f0, a0 := 0, 0, NO_FLAGS, args;
    }

    /** Case 0: text is printed; `%` opens an item. */
    method StepText() returns (e: Emission)
      requires Valid() && state == 0 && i < |fmt|
      modifies this
      ensures Valid() && Moves(items, e, old(k), old(f0), old(a0), k, f0, a0)
      ensures i == old(i) + 1 && (state == 0 || (state == 1 && e == Nothing))
    {
      assert LaidAt(fmt, items, at, k);
      if fmt[i] != '%' {
        e := Character(fmt[i]);
        k := k + 1;
      } else {
        e := Nothing;
        OneMoreFlag(f0, items[k].fl, 0);
        j, state := 0, 1;
      }
      i := i + 1;
    }

    /** `%%`, perhaps with flags between. */
    method ClosePercent() returns (e: Emission)
      requires Valid() && state == 1 && j == |items[k].fl| && items[k].Percent? && i < |fmt| && fmt[i] == '%'
      modifies this
      ensures Valid() && i == old(i) + 1 && Moves(items, e, old(k), old(f0), old(a0), k, f0, a0)
    {
      assert LaidAt(fmt, items, at, k);
      OneMoreFlag(f0, items[k].fl, j);
      e := Character(fmt[i]);
      i, state := i + 1, 0;
      f0, k := flags, k + 1;
    }

    method TakeFlag()
      requires Valid() && state == 1 && j < |items[k].fl| && i < |fmt| && fmt[i] == items[k].fl[j]
      modifies this`flags, this`i, this`j
      ensures Valid() && i == old(i) + 1
    {
      OneMoreFlag(f0, items[k].fl, j);
      flags := ApplyFlag(flags, fmt[i]);
      i, j := i + 1, j + 1;
    }

    /** Case 1 up to the flags' precedence: `%`, one flag, or none. */
    method StepFlag() returns (e: Emission, more: bool)
      requires Valid() && state == 1
      modifies this
      ensures Laid(fmt, 0, items, at) && ItemsOk(items) && Moves(items, e, old(k), old(f0), old(a0), k, f0, a0)
      ensures more ==> Valid() && i == old(i) + 1
      ensures !more ==> i == old(i) && e == Nothing && AtSize()
    {
      e, more := Nothing, true;
      assert LaidAt(fmt, items, at, k);
      AtFlag(fmt, at[k], items[k], j);
      if fmt[i] == '%' {
        e := ClosePercent();
      } else if IsFlag(fmt[i]) {
        TakeFlag();
      } else {
        OneMoreFlag(f0, items[k].fl, j);
        flags := Settle(flags);
        more := false;
      }
    }

    /** Cases 2 and 3: width and precision; without a precision the machine comes back for case 4. */
    method StepSize() returns (more: bool)
      requires Laid(fmt, 0, items, at) && ItemsOk(items) && AtSize()
      modifies this`i, this`state, this`width, this`prec, this`args
      ensures i >= old(i) && state == 4 && AtEnd()
    {
      ghost var it := items[k];
      assert LaidAt(fmt, items, at, k);
      AfterWidth(fmt, at[k], it);
      AfterPrec(fmt, at[k], it);
      width, i, args := ReadNum(fmt, i, args, it.width);
      state := 4;
      if fmt[i] == '.' {
        i := i + 1;
        prec, i, args := ReadNum(fmt, i, args, it.prec);
        more := false;
      } else {
        more := true;
      }
    }

    /** Case 4: the length modifier. */
    method ReadLength()
      requires Valid() && state == 4
      modifies this`len, this`i
      ensures old(i) <= i == at[k] + LenEnd(items[k]) < |fmt| && fmt[i] == items[k].conv && len == items[k].len
    {
      assert LaidAt(fmt, items, at, k);
      AfterPrec(fmt, at[k], items[k]);
      if fmt[i] == 'l' {
        len, i := Long, i + 1;
      } else if fmt[i] == 'h' {
        len, i := Short, i + 1;
      }
    }

    /** Cases 4 and 5: length modifier and conversion. */
    method StepConvert() returns (e: Emission)
      requires Valid() && state == 4
      modifies this
      ensures Valid() && i > old(i) && Moves(items, e, old(k), old(f0), old(a0), k, f0, a0)
    {
      assert LaidAt(fmt, items, at, k);
      ReadLength();
      e := Conversion(Task(fmt[i], flags, width, prec, len, First(args)));
      args := if Takes(fmt[i]) then Tail(args) else args;
      i, state := i + 1, 6;
      k, f0, a0 := k + 1, NO_FLAGS, args;
    }

    /** One pass of the loop. */
    method Step() returns (e: Emission)
      requires Valid() && i < |fmt|
      modifies this
      ensures Valid() && Moves(items, e, old(k), old(f0), old(a0), k, f0, a0)
      ensures i >= old(i) && (i == old(i) ==> Rank() < old(Rank()))
    {
      e := Nothing;
      if state == 6 {
        state, flags, width, prec, len := 0, NO_FLAGS, -1, -1, NoLen;
        return;
      }
      if state == 0 {
        e := StepText();
        if state == 0 { return; }
      }
      var more := false;
      if state == 1 {
        e, more := StepFlag();
        if more { return; }
        more := StepSize();
      }
      if !more {
        e := StepConvert();
      }
    }

    /** When the text is used up, so are the items. */
    lemma AtTheEnd()
      requires Valid() && i >= |fmt|
      ensures k == |items|
    {
      assert k < |items| ==> LaidAt(fmt, items, at, k);
    }
  }
}
