/** When flags written in a format reach beyond it: only a conversion clears them, so flags between the two `%` of a
    literal per cent stay in force. */
module PrintfFlags {
  import opened PrintfSpec
  import opened PrintfFormat

  lemma {:induction false} ApplyKeeps(f: Flags, fl: string)
    requires FlagsOk(fl)
    ensures ApplyFlags(f, fl) == NO_FLAGS <==> f == NO_FLAGS && fl == []
    ensures fl == [] || ApplyFlags(f, fl) != NO_FLAGS
    decreases |fl|
  {
    if fl != [] {
      ApplyKeeps(f, fl[..|fl| - 1]);
    }
  }

  /** No `%` with flags follows the last directive. */
  predicate NothingPending(items: seq<Item>)
    decreases |items|
  {
    items == [] || items[|items| - 1].Directive? ||
      ((items[|items| - 1].Percent? ==> items[|items| - 1].fl == []) && NothingPending(items[..|items| - 1]))
  }

  lemma {:induction false} PendingLast(items: seq<Item>, f: Flags)
    requires items != []
    ensures Pending(items, f) == FlagsAfter(items[|items| - 1], Pending(items[..|items| - 1], f))
    decreases |items|
  {
    if |items| > 1 {
      assert items[..|items| - 1][1..] == items[1..][..|items| - 2];
      PendingLast(items[1..], FlagsAfter(items[0], f));
    }
  }

  lemma {:induction false} PendingNone(items: seq<Item>)
    requires ItemsOk(items)
    ensures Pending(items, NO_FLAGS) == NO_FLAGS <==> NothingPending(items)
    decreases |items|
  {
    if items != [] {
      var last, front := items[|items| - 1], items[..|items| - 1];
      PendingLast(items, NO_FLAGS);
      PendingNone(front);
      assert ItemOk(last);
      if last.Percent? {
        ApplyKeeps(Pending(front, NO_FLAGS), last.fl);
      }
    }
  }

  // ---------------------------------------------------------------- pending flags show

  /** Flags that can be pending: '+' sets two of them, and nothing sets FL_SMALL for long. */
  predicate Seen(f: Flags) { f.sign == f.plus && !f.small }

  lemma {:induction false} ApplySeen(f: Flags, fl: string)
    requires Seen(f)
    ensures Seen(ApplyFlags(f, fl))
    decreases |fl|
  {
    if fl != [] {
      ApplySeen(f, fl[..|fl| - 1]);
    }
  }

  lemma {:induction false} PendingSeen(items: seq<Item>, f: Flags)
    requires Seen(f)
    ensures Seen(Pending(items, f))
    decreases |items|
  {
    if items != [] {
      if items[0].Percent? {
        ApplySeen(f, items[0].fl);
      }
      PendingSeen(items[1..], FlagsAfter(items[0], f));
    }
  }

  const HEX: Item := Directive("", Absent, false, Absent, NoLen, 'x')

  function Dec(ds: string): Item { Directive("", Written(ds), false, Absent, NoLen, 'd') }

  /** What `%x` is asked to print. */
  lemma HexTask(f: Flags, n: int32)
    ensures ItemOk(HEX) && TaskOf(HEX, f, [Int(n)]) == Task('x', Settle(f), -1, -1, NoLen, Int(n))
    ensures TaskText(Task('x', Settle(f), -1, -1, NoLen, Int(n))) == NumText(n, 16, -1, -1, Settle(f).(small := true))
  {
  }

  /** What `%<width>d` is asked to print, for a width of one digit. */
  lemma DecTask(f: Flags, w: char, n: int32)
    requires '1' <= w <= '9'
    ensures ItemOk(Dec([w])) && TaskOf(Dec([w]), f, [Int(n)]) == Task('d', Settle(f), (w - '0') as int, -1, NoLen, Int(n))
    ensures TaskText(Task('d', Settle(f), (w - '0') as int, -1, NoLen, Int(n))) ==
            NumText(n, 10, (w - '0') as int, -1, Settle(f).(sign := true))
  {
    assert [w][..0] == [] && Atoi([]) == 0;
    assert Atoi([w]) == Atoi([w][..0]) * 10 + (w - '0') as int;
  }

  /** '+', ' ' and '#' make `%x` longer. */
  lemma HexLonger(f: Flags)
    requires f.plus || f.space || f.special
    ensures |NumText(1, 16, -1, -1, Settle(f).(small := true))| > 1 == |NumText(1, 16, -1, -1, Settle(NO_FLAGS).(small := true))|
  {
    var g, h := Settle(f).(small := true), Settle(NO_FLAGS).(small := true);
    NumTextLength(1, 16, -1, -1, g);
    NumTextLength(1, 16, -1, -1, h);
    assert |Digits(Magnitude(1, g.sign), 16, true)| == 1 == |Digits(Magnitude(1, h.sign), 16, true)|;
  }

  /** A digit in its field, without sign and prefix. */
  lemma DigitField(n: int32, w: nat, f: Flags)
    requires 0 <= n < 10 && w >= 1 && !f.plus && !f.space && !f.special
    ensures NumText(n, 10, w, -1, f) ==
            if f.left then [Digit(n, false)] + Rep(' ', w - 1)
            else Rep(if f.zero then '0' else ' ', w - 1) + [Digit(n, false)]
  {
    assert Magnitude(n, f.sign) == n;
    assert Figures(n, 10, -1, f) == [Digit(n, false)] by {
      assert Rep('0', -2) == [];
    }
    assert SignText(n, f) + Prefix(10, f) == [];
  }

  /** '-' and '0' move the digit of `%2d` or change what stands before it. */
  lemma DecDiffers(f: Flags)
    requires Seen(f) && !f.plus && !f.space && !f.special && (f.left || f.zero)
    ensures NumText(1, 10, 2, -1, Settle(f).(sign := true)) != NumText(1, 10, 2, -1, Settle(NO_FLAGS).(sign := true))
  {
    DigitField(1, 2, Settle(f).(sign := true));
    DigitField(1, 2, Settle(NO_FLAGS).(sign := true));
    assert NumText(1, 10, 2, -1, Settle(NO_FLAGS).(sign := true))[0] == ' ';
    assert NumText(1, 10, 2, -1, Settle(f).(sign := true))[0] == if f.left then '1' else '0';
  }

  /** For every set of pending flags there is a conversion whose text they change. */
  lemma Witness(f: Flags) returns (it: Item)
    requires Seen(f) && f != NO_FLAGS
    ensures it.Directive? && ItemOk(it) && it.conv != 'p'
    ensures TaskText(TaskOf(it, f, [Int(1)])) != TaskText(TaskOf(it, NO_FLAGS, [Int(1)]))
  {
    if f.plus || f.space || f.special {
      it := HEX;
      HexTask(f, 1);
      HexTask(NO_FLAGS, 1);
      HexLonger(f);
    } else {
      it := Dec("2");
      DecTask(f, '2', 1);
      DecTask(NO_FLAGS, '2', 1);
      DecDiffers(f);
    }
  }

  lemma OneOutput(it: Item, f: Flags, args: seq<Arg>, show: Task -> string)
    requires ItemOk(it) && it.Directive?
    ensures Output([it], f, args, show) == show(TaskOf(it, f, args))
  {
    assert [it][1..] == [];
  }

  // ---------------------------------------------------------------- arguments used up

  function Uses(it: Item): nat {
    if it.Directive? then (if it.width == Star then 1 else 0) + (if it.prec == Star then 1 else 0) + (if Takes(it.conv) then 1 else 0)
    else 0
  }

  function AllUse(items: seq<Item>): nat { if items == [] then 0 else Uses(items[0]) + AllUse(items[1..]) }

  lemma ItemLeaves(it: Item, args: seq<Arg>)
    requires Uses(it) <= |args|
    ensures ArgsAfter(it, args) == args[Uses(it)..]
  {
  }

  /** The arguments a format does not use are left for the next. */
  lemma {:induction false} Leaves(items: seq<Item>, args: seq<Arg>)
    requires AllUse(items) <= |args|
    ensures Left(items, args) == args[AllUse(items)..]
    decreases |items|
  {
    if items != [] {
      ItemLeaves(items[0], args);
      Leaves(items[1..], args[Uses(items[0])..]);
    }
  }

  // ---------------------------------------------------------------- the theorem

  /** ys after xs prints what it prints alone. */
  ghost predicate PrintsAlone(xs: seq<Item>, ys: seq<Item>, args: seq<Arg>, show: Task -> string)
    requires ItemsOk(xs) && ItemsOk(ys) && ItemsOk(xs + ys)
  {
    Output(xs + ys, NO_FLAGS, args, show) == Output(xs, NO_FLAGS, args, show) + Output(ys, NO_FLAGS, Left(xs, args), show)
  }

  /** Whatever follows xs, with whatever arguments, prints what it prints alone. */
  ghost predicate Independent(xs: seq<Item>, show: Task -> string)
    requires ItemsOk(xs)
  {
    forall ys, args {:trigger PrintsAlone(xs, ys, args, show)} :: ItemsOk(ys) && ItemsOk(xs + ys) ==> PrintsAlone(xs, ys, args, show)
  }

  /** Whatever follows a format prints what it prints alone exactly when no `%` with flags comes after the format's last
      conversion. */
  lemma PendingIff(xs: seq<Item>)
    requires ItemsOk(xs)
    ensures Independent(xs, UserText) <==> NothingPending(xs)
    ensures Independent(xs, KernelText) <==> NothingPending(xs)
  {
    PendingNone(xs);
    if NothingPending(xs) {
      NothingLeaks(xs, UserText);
      NothingLeaks(xs, KernelText);
    } else {
      PendingSeen(xs, NO_FLAGS);
      var it := Witness(Pending(xs, NO_FLAGS));
      Dependent(xs, it, UserText);
      Dependent(xs, it, KernelText);
    }
  }

  lemma NothingLeaks(xs: seq<Item>, show: Task -> string)
    requires ItemsOk(xs) && Pending(xs, NO_FLAGS) == NO_FLAGS
    ensures Independent(xs, show)
  {
    forall ys, args | ItemsOk(ys) && ItemsOk(xs + ys)
      ensures PrintsAlone(xs, ys, args, show)
    {
      OutputJoins(xs, ys, NO_FLAGS, args, show);
    }
  }

  /** A conversion whose text the pending flags change does not print what it prints alone. */
  lemma Dependent(xs: seq<Item>, it: Item, show: Task -> string)
    requires ItemsOk(xs) && ItemOk(it) && it.Directive?
    requires show(TaskOf(it, Pending(xs, NO_FLAGS), [Int(1)])) != show(TaskOf(it, NO_FLAGS, [Int(1)]))
    ensures !Independent(xs, show)
  {
    var f, args := Pending(xs, NO_FLAGS), seq(AllUse(xs), _ => Null) + [Int(1)];
    Leaves(xs, args);
    assert args[AllUse(xs)..] == [Int(1)];
    OutputJoins(xs, [it], NO_FLAGS, args, show);
    OneOutput(it, f, [Int(1)], show);
    OneOutput(it, NO_FLAGS, [Int(1)], show);
    SameFront(Output(xs, NO_FLAGS, args, show), Output([it], f, [Int(1)], show), Output([it], NO_FLAGS, [Int(1)], show));
    assert !PrintsAlone(xs, [it], args, show);
  }

  lemma SameFront(a: string, b: string, c: string)
    ensures a + b == a + c ==> b == c
  {
    assert b == (a + b)[|a|..] && c == (a + c)[|a|..];
  }

  lemma TwoTexts(x: Item, y: Item, write: Item -> string)
    ensures TextBy([x, y], write) == write(x) + write(y)
  {
    assert [x, y][1..] == [y] && [y][1..] == [];
    assert TextBy([y], write) == write(y) + [] == write(y);
  }

  lemma TwoOutputs(fl: string, it: Item, args: seq<Arg>, show: Task -> string)
    requires FlagsOk(fl) && ItemOk(it) && it.Directive?
    ensures ItemsOk([Percent(fl), it])
    ensures Output([Percent(fl), it], NO_FLAGS, args, show) == "%" + show(TaskOf(it, ApplyFlags(NO_FLAGS, fl), args))
  {
    assert [Percent(fl), it][1..] == [it];
    OutputHead([Percent(fl), it], [it], NO_FLAGS, args, show);
    OneOutput(it, ApplyFlags(NO_FLAGS, fl), args, show);
  }

  /** The texts of the two formats below. */
  lemma LeakTexts()
    ensures Text([Percent("-"), Dec("3")]) == "%-%%3d" && Text([Percent(""), Dec("3")]) == "%%%3d"
  {
    TwoTexts(Percent("-"), Dec("3"), ItemText);
    TwoTexts(Percent(""), Dec("3"), ItemText);
    assert ItemText(Percent("-")) == "%-%" && ItemText(Percent("")) == "%%" && ItemText(Dec("3")) == "%3d";
  }

  lemma LeakOutput(fl: string, f: Flags)
    requires FlagsOk(fl) && f == ApplyFlags(NO_FLAGS, fl)
    ensures ItemsOk([Percent(fl), Dec("3")])
    ensures Output([Percent(fl), Dec("3")], NO_FLAGS, [Int(7)], UserText) == "%" + NumText(7, 10, 3, -1, Settle(f).(sign := true))
  {
    DecTask(f, '3', 7);
    TwoOutputs(fl, Dec("3"), [Int(7)], UserText);
  }

  lemma SevenFields()
    ensures NumText(7, 10, 3, -1, Settle(NO_FLAGS.(left := true)).(sign := true)) == "7  "
    ensures NumText(7, 10, 3, -1, Settle(NO_FLAGS).(sign := true)) == "  7"
  {
    DigitField(7, 3, Settle(NO_FLAGS.(left := true)).(sign := true));
    DigitField(7, 3, Settle(NO_FLAGS).(sign := true));
    assert Rep(' ', 2) == "  " && Digit(7, false) == '7';
  }

  /** So `%-%` turns a `%3d` after it, which is right-justified, into a left-justified one. */
  lemma FlagsLeak()
    ensures ItemsOk([Percent("-"), Dec("3")]) && ItemsOk([Percent(""), Dec("3")])
    ensures Text([Percent("-"), Dec("3")]) == "%-%%3d" && Output([Percent("-"), Dec("3")], NO_FLAGS, [Int(7)], UserText) == "%7  "
    ensures Text([Percent(""), Dec("3")]) == "%%%3d" && Output([Percent(""), Dec("3")], NO_FLAGS, [Int(7)], UserText) == "%  7"
  {
    LeakTexts();
    SevenFields();
    assert "-"[..0] == [] && ApplyFlags(NO_FLAGS, "-") == NO_FLAGS.(left := true);
    LeakOutput("-", NO_FLAGS.(left := true));
    LeakOutput("", NO_FLAGS);
    assert "%" + "7  " == "%7  " && "%" + "  7" == "%  7";
  }
}
