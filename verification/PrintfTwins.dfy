/** Where the two printf engines part: %p. */
module PrintfTwins {
  import opened PrintfSpec
  import opened PrintfFormat

  /** How many x there are in s. */
  function Xs(s: string): nat { multiset(s)['x'] }

  lemma XsJoin(s: string, t: string)
    ensures Xs(s + t) == Xs(s) + Xs(t)
  {
  }

  lemma NoXs(s: string)
    requires forall k :: 0 <= k < |s| ==> s[k] != 'x'
    ensures Xs(s) == 0
  {
    assert 'x' !in s;
  }

  lemma {:induction false} HexHasNone(num: nat)
    ensures Xs(Digits(num, 16, true)) == 0
    decreases num
  {
    if num < 16 {
      NoXs([Digit(num, true)]);
    } else {
      HexHasNone(num / 16);
      NoXs([Digit(num % 16, true)]);
      XsJoin(Digits(num / 16, 16, true), [Digit(num % 16, true)]);
    }
  }

  lemma FiguresHaveNone(n: int, prec: int, f: Flags, zeros: int, blanks: int)
    requires f.small
    ensures Xs(Padded(n, 16, prec, f, zeros, blanks)) == 0
  {
    var ds := Digits(Magnitude(n, f.sign), 16, true);
    HexHasNone(Magnitude(n, f.sign));
    NoXs(Rep('0', prec - |ds|));
    XsJoin(Rep('0', prec - |ds|), ds);
    NoXs(Rep('0', zeros));
    XsJoin(Rep('0', zeros), Figures(n, 16, prec, f));
    NoXs(Rep(' ', blanks));
    XsJoin(Rep('0', zeros) + Figures(n, 16, prec, f), Rep(' ', blanks));
  }

  /** A number in small hexadecimal holds an x exactly when it has the prefix. */
  lemma HexXs(n: int, width: int, prec: int, f: Flags)
    requires f.small
    ensures Xs(NumText(n, 16, width, prec, f)) == if f.special then 1 else 0
  {
    var front, zeros, blanks := NumTextLayout(n, 16, width, prec, f);
    PartsXs(n, prec, f, front, zeros, blanks);
  }

  lemma SignXs(n: int, f: Flags)
    ensures Xs(SignText(n, f)) == 0
  {
    NoXs(SignText(n, f));
  }

  lemma PartsXs(n: int, prec: int, f: Flags, front: int, zeros: int, blanks: int)
    requires f.small
    ensures Xs(Rep(' ', front) + (SignText(n, f) + (Prefix(16, f) + Padded(n, 16, prec, f, zeros, blanks)))) == if f.special then 1 else 0
  {
    FiguresHaveNone(n, prec, f, zeros, blanks);
    NoXs(Rep(' ', front));
    SignXs(n, f);
    PrefixXs(f);
    FourParts(Rep(' ', front), SignText(n, f), Prefix(16, f), Padded(n, 16, prec, f, zeros, blanks));
  }

  lemma FourParts(a: string, b: string, c: string, d: string)
    ensures Xs(a + (b + (c + d))) == Xs(a) + Xs(b) + Xs(c) + Xs(d)
  {
    XsJoin(c, d);
    XsJoin(b, c + d);
    XsJoin(a, b + (c + d));
  }

  lemma PrefixXs(f: Flags)
    requires f.small
    ensures Xs(Prefix(16, f)) == if f.special then 1 else 0
  {
    if f.special {
      assert Prefix(16, f) == ['0'] + ['x'];
      XsJoin(['0'], ['x']);
    }
  }

  predicate IsPointer(it: Item) { it.Directive? && it.conv == 'p' }

  /** %p directives that do not ask for the prefix themselves. */
  function Differing(items: seq<Item>, f: Flags): nat
    decreases |items|
  {
    if items == [] then 0
    else (if IsPointer(items[0]) && !Settle(ApplyFlags(f, items[0].fl)).special then 1 else 0)
         + Differing(items[1..], FlagsAfter(items[0], f))
  }

  lemma ItemTwins(it: Item, f: Flags, args: seq<Arg>)
    requires ItemOk(it)
    ensures var d := if IsPointer(it) && !Settle(ApplyFlags(f, it.fl)).special then 1 else 0;
            && Xs(ItemOutput(it, f, args, KernelText)) == Xs(ItemOutput(it, f, args, UserText)) + d
            && (d == 0 ==> ItemOutput(it, f, args, KernelText) == ItemOutput(it, f, args, UserText))
  {
    if IsPointer(it) {
      var t := TaskOf(it, f, args);
      HexXs(IntOf([t.arg]), PointerWidth(t), t.prec, PointerFlags(t, false));
      HexXs(IntOf([t.arg]), PointerWidth(t), t.prec, PointerFlags(t, true));
    }
  }

  lemma {:induction false} CountTwins(items: seq<Item>, f: Flags, args: seq<Arg>)
    requires ItemsOk(items)
    ensures Xs(Output(items, f, args, KernelText)) == Xs(Output(items, f, args, UserText)) + Differing(items, f)
    ensures Differing(items, f) == 0 ==> Output(items, f, args, KernelText) == Output(items, f, args, UserText)
    decreases |items|
  {
    if items != [] {
      var it, more := items[0], items[1..];
      var f', args' := FlagsAfter(it, f), ArgsAfter(it, args);
      ItemTwins(it, f, args);
      CountTwins(more, f', args');
      OutputHead(items, more, f, args, KernelText);
      OutputHead(items, more, f, args, UserText);
      XsJoin(ItemOutput(it, f, args, KernelText), Output(more, f', args', KernelText));
      XsJoin(ItemOutput(it, f, args, UserText), Output(more, f', args', UserText));
    }
  }

  /** For every format and all arguments the two engines print the same exactly when every %p asks for its prefix. */
  lemma TwinsAgreeIff(items: seq<Item>, args: seq<Arg>)
    requires ItemsOk(items)
    ensures Output(items, NO_FLAGS, args, KernelText) == Output(items, NO_FLAGS, args, UserText) <==> Differing(items, NO_FLAGS) == 0
  {
    CountTwins(items, NO_FLAGS, args);
  }
}
