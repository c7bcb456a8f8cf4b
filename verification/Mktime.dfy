/** The code of rlibc/time/mktime.c and rlibc/time/gmtime.c, normalising `struct tm` in place. */
module Mktime {
  import opened Arith
  import opened Layout
  import opened Calendar

  /** Representable in the 32-bit `int` and `time_t` the code computes with. */
  predicate Fits(x: int) { -INT32 <= x < INT32 }

  /** Seconds since the Epoch of a time of day on a day. */
  function Stamp(sec: int, min: int, hour: int, days: int): int { sec + 60 * min + 3600 * hour + 86400 * days }

  /** "Seconds Since the Epoch", section 4.15 of the POSIX.1-2008 Base Definitions; yday counts from 0 and year
      from 1900. */
  function Posix(sec: int, min: int, hour: int, yday: int, year: int): int {
    sec + min * 60 + hour * 3600 + yday * 86400 + (year - 70) * 31536000
      + ((year - 69) / 4) * 86400 - ((year - 1) / 100) * 86400 + ((year + 299) / 400) * 86400
  }

  /** The POSIX formula counts days. */
  lemma PosixCounts(sec: int, min: int, hour: int, m: int, d: int, year: int)
    requires year >= 70 && 0 <= m < 12
    ensures Posix(sec, min, hour, DaysBeforeMonth(IsLeap(year + 1900), m) + d - 1, year)
            == Stamp(sec, min, hour, DayNumber(year + 1900, m, d))
  {
    YearClosed(year + 1900);
    var y := year + 1899;
    assert y == (year - 69) + 4 * 492;
    DivModUnique(y, 4, (year - 69) / 4 + 492, (year - 69) % 4);
    DivModUnique(y, 100, (year - 1) / 100 + 19, (year - 1) % 100);
    DivModUnique(y, 400, (year + 299) / 400 + 4, (year + 299) % 400);
  }

  /** From 1970 on, day numbers are not negative and bound the fields they are made of. */
  lemma FieldBounds(y: int, m: int, d: int)
    requires y >= 1970 && 0 <= m < 12 && d >= 1
    ensures DayNumber(y, m, d) >= 365 * (y - 1970) + (d - 1) >= 0
    ensures DayNumber(y, m, d) >= 365 * (y - 1970) + (LeapsThrough(y - 1) - 477) + (d - 1)
    ensures LeapsThrough(y - 1) >= 477
  {
    YearClosed(y);
    if m > 0 {
      MonthOrder(IsLeap(y), 0, m);
    }
    LeapsGrow(1969, y - 1);
    assert LeapsThrough(1969) == 477;
  }

  lemma {:induction false} LeapsGrow(x: int, y: int)
    requires x <= y
    ensures LeapsThrough(x) <= LeapsThrough(y)
    decreases y - x
  {
    if x < y {
      LeapsGrow(x, y - 1);
      LeapStep(y);
    }
  }

  /** A full month later is the first of the next month. */
  lemma NextMonth(y: int, m: int, d: int)
    requires y >= 1 && 0 <= m < 12
    ensures DayNumber(y, m, d) == DayNumber(y, m + 1, d - MDays(IsLeap(y), m))
    ensures m == 11 ==> DayNumber(y, m + 1, d) == DayNumber(y + 1, 0, d)
  {
    YearIsItsMonths(y);
  }

  /** Carrying seconds, minutes and hours upwards keeps the stamp, and nothing overflows on the way. */
  lemma CarryArith(sec: int, min: int, hour: int, days: int)
    requires sec >= 0 && min >= 0 && hour >= 0 && days >= 0 && Stamp(sec, min, hour, days) < INT32
    ensures var m := min + sec / 60;
            var h := hour + m / 60;
            && Stamp(sec % 60, m % 60, h % 24, days + h / 24) == Stamp(sec, min, hour, days)
            && 0 <= m <= INT32 / 60 && 0 <= h <= INT32 / 3600 && 0 <= days + h / 24 <= INT32 / 86400
  {
    var m := min + sec / 60;
    var h := hour + m / 60;
    assert sec == 60 * (sec / 60) + sec % 60;
    assert m == 60 * (m / 60) + m % 60;
    assert h == 24 * (h / 24) + h % 24;
  }

  // ---------------------------------------------------------------- the carry loop

  /** Days since the Epoch when the month may lie beyond the year. */
  function MonthDay(y: int, m: int, d: int): int
    requires y >= 1 && m >= 0
  {
    DayNumber(y + m / 12, m % 12, d)
  }

  lemma MonthOfYear(y: int, m: int, d: int)
    requires y >= 1 && 0 <= m < 12
    ensures MonthDay(y, m, d) == DayNumber(y, m, d)
  {
  }

  /** One pass of the carry loop: the next month, with at most one year carried. */
  function NextYear(y: int, m: int): int { if m + 1 >= 12 then y + 1 else y }

  function NextMon(m: int): int { if m + 1 >= 12 then m + 1 - 12 else m + 1 }

  /** The length the loop takes the month to have: that of the month in the year before months are carried. */
  function TakenLength(y: int, m: int): int
    requires m >= 0
  {
    MDays(IsLeap(y), m % 12)
  }

  function TrueLength(y: int, m: int): int
    requires m >= 0
  {
    MDays(IsLeap(y + m / 12), m % 12)
  }

  /** Where the loop ends: year, month and day. */
  function Walk(y: int, m: int, d: int): (r: (int, int, int))
    requires m >= 0 && d >= 1
    ensures r.0 >= y && r.1 >= 0 && 1 <= r.2 <= TakenLength(r.0, r.1) && (m < 12 ==> r.1 < 12)
    decreases d
  {
    if d <= TakenLength(y, m) then (y, m, d) else Walk(NextYear(y, m), NextMon(m), d - TakenLength(y, m))
  }

  /** By how many days the loop misses: the Februaries it passes and gives the wrong length. */
  function Slip(y: int, m: int, d: int): int
    requires m >= 0 && d >= 1
    decreases d
  {
    if d <= TakenLength(y, m) then 0
    else TrueLength(y, m) - TakenLength(y, m) + Slip(NextYear(y, m), NextMon(m), d - TakenLength(y, m))
  }

  lemma MonthStep(y: int, m: int)
    requires m >= 0
    ensures NextYear(y, m) + NextMon(m) / 12 == if m % 12 == 11 then y + m / 12 + 1 else y + m / 12
    ensures NextMon(m) % 12 == if m % 12 == 11 then 0 else m % 12 + 1
    ensures NextMon(m) % 12 == (m + 1) % 12
  {
    var q, r := m / 12, m % 12;
    if r == 11 {
      DivModUnique(m + 1, 12, q + 1, 0);
      DivModUnique(NextMon(m), 12, q + 1 - (NextYear(y, m) - y), 0);
    } else {
      DivModUnique(m + 1, 12, q, r + 1);
      DivModUnique(NextMon(m), 12, q - (NextYear(y, m) - y), r + 1);
    }
  }

  /** One pass moves the day by what the month's length was missed by. */
  lemma MonthCarry(y: int, m: int, d: int)
    requires y >= 1 && m >= 0
    ensures MonthDay(NextYear(y, m), NextMon(m), d - TakenLength(y, m)) == MonthDay(y, m, d) + TrueLength(y, m) - TakenLength(y, m)
  {
    MonthStep(y, m);
    var y', m' := y + m / 12, m % 12;
    NextMonth(y', m', d);
    NextMonth(y', m', d - TrueLength(y, m));
  }

  /** Over the whole loop. */
  lemma {:induction false} WalkSlips(y: int, m: int, d: int)
    requires y >= 1 && m >= 0 && d >= 1
    ensures var r := Walk(y, m, d); MonthDay(r.0, r.1, r.2) == MonthDay(y, m, d) + Slip(y, m, d)
    decreases d
  {
    if d > TakenLength(y, m) {
      MonthCarry(y, m, d);
      WalkSlips(NextYear(y, m), NextMon(m), d - TakenLength(y, m));
    }
  }

  lemma WalkStep(y: int, m: int, d: int)
    requires m >= 0 && d >= 1
    ensures 28 <= TakenLength(y, m) <= 31
    ensures d > TakenLength(y, m) ==> Walk(y, m, d) == Walk(NextYear(y, m), NextMon(m), d - TakenLength(y, m))
    ensures d <= TakenLength(y, m) ==> Walk(y, m, d) == (y, m, d)
  {
  }

  /** Where the code ends up: the loop, then the remaining years. */
  function Landed(y: int, m: int, d: int): (int, int, int)
    requires m >= 0 && d >= 1
  {
    var r := Walk(y, m, d);
    (r.0 + r.1 / 12, r.1 % 12, r.2)
  }

  /** It is the day that was meant, plus what the loop slips by; from a month of the year it is a valid date. */
  lemma LandedRight(y: int, m: int, d: int)
    requires y >= 1 && m >= 0 && d >= 1
    ensures var r := Landed(y, m, d);
            && r.0 >= y && 0 <= r.1 < 12 && r.2 >= 1 && DayNumber(r.0, r.1, r.2) == MonthDay(y, m, d) + Slip(y, m, d)
            && (m < 12 ==> ValidDate(r.0, r.1, r.2))
  {
    WalkSlips(y, m, d);
    var r := Walk(y, m, d);
    if m < 12 {
      assert r.1 / 12 == 0 && r.1 % 12 == r.1;
    }
  }

  /** Every day from January 1st of year 1 on has a valid date: the loop started on January n + 1st finds it. */
  lemma DateExists(n: int) returns (y: int, m: int, d: int)
    requires n >= -EPOCH_DAYS
    ensures ValidDate(y, m, d) && DayNumber(y, m, d) == n
  {
    var start := n + EPOCH_DAYS + 1;
    LandedRight(1, 0, start);
    NoSlip(1, 0, start);
    MonthOfYear(1, 0, start);
    var r := Landed(1, 0, start);
    y, m, d := r.0, r.1, r.2;
  }

  /** A month of the year never slips. */
  lemma {:induction false} NoSlip(y: int, m: int, d: int)
    requires 0 <= m < 12 && d >= 1
    ensures Slip(y, m, d) == 0
    decreases d
  {
    if d > TakenLength(y, m) {
      NoSlip(NextYear(y, m), NextMon(m), d - TakenLength(y, m));
    }
  }

  // ---------------------------------------------------------------- when it slips

  /** Within the years a 32-bit time reaches, every fourth is a leap year. */
  lemma CommonLeap(y: int)
    requires 1901 <= y < 2100
    ensures IsLeap(y) <==> y % 4 == 0
  {
    if y % 100 == 0 {
      DivModUnique(y, 100, 20, 0);
    }
    if y % 400 == 0 {
      DivModUnique(y, 100, 4 * (y / 400), 0);
    }
  }

  /** Months from month r to the next February, and the days in them when they are in a common year. */
  function MonthsToFeb(r: int): int { (13 - r) % 12 }

  function DaysToFeb(r: int): int
    requires 0 <= r < 12
  {
    if r == 0 then MDays(false, 0) else if r == 1 then 0 else 365 - DaysBeforeMonth(false, r) + MDays(false, 0)
  }

  /** The year in which the loop takes the next February to lie. */
  function FebYear(y: int, m: int): int { y + MonthsToFeb(m % 12) }

  function LeapDay(y: int): int { if IsLeap(y) then 1 else 0 }

  /** Where the month count stands at the next February. */
  function FebMonth(m: int): int { m - 11 * MonthsToFeb(m % 12) }

  /** The loop passes its February number t with months still to carry, and one of the year it takes it to lie in and the
      year it lies in is a leap year. */
  predicate Misjudged(y: int, m: int, d: int, t: nat)
    requires m >= 0
  {
    && FebMonth(m) - 132 * t >= 13
    && d > DaysToFeb(m % 12) + 28 + LeapDay(FebYear(y, m)) + t * (365 + LeapDay(FebYear(y, m)))
    && IsLeap(FebYear(y, m)) != IsLeap(FebYear(y, m) + FebMonth(m) / 12 + t)
  }

  /** Some February is misjudged. */
  ghost predicate Misjudges(y: int, m: int, d: int)
    requires m >= 0
  {
    exists t: nat :: Misjudged(y, m, d, t)
  }

  /** Days so few that the loop stays among the years a 32-bit time reaches. */
  predicate Near(y: int, m: int, d: int) { y >= 1970 && m >= 0 && d >= 1 && MonthDay(y, m, d) + d / 28 <= 26000 }

  lemma NearYears(y: int, m: int, d: int)
    requires Near(y, m, d)
    ensures y + m / 12 < 2042
  {
    FieldBounds(y + m / 12, m % 12, d);
  }

  lemma NearStep(y: int, m: int, d: int)
    requires Near(y, m, d) && d > TakenLength(y, m)
    ensures Near(NextYear(y, m), NextMon(m), d - TakenLength(y, m))
  {
    MonthCarry(y, m, d);
    assert (d - TakenLength(y, m)) / 28 <= d / 28 - 1;
  }

  /** Some February that the loop passes is given the wrong length. */
  predicate SomeWrong(y: int, m: int, d: int)
    requires m >= 0 && d >= 1
    decreases d
  {
    d > TakenLength(y, m) && (TrueLength(y, m) != TakenLength(y, m) || SomeWrong(NextYear(y, m), NextMon(m), d - TakenLength(y, m)))
  }

  lemma NextFeb(y: int, m: int)
    requires m >= 12
    ensures NextYear(y, m) == y + 1 && NextMon(m) == m - 11 && NextMon(m) % 12 == (m % 12 + 1) % 12
    ensures m % 12 != 1 ==> FebYear(y + 1, m - 11) == FebYear(y, m) && FebMonth(m - 11) == FebMonth(m)
    ensures m % 12 == 1 ==> FebYear(y, m) == y && FebMonth(m) == m && FebYear(y + 1, m - 11) == y + 12 && FebMonth(m - 11) == m - 132
  {
    MonthStep(y, m);
    var r := m % 12;
    assert (m - 11) % 12 == (r + 1) % 12;
    assert r != 1 ==> MonthsToFeb((r + 1) % 12) == MonthsToFeb(r) - 1;
  }

  /** Slips never cancel: the Februaries passed are twelve carried years apart, so they are all taken to be long or all
      short. */
  lemma {:induction false} SlipSign(y: int, m: int, d: int)
    requires Near(y, m, d)
    ensures IsLeap(FebYear(y, m)) ==> Slip(y, m, d) <= 0
    ensures !IsLeap(FebYear(y, m)) ==> Slip(y, m, d) >= 0
    ensures Slip(y, m, d) != 0 <==> SomeWrong(y, m, d)
    decreases d
  {
    if d > TakenLength(y, m) {
      if m < 12 {
        NoSlip(y, m, d);
        NoneWrong(y, m, d);
      } else {
        NearStep(y, m, d);
        NextFeb(y, m);
        SlipSign(y + 1, m - 11, d - TakenLength(y, m));
        SignStep(y, m, d);
      }
    }
  }

  lemma {:induction false} NoneWrong(y: int, m: int, d: int)
    requires 0 <= m < 12 && d >= 1
    ensures !SomeWrong(y, m, d)
    decreases d
  {
    if d > TakenLength(y, m) {
      NoneWrong(NextYear(y, m), NextMon(m), d - TakenLength(y, m));
    }
  }

  /** The sign of this month's slip, and of the next February. */
  lemma SignStep(y: int, m: int, d: int)
    requires Near(y, m, d) && m >= 12
    ensures m % 12 != 1 ==> TrueLength(y, m) == TakenLength(y, m)
    ensures IsLeap(FebYear(y, m)) ==> TrueLength(y, m) <= TakenLength(y, m)
    ensures !IsLeap(FebYear(y, m)) ==> TrueLength(y, m) >= TakenLength(y, m)
    ensures m % 12 == 1 ==> IsLeap(y) == IsLeap(FebYear(y + 1, m - 11))
  {
    NextFeb(y, m);
    NearYears(y, m, d);
    if m % 12 == 1 {
      CommonLeap(y);
      CommonLeap(y + 12);
    }
  }

  /** The closed form of the same. */
  lemma {:induction false} WrongIff(y: int, m: int, d: int)
    requires Near(y, m, d)
    ensures SomeWrong(y, m, d) <==> Misjudges(y, m, d)
    decreases d
  {
    if m < 12 {
      NoneWrong(y, m, d);
      NoneMisjudged(y, m, d);
    } else if d <= TakenLength(y, m) {
      TooEarly(y, m, d);
    } else {
      NearStep(y, m, d);
      NextFeb(y, m);
      var y', m', d' := y + 1, m - 11, d - TakenLength(y, m);
      WrongIff(y', m', d');
      if m % 12 == 1 {
        FebFirst(y, m, d);
        forall t: nat | t > 0
          ensures Misjudged(y, m, d, t) <==> Misjudged(y', m', d', t - 1)
        {
          FebLater(y, m, d, t);
        }
        ShiftedOne(y, m, d, y', m', d');
      } else {
        forall t: nat
          ensures Misjudged(y, m, d, t) <==> Misjudged(y', m', d', t)
        {
          MonthPassed(y, m, d, t);
        }
        SignStep(y, m, d);
      }
    }
  }

  lemma ShiftedOne(y: int, m: int, d: int, y': int, m': int, d': int)
    requires m >= 0 && m' >= 0
    requires Misjudged(y, m, d, 0) <==> TrueLength(y, m) != TakenLength(y, m)
    requires forall t: nat {:trigger Misjudged(y, m, d, t)} ::
               t > 0 ==> (Misjudged(y, m, d, t) <==> Misjudged(y', m', d', t - 1))
    ensures Misjudges(y, m, d) <==>
            TrueLength(y, m) != TakenLength(y, m) || Misjudges(y', m', d')
  {
    if TrueLength(y, m) != TakenLength(y, m) {
      assert Misjudged(y, m, d, 0);
    }
    if Misjudges(y', m', d') {
      var t: nat :| Misjudged(y', m', d', t);
      assert Misjudged(y, m, d, t + 1);
    }
  }

  lemma NoneMisjudged(y: int, m: int, d: int)
    requires 0 <= m < 12
    ensures !Misjudges(y, m, d)
  {
    assert MonthsToFeb(m) >= 0 && (MonthsToFeb(m) == 0 ==> m == 1);
  }

  lemma DaysToFebStep(r: int)
    requires 0 <= r < 12
    ensures DaysToFeb(r) >= if r == 1 then 0 else MDays(false, r)
    ensures r != 1 ==> DaysToFeb((r + 1) % 12) == DaysToFeb(r) - MDays(false, r)
  {
    MonthTable(false);
  }

  lemma AfterFeb()
    ensures DaysToFeb(1) == 0 && DaysToFeb(2) == 337
  {
    MonthTable(false);
  }

  lemma LaterFebs(t: nat, leap: int)
    requires 0 <= leap <= 1
    ensures t * (365 + leap) >= 0 && (t > 0 ==> t * (365 + leap) == (t - 1) * (365 + leap) + 365 + leap)
  {
    assert t > 0 ==> t * (365 + leap) == (t - 1) * (365 + leap) + 365 + leap;
    MulMono(0, t, 365 + leap);
  }

  lemma TooEarly(y: int, m: int, d: int)
    requires m >= 0 && d <= TakenLength(y, m)
    ensures !Misjudges(y, m, d)
  {
    DaysToFebStep(m % 12);
    forall t: nat
      ensures !Misjudged(y, m, d, t)
    {
      LaterFebs(t, LeapDay(FebYear(y, m)));
    }
  }

  /** A month other than February brings the same Februaries nearer. */
  lemma MonthPassed(y: int, m: int, d: int, t: nat)
    requires m >= 12 && m % 12 != 1
    ensures Misjudged(y, m, d, t) <==> Misjudged(y + 1, m - 11, d - TakenLength(y, m), t)
  {
    NextFeb(y, m);
    DaysToFebStep(m % 12);
  }

  /** The two leap years that decide about a February, at number t after it. */
  lemma FebHere(y: int, m: int, d: int, t: nat)
    requires m >= 12 && m % 12 == 1
    ensures TakenLength(y, m) == 28 + LeapDay(y) && TrueLength(y, m) == 28 + LeapDay(y + m / 12)
    ensures Misjudged(y, m, d, t) <==>
            && m - 132 * t >= 13 && d > 28 + LeapDay(y) + t * (365 + LeapDay(y)) && LeapDay(y) != LeapDay(y + m / 12 + t)
  {
    assert MonthsToFeb(m % 12) == 0 && DaysToFeb(m % 12) == 0;
  }

  /** The same from the month after it. */
  lemma FebAhead(y: int, m: int, d: int, t: nat)
    requires m >= 0 && m % 12 == 2
    ensures Misjudged(y, m, d, t) <==>
            && m - 121 - 132 * t >= 13 && d > 365 + LeapDay(y + 11) + t * (365 + LeapDay(y + 11))
            && LeapDay(y + 11) != LeapDay(y + 11 + (m - 121) / 12 + t)
  {
    AfterFeb();
    assert MonthsToFeb(m % 12) == 11;
  }

  /** A February is number 0 before it is passed. */
  lemma FebFirst(y: int, m: int, d: int)
    requires m >= 12 && m % 12 == 1 && d > TakenLength(y, m)
    ensures Misjudged(y, m, d, 0) <==> TrueLength(y, m) != TakenLength(y, m)
  {
    FebHere(y, m, d, 0);
  }

  /** Twelve years on, a February is as long. */
  lemma FebLeaps(y: int, m: int, d: int)
    requires Near(y, m, d) && m >= 12 && m % 12 == 1
    ensures LeapDay(y + 12) == LeapDay(y)
  {
    NextFeb(y, m);
    SignStep(y, m, d);
  }

  lemma LaterTerms(m: int, d: int, t: nat, leap: int)
    requires t > 0 && 0 <= leap <= 1 && m % 12 == 1
    ensures d > 28 + leap + t * (365 + leap) <==> d - (28 + leap) > 365 + leap + (t - 1) * (365 + leap)
    ensures m / 12 + t == 12 + (m - 132) / 12 + (t - 1)
  {
    LaterFebs(t, leap);
    DivModUnique(m - 132, 12, m / 12 - 11, 1);
  }

  /** The next one is number 0 after it. */
  lemma FebLater(y: int, m: int, d: int, t: nat)
    requires Near(y, m, d) && m >= 12 && m % 12 == 1 && t > 0
    ensures Misjudged(y, m, d, t) <==> Misjudged(y + 1, m - 11, d - TakenLength(y, m), t - 1)
  {
    var y', m', d', leap := y + 1, m - 11, d - TakenLength(y, m), LeapDay(y);
    FebHere(y, m, d, t);
    FebAhead(y', m', d', t - 1);
    FebLeaps(y, m, d);
    LaterTerms(m, d, t, leap);
    assert y' + 11 == y + 12 && m' - 121 == m - 132;
    assert y' + 11 + (m' - 121) / 12 + (t - 1) == y + m / 12 + t;
  }

  /** Exactly when the loop slips, for every month and day whose instant fits into 32 bits. */
  lemma SlipIff(y: int, m: int, d: int)
    requires y >= 1970 && m >= 0 && d >= 1 && MonthDay(y, m, d) <= INT32 / 86400
    ensures Slip(y, m, d) != 0 <==> Misjudges(y, m, d)
  {
    FieldBounds(y + m / 12, m % 12, d);
    SlipSign(y, m, d);
    WrongIff(y, m, d);
  }

  /** February 29th, 2000, as month 13 of 1999, comes out as March 1st: a day late. */
  lemma LeapDaySlips()
    ensures Slip(1999, 13, 29) == 1 && Walk(1999, 13, 29) == (2000, 2, 1)
  {
    assert TakenLength(1999, 13) == 28 && TrueLength(1999, 13) == 29;
    assert Slip(2000, 2, 1) == 0 && Walk(2000, 2, 1) == (2000, 2, 1);
  }

  lemma DaySlide(y: int, m: int, d: int, d': int)
    requires y >= 1 && 0 <= m <= 12
    ensures DayNumber(y, m, d') == DayNumber(y, m, d) + d' - d
  {
  }

  lemma MonthsBefore(leap: bool, m: int)
    requires 0 <= m <= 12
    ensures DaysBeforeMonth(leap, m) >= 0
  {
    if m > 0 {
      MonthOrder(leap, 0, m);
    }
  }

  /** The day number as the code adds it up. */
  lemma DaysAdded(y: int, m: int, d: int)
    requires y >= 1970 && 0 <= m < 12
    ensures DayNumber(y, m, d) == 365 * (y - 1970) + (LeapsThrough(y - 1) - 477) + DaysBeforeMonth(IsLeap(y), m) + d - 1
    ensures LeapsThrough(y - 1) >= 477
  {
    YearClosed(y);
    LeapsGrow(1969, y - 1);
    assert LeapsThrough(1969) == 477;
  }

  lemma SumParts(year: int, mon: int, mday: int, yday: int, days: int)
    requires year >= 70 && 0 <= mon < 12 && mday >= 1 && days == DayNumber(year + 1900, mon, mday)
    requires yday == DaysBeforeMonth(IsLeap(year + 1900), mon) + mday
    ensures yday >= 1 && LeapsThrough(year + 1899) >= 477
    ensures days == 365 * (year - 70) + (LeapsThrough(year + 1899) - 477) + yday - 1
  {
    DaysAdded(year + 1900, mon, mday);
    MonthsBefore(IsLeap(year + 1900), mon);
  }

  /** A date whose instant fits into 32 bits lies before 2100. */
  lemma DateLimit(y: int, m: int, d: int, sec: int, min: int, hour: int)
    requires y >= 1970 && m >= 0 && d >= 1 && sec >= 0 && min >= 0 && hour >= 0
    requires Stamp(sec, min, hour, MonthDay(y, m, d)) < INT32
    ensures d <= INT32 / 86400 + 1 && y + m / 12 < 2100
  {
    DayLimit(sec, min, hour, MonthDay(y, m, d));
    FieldBounds(y + m / 12, m % 12, d);
  }

  lemma NextRemainder(a: int, b: int)
    requires a % 12 == b % 12
    ensures (a + 1) % 12 == (b + 1) % 12
  {
  }

  lemma DayLimit(sec: int, min: int, hour: int, days: int)
    requires sec >= 0 && min >= 0 && hour >= 0 && Stamp(sec, min, hour, days) < INT32
    ensures days <= INT32 / 86400
  {
  }

  /** `struct tm`; `tm_isdst` is not touched by the code. */
  class Tm {
    var sec: int
    var min: int
    var hour: int
    var mday: int
    var mon: int
    var year: int
    var wday: int
    var yday: int

    constructor (sec: int, min: int, hour: int, mday: int, mon: int, year: int)
      ensures this.sec == sec && this.min == min && this.hour == hour && this.mday == mday
      ensures this.mon == mon && this.year == year
    {
      this.sec, this.min, this.hour, this.mday, this.mon, this.year := sec, min, hour, mday, mon, year;
      wday, yday := 0, 0;
    }

    /** What callers may pass: nothing negative and a year from 1970 on; months may go beyond the year. */
    ghost predicate Acceptable()
      reads this
    {
      sec >= 0 && min >= 0 && hour >= 0 && mday >= 1 && mon >= 0 && year >= 70
    }

    /** A time of day and a month in their ranges, with the weekday and the (1-based) day of the year filled in. */
    ghost predicate Carried()
      reads this
    {
      && 0 <= sec < 60 && 0 <= min < 60 && 0 <= hour < 24 && year >= 70 && 0 <= mon < 12 && mday >= 1
      && wday == (4 + DayNumber(year + 1900, mon, mday)) % 7
      && yday == DaysBeforeMonth(IsLeap(year + 1900), mon) + mday
    }

    /** The ranges POSIX gives for all fields. */
    ghost predicate Normal()
      reads this
    {
      Carried() && ValidDate(year + 1900, mon, mday)
    }

    /** The instant the fields denote. */
    ghost function Seconds(): int
      requires year >= -1899 && mon >= 0
      reads this
    {
      Stamp(sec, min, hour, MonthDay(year + 1900, mon, mday))
    }

    /** The day of the month once the time of day is carried. */
    ghost function CarriedDay(): int
      reads this
    {
      mday + (hour + (min + sec / 60) / 60) / 24
    }

    /** By how many days the fields will be missed. */
    ghost function Missed(): int
      requires Acceptable()
      reads this
    {
      Slip(year + 1900, mon, CarriedDay())
    }

    /** Lines 47-52: seconds, minutes and hours.  `days` is the day number of the date. */
    method CarryTime(ghost days: int)
      requires sec >= 0 && min >= 0 && hour >= 0 && mday >= 1 && days >= mday - 1 && Stamp(sec, min, hour, days) < INT32
      modifies this`sec, this`min, this`hour, this`mday
      ensures 0 <= sec < 60 && 0 <= min < 60 && 0 <= hour < 24 && mday >= old(mday)
      ensures Stamp(sec, min, hour, days + mday - old(mday)) == old(Stamp(sec, min, hour, days))
    {
      CarryArith(sec, min, hour, days);
      var origSec := sec;
      sec := origSec % 60;
      min := min + origSec / 60;
      assert Fits(min);
      hour := hour + min / 60;
      assert Fits(hour);
      min := min % 60;
      mday := mday + hour / 24;
      assert Fits(mday);
      hour := hour % 24;
    }

    /** Lines 57-69: days into months, at most one year a month. */
    method CarryMonths()
      requires year >= 1970 && mon >= 0 && 1 <= mday <= INT32 / 86400 + 1 && year + mon / 12 < 2100
      modifies this`mday, this`mon, this`year
      ensures (year, mon, mday) == old(Walk(year, mon, mday))
    {
      ghost var k := 0;
      var m := mon;
      while mday > MDays(IsLeap(year), m % 12)
        invariant old(year) <= year <= old(year) + k && mon >= 0 && mday >= 1 && m == old(mon) + k && m % 12 == mon % 12
        invariant k >= 0 && mday + 28 * k <= old(mday)
        invariant Walk(year, mon, mday) == old(Walk(year, mon, mday))
        decreases mday
      {
        m := CarryMonth(m);
        k := k + 1;
        assert Fits(year) && Fits(m);
      }
      WalkStep(year, mon, mday);
    }

    /** One round of that loop. */
    method CarryMonth(m: int) returns (next: int)
      requires mon >= 0 && m % 12 == mon % 12 && mday >= 1 && mday > TakenLength(year, mon)
      modifies this`mday, this`mon, this`year
      ensures next == m + 1 && next % 12 == mon % 12 && mon >= 0 && 1 <= mday <= old(mday) - 28 && old(year) <= year <= old(year) + 1
      ensures Walk(year, mon, mday) == old(Walk(year, mon, mday))
    {
      WalkStep(year, mon, mday);
      MonthStep(year, mon);
      NextRemainder(m, mon);
      ghost var y', mon' := NextYear(year, mon), NextMon(mon);
      mon := mon + 1;
      mday := mday - MDays(IsLeap(year), m % 12);
      next := m + 1;
      if mon >= 12 {
        year := year + 1;
        mon := mon - 12;
      }
      assert year == y' && mon == mon';
    }

    /** Lines 71-75: the remaining years. */
    method CarryYears()
      requires mon >= 0
      modifies this`mon, this`year
      ensures year == old(year) + old(mon) / 12 && mon == old(mon) % 12
    {
      ghost var k := 0;
      while mon >= 12
        invariant k >= 0 && year == old(year) + k && mon == old(mon) - 12 * k >= 0
      {
        year := year + 1;
        mon := mon - 12;
        k := k + 1;
      }
      DivModUnique(old(mon), 12, k, mon);
    }

    /** Lines 57-75: the day and month in range. */
    method CarryDate()
      requires Acceptable() && mday <= INT32 / 86400 + 1 && year + 1900 + mon / 12 < 2100
      modifies this`mday, this`mon, this`year
      ensures (year + 1900, mon, mday) == old(Landed(year + 1900, mon, mday))
    {
      year := year + 1900;
      CarryMonths();
      CarryYears();
      year := year - 1900;
    }

    /** Lines 77-84: the weekday and the day of the year. */
    method FillDays()
      requires year >= 70 && 0 <= mon < 12 && mday >= 1
      modifies this`wday, this`yday
      ensures wday == (4 + DayNumber(year + 1900, mon, mday)) % 7
      ensures yday == DaysBeforeMonth(IsLeap(year + 1900), mon) + mday
    {
      GetDowCounts(year + 1900, mon, mday);
      wday := GetDow(year + 1900, mon, mday);
      FillYearDay();
    }

    /** Lines 79-84. */
    method FillYearDay()
      requires 0 <= mon < 12
      modifies this`yday
      ensures yday == DaysBeforeMonth(IsLeap(year + 1900), mon) + mday
    {
      yday := mday;
      for m := 0 to mon
        modifies this`yday
        invariant yday == mday + DaysBeforeMonth(IsLeap(year + 1900), m)
      {
        yday := yday + MDays(IsLeap(year + 1900), m);
      }
    }

    /** Lines 86-98: add everything up.  No partial sum leaves 32 bits. */
    method AddUp(ghost days: int) returns (ret: int)
      requires 0 <= sec < 60 && 0 <= min < 60 && 0 <= hour < 24 && year >= 70 && yday >= 1
      requires days == 365 * (year - 70) + (LeapsThrough(year + 1899) - 477) + yday - 1
      requires LeapsThrough(year + 1899) >= 477 && Stamp(sec, min, hour, days) < INT32
      ensures ret == Stamp(sec, min, hour, days)
    {
      ret := sec;
      ret := ret + 60 * min;
      ret := ret + 60 * 60 * hour;
      assert Fits(24 * 60 * 60 * (yday - 1));
      ret := ret + 24 * 60 * 60 * (yday - 1);
      assert Fits(ret);
      var y := year + 1900 - 1;
      var leaps := y / 4 - y / 100 + y / 400;
      leaps := leaps - (1970 / 4 - 1970 / 100 + 1970 / 400);
      assert leaps == LeapsThrough(y) - 477;
      assert Fits(365 * 24 * 60 * 60 * (year + 1900 - 1970));
      ret := ret + 365 * 24 * 60 * 60 * (year + 1900 - 1970);
      assert Fits(ret);
      assert Fits(24 * 60 * 60 * leaps);
      ret := ret + 24 * 60 * 60 * leaps;
    }

    method NormaliseTime()
      requires Acceptable() && Seconds() < INT32
      modifies this`sec, this`min, this`hour, this`mday
      ensures Acceptable() && sec < 60 && min < 60 && hour < 24 && Seconds() == old(Seconds()) && mday == old(CarriedDay())
    {
      ghost var y, m, d := year + 1900 + mon / 12, mon % 12, mday;
      FieldBounds(y, m, mday);
      CarryTime(DayNumber(y, m, mday));
      DaySlide(y, m, d, mday);
    }

    /** The date in range: the day that was meant, plus what the loop slips by. */
    method NormaliseDay(ghost days: int)
      requires Acceptable() && mday <= INT32 / 86400 + 1 && year + 1900 + mon / 12 < 2100
      requires days == MonthDay(year + 1900, mon, mday) + Slip(year + 1900, mon, mday)
      modifies this`mday, this`mon, this`year
      ensures year >= 70 && 0 <= mon < 12 && mday >= 1 && (old(mon) < 12 ==> ValidDate(year + 1900, mon, mday))
      ensures MonthDay(year + 1900, mon, mday) == days
    {
      LandedRight(year + 1900, mon, mday);
      CarryDate();
      MonthOfYear(year + 1900, mon, mday);
    }

    method NormaliseDate(ghost days: int)
      requires Acceptable() && sec < 60 && min < 60 && hour < 24 && mday <= INT32 / 86400 + 1 && year + 1900 + mon / 12 < 2100
      requires days == MonthDay(year + 1900, mon, mday) + Slip(year + 1900, mon, mday)
      modifies this`mday, this`mon, this`year, this`wday, this`yday
      ensures Carried() && MonthDay(year + 1900, mon, mday) == days
      ensures old(mon) < 12 ==> ValidDate(year + 1900, mon, mday)
    {
      NormaliseDay(days);
      FillDays();
    }

    method Normalise()
      requires Acceptable() && Seconds() < INT32
      modifies this
      ensures Carried() && Seconds() == old(Seconds() + 86400 * Missed())
      ensures old(mon) < 12 ==> Normal()
    {
      NormaliseTime();
      DateLimit(year + 1900, mon, mday, sec, min, hour);
      ghost var days := MonthDay(year + 1900, mon, mday) + Slip(year + 1900, mon, mday);
      NormaliseDate(days);
    }

    /** `mktime`.  For a month of the year the fields are brought into range without moving the instant they denote, and
        the result is that instant.  For months beyond the year it is so exactly when no February is misjudged. */
    method Mktime() returns (ret: int)
      requires Acceptable() && Seconds() < INT32 && Seconds() + 86400 * Missed() < INT32
      modifies this
      ensures Carried() && ret == Seconds() == old(Seconds() + 86400 * Missed())
      ensures ret == old(Seconds()) <==> !old(Misjudges(year + 1900, mon, CarriedDay()))
      ensures old(mon) < 12 ==> Normal() && ret == old(Seconds())
    {
      MissedIff();
      if mon < 12 {
        NoSlip(year + 1900, mon, CarriedDay());
      }
      Normalise();
      ret := Total();
    }

    /** Nothing is missed exactly when no February is misjudged. */
    lemma MissedIff()
      requires Acceptable() && Seconds() < INT32
      ensures Missed() == 0 <==> !Misjudges(year + 1900, mon, CarriedDay())
    {
      var y, m := year + 1900, mon;
      FieldBounds(y + m / 12, m % 12, mday);
      CarryArith(sec, min, hour, MonthDay(y, m, mday));
      DaySlide(y + m / 12, m % 12, mday, CarriedDay());
      SlipIff(y, m, CarriedDay());
    }

    /** `mktime` for a month of the year. */
    method MktimeInYear() returns (ret: int)
      requires Acceptable() && mon < 12 && Seconds() < INT32
      modifies this
      ensures Normal() && ret == Seconds() == old(Seconds())
    {
      NoSlip(year + 1900, mon, CarriedDay());
      ret := Mktime();
    }

    /** Lines 86-101 on a struct brought into range. */
    method Total() returns (ret: int)
      requires Carried() && Seconds() < INT32
      ensures ret == Seconds()
    {
      ghost var days := DayNumber(year + 1900, mon, mday);
      MonthOfYear(year + 1900, mon, mday);
      SumParts(year, mon, mday, yday, days);
      ret := AddUp(days);
    }
  }

  /** `gmtime` and its static struct, which keeps its fields from one call to the next. */
  class Gmtime {
    const ret: Tm

    /** A date in a month of the year. */
    ghost predicate Ready()
      reads this, ret
    {
      ret.Acceptable() && ret.mon < 12
    }

    /** The instant the struct denotes when its seconds are set to 0. */
    ghost function Base(): int
      requires ret.year >= 70 && ret.mon >= 0
      reads this, ret
    {
      Stamp(0, ret.min, ret.hour, MonthDay(ret.year + 1900, ret.mon, ret.mday))
    }

    /** The initialiser of the static struct denotes the Epoch. */
    constructor ()
      ensures Ready() && Base() == 0 && fresh(ret)
    {
      ret := new Tm(0, 0, 0, 1, 0, 70);
      new;
      FirstDay(ret.year + 1900);
      MonthOfYear(ret.year + 1900, ret.mon, ret.mday);
    }

    /** `gmtime`: the result denotes the time asked for, counted from where the struct was left. */
    method Call(timer: int)
      requires Ready() && timer >= 0 && Base() + timer < INT32
      modifies ret
      ensures ret.Normal() && ret.Seconds() == old(Base()) + timer
      ensures Base() == ret.Seconds() - ret.Seconds() % 60
    {
      ret.sec := timer;
      var ignored := ret.MktimeInYear();
      SecondsPart(ret.sec, ret.min, ret.hour, MonthDay(ret.year + 1900, ret.mon, ret.mday), ret.Seconds());
    }
  }

  /** The result of `mktime` is the POSIX expression on the normalised fields. */
  lemma NormalIsPosix(tm: Tm)
    requires tm.Normal()
    ensures tm.Seconds() == Posix(tm.sec, tm.min, tm.hour, tm.yday - 1, tm.year)
  {
    var yday := DaysBeforeMonth(IsLeap(tm.year + 1900), tm.mon) + tm.mday - 1;
    assert tm.yday - 1 == yday;
    MonthOfYear(tm.year + 1900, tm.mon, tm.mday);
    PosixCounts(tm.sec, tm.min, tm.hour, tm.mon, tm.mday, tm.year);
  }

  /** Times of day and dates in range are determined by the instant: `gmtime` has no choice. */
  lemma StampUnique(s: int, n: int, h: int, days: int, s': int, n': int, h': int, days': int)
    requires 0 <= s < 60 && 0 <= n < 60 && 0 <= h < 24 && 0 <= s' < 60 && 0 <= n' < 60 && 0 <= h' < 24
    requires Stamp(s, n, h, days) == Stamp(s', n', h', days')
    ensures s == s' && n == n' && h == h' && days == days'
  {
    var t := Stamp(s, n, h, days);
    DivModUnique(t, 86400, days, s + 60 * n + 3600 * h);
    DivModUnique(t, 86400, days', s' + 60 * n' + 3600 * h');
    DivModUnique(s + 60 * n + 3600 * h, 3600, h, s + 60 * n);
    DivModUnique(s' + 60 * n' + 3600 * h', 3600, h', s' + 60 * n');
  }

  lemma NormalUnique(a: Tm, b: Tm)
    requires a.Normal() && b.Normal() && a.Seconds() == b.Seconds()
    ensures a.sec == b.sec && a.min == b.min && a.hour == b.hour && a.mday == b.mday && a.mon == b.mon && a.year == b.year
    ensures a.wday == b.wday && a.yday == b.yday
  {
    MonthOfYear(a.year + 1900, a.mon, a.mday);
    MonthOfYear(b.year + 1900, b.mon, b.mday);
    StampUnique(a.sec, a.min, a.hour, DayNumber(a.year + 1900, a.mon, a.mday),
                b.sec, b.min, b.hour, DayNumber(b.year + 1900, b.mon, b.mday));
    DateUnique(a.year + 1900, a.mon, a.mday, b.year + 1900, b.mon, b.mday);
  }

  lemma FirstDay(y: int)
    requires y == 1970
    ensures DayNumber(y, 0, 1) == 0
  {
    EpochDaysRight(y);
  }

  /** For every non-negative 32-bit time, `gmtime` on its initial struct followed by `mktime` gives it back. */
  method GmtimeThenMktime(t: int) returns (r: int)
    requires 0 <= t < INT32
    ensures r == t
  {
    var g := new Gmtime();
    g.Call(t);
    r := g.ret.MktimeInYear();
  }

  lemma SecondsPart(sec: int, min: int, hour: int, days: int, t: int)
    requires 0 <= sec < 60 && Stamp(sec, min, hour, days) == t
    ensures sec == t % 60
  {
    DivModUnique(t, 60, min + 60 * hour + 1440 * days, sec);
  }

  /** A second call starts from the whole minutes the first one left behind, so it is right exactly when the
      first time was less than a minute after the Epoch. */
  method SecondCall(t1: int, t2: int) returns (denoted: int)
    requires 0 <= t1 && 0 <= t2 && t1 + t2 < INT32
    ensures denoted == t1 - t1 % 60 + t2
    ensures denoted == t2 <==> t1 < 60
  {
    var g := FirstCall(t1);
    denoted := CallAndRead(g, t2);
  }

  /** The static struct after the first call. */
  method FirstCall(t: int) returns (g: Gmtime)
    requires 0 <= t < INT32
    ensures fresh(g) && fresh(g.ret) && g.Ready() && g.Base() == t - t % 60
  {
    g := new Gmtime();
    g.Call(t);
  }

  /** `gmtime`, and what its result denotes. */
  method CallAndRead(g: Gmtime, t: int) returns (denoted: int)
    requires g.Ready() && t >= 0 && g.Base() + t < INT32
    modifies g.ret
    ensures denoted == old(g.Base()) + t
  {
    g.Call(t);
    denoted := g.ret.MktimeInYear();
  }
}
