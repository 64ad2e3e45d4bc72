/**
 * `elapsedTime`: the run's duration split into days, hours, minutes and seconds, printed from
 * the largest unit that is not zero down to the seconds.
 */
module Elapsed {
  import opened Text

  datatype Duration = Duration(days: nat, hours: nat, minutes: nat, seconds: nat)

  function TotalSeconds(d: Duration): nat
  {
    ((d.days * 24 + d.hours) * 60 + d.minutes) * 60 + d.seconds
  }

  /** Every unit below days is within its range. */
  predicate Normal(d: Duration)
  {
    d.seconds < 60 && d.minutes < 60 && d.hours < 24
  }

  /** The split of a number of seconds that `elapsedTime` computes by repeated division. */
  function Decompose(total: nat): (d: Duration)
    ensures Normal(d)
    ensures TotalSeconds(d) == total
  {
    var m := total / 60;
    var h := m / 60;
    Duration(h / 24, h % 24, m % 60, total % 60)
  }

  /** There is only one such split: any normal duration is the decomposition of its total. */
  lemma DecomposeUnique(d: Duration)
    requires Normal(d)
    ensures Decompose(TotalSeconds(d)) == d
  {
    var h := d.days * 24 + d.hours;
    var m := h * 60 + d.minutes;
    DivModUnique(m, d.seconds, 60);
    DivModUnique(h, d.minutes, 60);
    DivModUnique(d.days, d.hours, 24);
  }

  lemma DivModUnique(q: nat, r: nat, n: nat)
    requires 0 <= r < n
    ensures (q * n + r) / n == q && (q * n + r) % n == r
  {
    var x := q * n + r;
    var q', r' := x / n, x % n;
    assert x == q' * n + r';
    if q' < q {
      MulLe(q' + 1, q, n);
      assert false;
    } else if q' > q {
      MulLe(q + 1, q', n);
      assert false;
    }
  }

  lemma MulLe(a: nat, b: nat, n: nat)
    requires a <= b
    ensures a * n <= b * n
  {
  }

  /** The four amounts, largest unit first. */
  function Amounts(d: Duration): seq<nat>
  {
    [d.days, d.hours, d.minutes, d.seconds]
  }

  /** The text after each amount. */
  const UnitNames: seq<string> := [" days ", " hs. ", " mins. ", " secs."]

  /** The position of the largest unit that is not zero; the seconds when all are zero. */
  function Lead(d: Duration): (k: nat)
    ensures k <= 3
    ensures forall j :: 0 <= j < k ==> Amounts(d)[j] == 0
    ensures k < 3 ==> Amounts(d)[k] > 0
  {
    if d.days > 0 then 0 else if d.hours > 0 then 1 else if d.minutes > 0 then 2 else 3
  }

  /** The units from position `k` on, each amount followed by its unit's text. */
  function UnitsFrom(d: Duration, k: nat): string
    requires k <= 4
    decreases 4 - k
  {
    if k == 4 then "" else NatToString(Amounts(d)[k]) + UnitNames[k] + UnitsFrom(d, k + 1)
  }

  /** What `elapsedTime` shows for a number of whole seconds: every unit from the leading one down. */
  function ElapsedText(total: nat): string
  {
    var d := Decompose(total);
    UnitsFrom(d, Lead(d))
  }

  /** `elapsedTime(tsStart, tsEnd)` over the whole seconds between the two instants. */
  method ElapsedTime(totalSeconds: nat) returns (str: string)
    ensures str == ElapsedText(totalSeconds)
  {
    var timeDiff := totalSeconds;
    var seconds := timeDiff % 60;
    timeDiff := timeDiff / 60;
    var minutes := timeDiff % 60;
    timeDiff := timeDiff / 60;
    var hours := timeDiff % 24;
    timeDiff := timeDiff / 24;
    var days := timeDiff;
    ghost var d := Duration(days, hours, minutes, seconds);
    assert d == Decompose(totalSeconds);
    str := "";
    var a := if days > 0 then NatToString(days) + " days " else "";
    EmptyLeft(a);
    str := str + a;
    var b := if days > 0 || hours > 0 then NatToString(hours) + " hs. " else "";
    str := str + b;
    var c := if days > 0 || hours > 0 || minutes > 0 then NatToString(minutes) + " mins. " else "";
    str := str + c;
    var e := NatToString(seconds) + " secs.";
    str := str + e;
    ShownFromLead(d, a, b, c, e);
  }

  /** The source's three conditions select exactly the units from the leading one down. */
  lemma ShownFromLead(d: Duration, a: string, b: string, c: string, e: string)
    requires a == if d.days > 0 then NatToString(d.days) + " days " else ""
    requires b == if d.days > 0 || d.hours > 0 then NatToString(d.hours) + " hs. " else ""
    requires c == if d.days > 0 || d.hours > 0 || d.minutes > 0 then NatToString(d.minutes) + " mins. " else ""
    requires e == NatToString(d.seconds) + " secs."
    ensures a + b + c + e == UnitsFrom(d, Lead(d))
  {
    var u3 := UnitsFrom(d, 3);
    assert UnitsFrom(d, 4) == "";
    EmptyRight(e);
    assert u3 == e;
    var u2 := UnitsFrom(d, 2);
    assert u2 == NatToString(d.minutes) + " mins. " + e;
    var u1 := UnitsFrom(d, 1);
    assert u1 == NatToString(d.hours) + " hs. " + u2;
    var u0 := UnitsFrom(d, 0);
    assert u0 == NatToString(d.days) + " days " + u1;
    match Lead(d)
    case 0 =>
      AppendAssoc(a, b, c);
      AppendAssoc(a, b + c, e);
      AppendAssoc(b, c, e);
    case 1 =>
      EmptyLeft(b);
      AppendAssoc(b, c, e);
    case 2 =>
      EmptyLeft(b);
      EmptyLeft(c);
    case 3 =>
      EmptyLeft(b);
      EmptyLeft(c);
      EmptyLeft(e);
  }

  /** Hours are shown exactly when there are days or hours, minutes exactly when there are days,
      hours or minutes, and seconds always. */
  lemma UnitsShown(d: Duration)
    ensures Lead(d) == 0 <==> d.days > 0
    ensures Lead(d) <= 1 <==> d.days > 0 || d.hours > 0
    ensures Lead(d) <= 2 <==> d.days > 0 || d.hours > 0 || d.minutes > 0
    ensures Lead(d) <= 3
  {
  }

  /** Ninety seconds are one minute and thirty seconds. */
  lemma NinetySeconds()
    ensures ElapsedText(90) == "1 mins. 30 secs."
  {
    var d := Decompose(90);
    assert d == Duration(0, 0, 1, 30);
    assert Lead(d) == 2;
    var one, thirty := NatToString(1), NatToString(30);
    assert one == "1";
    assert thirty == NatToString(3) + [DigitChar(0)];
    assert thirty == "30";
    assert UnitsFrom(d, 4) == "";
    EmptyRight(thirty + " secs.");
    assert UnitsFrom(d, 3) == thirty + " secs.";
    assert UnitsFrom(d, 2) == one + " mins. " + (thirty + " secs.");
    NinetySecondsText();
  }

  lemma NinetySecondsText()
    ensures "1" + " mins. " + ("30" + " secs.") == "1 mins. 30 secs."
  {
  }
}
