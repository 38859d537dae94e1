/**
 * The sum display above the table: each grand total's share of all
 * messages, in whole tenths of a percent, and the change of each total
 * since the previous load.
 */
module Summary {
  import opened Records

  /** Shares in tenths of a percent: 1000 means 100.0%. */
  datatype Tenths = Tenths(translated: int, fuzzy: int, untranslated: int)

  /** `Math.floor(a / b)` for a non-zero divisor of either sign. */
  function FloorDiv(a: int, b: int): (q: int)
    requires b != 0
    ensures b > 0 ==> q * b <= a < q * b + b
    ensures b < 0 ==> q * b >= a > q * b + b
  {
    if b > 0 then a / b else (-a) / (-b)
  }

  /**
   * The three percentages of the sum display. Two are floored, the third
   * is what is left of 100%, so their sum is always exactly 100.0%.
   * `Math.floor(x * 1000 / e) / 10` has whole tenths, and so does the
   * untranslated share `Math.ceil((100 - t - f) * 10) / 10`; in tenths all
   * three are integers.
   */
  function Percentages(c: Counts): (p: Tenths)
    requires c.Total() != 0
    ensures p.translated + p.fuzzy + p.untranslated == 1000
    ensures c.Total() > 0 ==> p.translated * c.Total() <= 1000 * c.translated < (p.translated + 1) * c.Total()
    ensures c.Total() > 0 ==> p.fuzzy * c.Total() <= 1000 * c.fuzzy < (p.fuzzy + 1) * c.Total()
    ensures c.Total() > 0 ==> 1000 * c.untranslated <= p.untranslated * c.Total() < 1000 * c.untranslated + 2 * c.Total()
  {
    var e := c.Total();
    var t := FloorDiv(1000 * c.translated, e);
    var f := FloorDiv(1000 * c.fuzzy, e);
    Tenths(t, f, 1000 - t - f)
  }

  /** With non-negative counts, every share lies between 0.0% and 100.0%. */
  lemma PercentagesInRange(c: Counts)
    requires c.NonNegative() && c.Total() > 0
    ensures var p := Percentages(c);
      0 <= p.translated <= 1000 && 0 <= p.fuzzy <= 1000 && 0 <= p.untranslated <= 1000
  {
    var p, e := Percentages(c), c.Total();
    ShareBounds(p.translated, c.translated, e);
    ShareBounds(p.fuzzy, c.fuzzy, e);
    LessTimes(0, p.untranslated, e);
  }

  /** A floored share of a count between none and all lies between 0.0% and 100.0%. */
  lemma ShareBounds(q: int, n: int, e: int)
    requires e > 0 && 0 <= n <= e && q * e <= 1000 * n
    ensures q <= 1000
    ensures 1000 * n < (q + 1) * e ==> q >= 0
  {
    LessTimes(q, 1000, e);
    if 1000 * n < (q + 1) * e {
      ShareNotNegative(q, n, e);
    }
  }

  /** The share is 100.0% translated exactly when nothing is fuzzy or untranslated. */
  lemma FullyTranslated(c: Counts)
    requires c.NonNegative() && c.Total() > 0
    ensures Percentages(c).translated == 1000 <==> c.fuzzy == 0 && c.untranslated == 0
  {
    var p, e := Percentages(c), c.Total();
    if p.translated == 1000 {
      assert 1000 * e <= 1000 * c.translated;
    }
    if c.fuzzy == 0 && c.untranslated == 0 {
      assert e == c.translated;
      assert p.translated * e <= 1000 * e < (p.translated + 1) * e;
      LessTimes(p.translated, 1000, e);
      LessTimes(1000, p.translated + 1, e);
    }
  }

  /** A floored share of a non-negative count is not negative. */
  lemma ShareNotNegative(q: int, n: int, e: int)
    requires e > 0 && n >= 0 && 1000 * n < (q + 1) * e
    ensures q >= 0
  {
    if q < 0 {
      MulMono(q + 1, 0, e);
      assert false;
    }
  }

  /** A positive factor cancels from both sides of `<=`. */
  lemma LessTimes(a: int, b: int, e: int)
    requires e > 0 && a * e <= b * e
    ensures a <= b
  {
    if a > b {
      MulMono(b + 1, a, e);
      assert false;
    }
  }

  /** Multiplying by a non-negative number keeps the order. */
  lemma {:induction false} MulMono(a: int, b: int, e: nat)
    requires a <= b
    ensures a * e <= b * e
  {
    if e > 0 {
      MulMono(a, b, e - 1);
      assert a * e == a * (e - 1) + a;
      assert b * e == b * (e - 1) + b;
    }
  }

  /**
   * The last totals before any load: all three are -1, the values the page
   * initialises them to. The untranslated one being below 1 is what marks
   * "no previous load".
   */
  function Unset(): Counts {
    Counts(-1, -1, -1)
  }

  /**
   * The changes since the previous load: the differences of the totals
   * when the previous untranslated total was positive, otherwise none at
   * all. (The guard tests only the untranslated total, so a previous load
   * with nothing untranslated shows no change either.)
   */
  function Deltas(last: Counts, current: Counts): (d: Counts)
    ensures last.untranslated > 0 ==> last.Plus(d) == current
    ensures last.untranslated <= 0 ==> d == Zero()
  {
    if last.untranslated > 0 then
      Counts(current.translated - last.translated, current.fuzzy - last.fuzzy,
             current.untranslated - last.untranslated)
    else Zero()
  }

  /** The first load shows no change. */
  lemma FirstLoadNoDelta(current: Counts)
    ensures Deltas(Unset(), current) == Zero()
  {
  }

  /**
   * Loading the same totals twice shows no change the second time, and a
   * change shows only when some total differs.
   */
  lemma DeltaZeroIff(last: Counts, current: Counts)
    requires last.untranslated > 0
    ensures Deltas(last, current) == Zero() <==> current == last
  {
  }

  /** The totals a load finds stored after the loads `earlier`, starting from `start`. */
  function Previous(start: Counts, earlier: seq<Counts>): Counts {
    if earlier == [] then start else earlier[|earlier| - 1]
  }

  /** The change each of a sequence of loads shows, starting from the last totals `start`. */
  function DeltaTrace(start: Counts, loads: seq<Counts>): (d: seq<Counts>)
    ensures |d| == |loads|
  {
    if loads == [] then []
    else
      var earlier := loads[..|loads| - 1];
      DeltaTrace(start, earlier) + [Deltas(Previous(start, earlier), loads[|loads| - 1])]
  }

  function SumCounts(s: seq<Counts>): Counts {
    if s == [] then Zero() else SumCounts(s[..|s| - 1]).Plus(s[|s| - 1])
  }

  /**
   * The changes shown add up to the overall change: while every total
   * before the last load had something untranslated, the first totals plus
   * all the changes shown give the last totals.
   */
  lemma {:induction false} DeltasTelescope(start: Counts, loads: seq<Counts>)
    requires loads != [] && start.untranslated > 0
    requires forall i :: 0 <= i < |loads| - 1 ==> loads[i].untranslated > 0
    ensures start.Plus(SumCounts(DeltaTrace(start, loads))) == loads[|loads| - 1]
  {
    var earlier := loads[..|loads| - 1];
    var prev := Previous(start, earlier);
    var d := Deltas(prev, loads[|loads| - 1]);
    var trace := DeltaTrace(start, loads);
    assert trace[..|trace| - 1] == DeltaTrace(start, earlier);
    if earlier == [] {
      assert SumCounts(DeltaTrace(start, earlier)) == Zero();
    } else {
      DeltasTelescope(start, earlier);
      assert prev.untranslated > 0;
      PlusAssoc(start, SumCounts(DeltaTrace(start, earlier)), d);
    }
  }

  /** From the page's initial state the first load of any sequence shows no change. */
  lemma {:induction false} TraceStartsAtZero(loads: seq<Counts>)
    requires loads != []
    ensures DeltaTrace(Unset(), loads)[0] == Zero()
  {
    if |loads| > 1 {
      TraceStartsAtZero(loads[..|loads| - 1]);
    }
  }
}
