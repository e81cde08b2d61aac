/** The AIRAC cycle engine: the 28-day publication cycles of the AIRAC system
    (ICAO Annex 15, chapter 6), all anchored at a cycle known to start on
    2020-01-02. A cycle is a plain value wrapping its start date. */
module AiracCycle {
  import opened CivilCalendar

  /** Day number of 2020-01-02, the start of a real AIRAC cycle. */
  const START_DATE: int := DaysFromCivil(2020, 1, 2)

  /** Every AIRAC cycle lasts exactly 28 days. */
  const CYCLE_LENGTH: int := 28

  /** One cycle, identified by the day number on which it becomes effective. */
  datatype Airac = Airac(start: int)

  /** Cycle starts lie a whole number of cycles away from the anchor. Every
      cycle the engine hands out has this property. */
  predicate OnGrid(c: Airac) {
    (c.start - START_DATE) % CYCLE_LENGTH == 0
  }

  // ---------------------------------------------------------------------
  // Ordering: the derived `Ord` of a one-field tuple struct compares the
  // start dates, which chrono orders chronologically.

  datatype Ordering = Less | Equal | Greater

  function Cmp(a: Airac, b: Airac): (r: Ordering)
    ensures r == Equal <==> a == b
  {
    if a.start < b.start then Less
    else if a.start == b.start then Equal
    else Greater
  }

  predicate Lt(a: Airac, b: Airac) {
    Cmp(a, b) == Less
  }

  /** `Cmp` is a total order: it flips when its arguments are swapped, is
      transitive, and says exactly one of the three answers. */
  lemma CmpIsTotalOrder(a: Airac, b: Airac, c: Airac)
    ensures Cmp(a, b) == Less <==> Cmp(b, a) == Greater
    ensures Cmp(a, b) == Equal <==> Cmp(b, a) == Equal
    ensures Lt(a, b) && Lt(b, c) ==> Lt(a, c)
    ensures Lt(a, b) || a == b || Lt(b, a)
  {
  }

  // ---------------------------------------------------------------------
  // Stepping and bounds.

  /** The cycle before `c`: it ends on the day `c` starts. */
  function Previous(c: Airac): (p: Airac)
    ensures Ends(p) == Starts(c)
    ensures Lt(p, c)
  {
    Airac(c.start - CYCLE_LENGTH)
  }

  /** The cycle after `c`: it starts on the day `c` ends. */
  function Next(c: Airac): (n: Airac)
    ensures Starts(n) == Ends(c)
    ensures Lt(c, n)
  {
    Airac(c.start + CYCLE_LENGTH)
  }

  /** The first day on which `c` is effective. */
  function Starts(c: Airac): int {
    c.start
  }

  /** The first day on which `c` is no longer effective. */
  function Ends(c: Airac): int {
    c.start + CYCLE_LENGTH
  }

  lemma PreviousNextRoundTrip(c: Airac)
    ensures Next(Previous(c)) == c
    ensures Previous(Next(c)) == c
  {
  }

  lemma Bounds(c: Airac)
    ensures Ends(c) == Starts(c) + CYCLE_LENGTH
    ensures Ends(c) == Starts(Next(c))
    ensures Starts(c) == Ends(Previous(c))
  {
  }

  /** Stepping keeps a cycle on the grid. */
  lemma StepsStayOnGrid(c: Airac)
    requires OnGrid(c)
    ensures OnGrid(Previous(c)) && OnGrid(Next(c))
  {
    var q := (c.start - START_DATE) / CYCLE_LENGTH;
    assert c.start - CYCLE_LENGTH - START_DATE == CYCLE_LENGTH * (q - 1);
    assert c.start + CYCLE_LENGTH - START_DATE == CYCLE_LENGTH * (q + 1);
  }

  /** Whole numbers of cycles away from the anchor are on the grid. */
  lemma GridPoint(q: int)
    ensures OnGrid(Airac(START_DATE + CYCLE_LENGTH * q))
  {
  }

  /** Cycles on the grid tile the timeline: two different ones do not overlap. */
  lemma CyclesTile(a: Airac, b: Airac)
    requires OnGrid(a) && OnGrid(b)
    ensures a == b || Ends(a) <= Starts(b) || Ends(b) <= Starts(a)
  {
    var qa := (a.start - START_DATE) / CYCLE_LENGTH;
    var qb := (b.start - START_DATE) / CYCLE_LENGTH;
    assert a.start - b.start == CYCLE_LENGTH * (qa - qb);
    if qa < qb {
      assert Ends(a) <= Starts(b);
    } else if qb < qa {
      assert Ends(b) <= Starts(a);
    }
  }

  /** At most one cycle on the grid is effective on a given day. */
  lemma ContainingCycleUnique(a: Airac, b: Airac, z: int)
    requires OnGrid(a) && OnGrid(b)
    requires Starts(a) <= z < Ends(a)
    requires Starts(b) <= z < Ends(b)
    ensures a == b
  {
    CyclesTile(a, b);
  }

  // ---------------------------------------------------------------------
  // Locating the cycle of a date.

  /** Closed-form reference for `FromYmd`. For a year before 2020 it is the
      cycle that starts the smallest whole number (at least one) of cycles
      before the anchor strictly before the target; otherwise it is the last
      cycle start on or before the target, but never earlier than the anchor. */
  function CycleFor(y: int, m: int, d: int): Airac
    requires ValidDate(y, m, d)
  {
    var target := DaysFromCivil(y, m, d);
    if y < 2020 then
      Airac(START_DATE - CYCLE_LENGTH * ((START_DATE - target) / CYCLE_LENGTH + 1))
    else if target < START_DATE then
      Airac(START_DATE)
    else
      Airac(START_DATE + CYCLE_LENGTH * ((target - START_DATE) / CYCLE_LENGTH))
  }

  /** A date of a year before 2020 lies at least two days before the anchor
      (2019-12-31 is the latest). */
  lemma BeforeAnchorYear(y: int, m: int, d: int)
    requires ValidDate(y, m, d) && y < 2020
    ensures DaysFromCivil(y, m, d) <= START_DATE - 2
  {
    DaysFromCivilInYear(y, m, d);
    if y + 1 < 2020 {
      YearStartMonotone(y + 1, 2020);
    }
  }

  /** A date of 2020 or later lies before the anchor only when it is
      2020-01-01, the day before it. */
  lemma FromAnchorYear(y: int, m: int, d: int)
    requires ValidDate(y, m, d) && y >= 2020
    ensures DaysFromCivil(y, m, d) >= START_DATE - 1
    ensures DaysFromCivil(y, m, d) < START_DATE <==> y == 2020 && m == 1 && d == 1
  {
    DaysFromCivilInYear(y, m, d);
    if y > 2020 {
      YearLength(2020);
      if y > 2021 {
        YearStartMonotone(2021, y);
      }
    } else if m > 1 {
      MonthsFillYear(y, 1);
    }
  }

  /** Targets in 2020 or later: the result is on the grid, no earlier than
      the anchor, and contains the target whenever the target is on or after
      the anchor. */
  lemma ForwardBranch(y: int, m: int, d: int)
    requires ValidDate(y, m, d) && y >= 2020
    ensures OnGrid(CycleFor(y, m, d))
    ensures START_DATE <= Starts(CycleFor(y, m, d))
    ensures START_DATE <= DaysFromCivil(y, m, d) ==>
      Starts(CycleFor(y, m, d)) <= DaysFromCivil(y, m, d) < Ends(CycleFor(y, m, d))
  {
    var target := DaysFromCivil(y, m, d);
    if START_DATE <= target {
      var q := (target - START_DATE) / CYCLE_LENGTH;
      GridPoint(q);
      assert CycleFor(y, m, d) == Airac(START_DATE + CYCLE_LENGTH * q);
      assert CYCLE_LENGTH * q <= target - START_DATE < CYCLE_LENGTH * (q + 1);
    } else {
      GridPoint(0);
    }
  }

  /** Targets before 2020: the result is on the grid, before the anchor, and
      starts strictly before the target, which lies at most at its end. The
      strict lower bound comes from stepping before comparing. */
  lemma BackwardBranch(y: int, m: int, d: int)
    requires ValidDate(y, m, d) && y < 2020
    ensures OnGrid(CycleFor(y, m, d))
    ensures Starts(CycleFor(y, m, d)) < START_DATE
    ensures Starts(CycleFor(y, m, d)) < DaysFromCivil(y, m, d) <= Ends(CycleFor(y, m, d))
  {
    BeforeAnchorYear(y, m, d);
    var target := DaysFromCivil(y, m, d);
    var q := (START_DATE - target) / CYCLE_LENGTH;
    GridPoint(-(q + 1));
    assert CycleFor(y, m, d) == Airac(START_DATE + CYCLE_LENGTH * -(q + 1));
    assert CYCLE_LENGTH * q <= START_DATE - target < CYCLE_LENGTH * (q + 1);
  }

  /** The located cycle contains its target, half-open at the end, except in
      exactly two boundary cases: a pre-2020 target that is itself a cycle
      start (it lands on the cycle before), and 2020-01-01 (it lands on the
      cycle after). */
  lemma CycleForContainsIff(y: int, m: int, d: int)
    requires ValidDate(y, m, d)
    ensures Starts(CycleFor(y, m, d)) <= DaysFromCivil(y, m, d) < Ends(CycleFor(y, m, d))
      <==> !((y == 2020 && m == 1 && d == 1)
             || (y < 2020 && OnGrid(Airac(DaysFromCivil(y, m, d)))))
  {
    var target := DaysFromCivil(y, m, d);
    var c := CycleFor(y, m, d);
    if y < 2020 {
      BackwardBranch(y, m, d);
      if target == Ends(c) {
        StepsStayOnGrid(c);
      } else if OnGrid(Airac(target)) {
        CyclesTile(c, Airac(target));
      }
    } else {
      ForwardBranch(y, m, d);
      FromAnchorYear(y, m, d);
    }
  }

  /** The model of `AIRAC::from_ymd`: a cursor starts at the anchor and moves
      in whole cycles towards the target. Before 2020 it steps back and then
      compares; from 2020 on it compares and then steps forward. It returns
      the cycle `CycleFor` describes, whose bounds `ForwardBranch`,
      `BackwardBranch` and `CycleForContainsIff` give. */
  method FromYmd(y: int, m: int, d: int) returns (c: Airac)
    requires ValidDate(y, m, d)
    ensures c == CycleFor(y, m, d)
  {
    var airacDate := START_DATE;
    var target := DaysFromCivil(y, m, d);
    if y < 2020 {
      BeforeAnchorYear(y, m, d);
      while true
        invariant airacDate <= START_DATE && OnGrid(Airac(airacDate))
        invariant target <= airacDate
        decreases airacDate - target
      {
        StepsStayOnGrid(Airac(airacDate));
        airacDate := airacDate - CYCLE_LENGTH;
        if airacDate < target {
          break;
        }
      }
      BackwardBranch(y, m, d);
      ContainingCycleUnique(Airac(airacDate), CycleFor(y, m, d), target - 1);
    } else {
      while true
        invariant START_DATE <= airacDate && OnGrid(Airac(airacDate))
        invariant airacDate == START_DATE || airacDate <= target
        decreases target - airacDate
      {
        if airacDate + CYCLE_LENGTH > target {
          break;
        }
        StepsStayOnGrid(Airac(airacDate));
        airacDate := airacDate + CYCLE_LENGTH;
      }
      ForwardBranch(y, m, d);
      if START_DATE <= target {
        ContainingCycleUnique(Airac(airacDate), CycleFor(y, m, d), target);
      }
    }
    c := Airac(airacDate);
  }

  // ---------------------------------------------------------------------
  // The YYSS identifier.

  /** The calendar year in which `c` starts. */
  function StartYear(c: Airac): int {
    YearOf(Starts(c))
  }

  /** `c` stepped back `k` cycles, as the display loop does one step at a time. */
  function Rewind(c: Airac, k: nat): (r: Airac)
    ensures Starts(r) == Starts(c) - CYCLE_LENGTH * k
    decreases k
  {
    if k == 0 then c else Previous(Rewind(c, k - 1))
  }

  /** The 1-based position of `c` among the cycles that start in its year:
      one more than the whole cycles between January 1 and its start. At most
      14 cycles start in one year. */
  function SequenceNumber(c: Airac): (n: int)
    ensures 1 <= n <= 14
  {
    YearLength(StartYear(c));
    (Starts(c) - YearStart(StartYear(c))) / CYCLE_LENGTH + 1
  }

  /** The sequence number is one more than the length of the run of
      immediate predecessors that start in the same year. */
  lemma {:induction false} SequenceNumberCountsRun(c: Airac)
    ensures forall k: nat :: 1 <= k < SequenceNumber(c) ==>
      StartYear(Rewind(c, k)) == StartYear(c)
    ensures StartYear(Rewind(c, SequenceNumber(c))) != StartYear(c)
  {
    var year := StartYear(c);
    forall k: nat | 1 <= k < SequenceNumber(c)
      ensures StartYear(Rewind(c, k)) == year
    {
      YearOfCharacterized(Starts(Rewind(c, k)), year);
    }
    YearOfCharacterized(Starts(Rewind(c, SequenceNumber(c))), year);
  }

  /** Within a year the sequence number goes up by one per cycle. */
  lemma SequenceNumberNext(c: Airac)
    requires StartYear(Next(c)) == StartYear(c)
    ensures SequenceNumber(Next(c)) == SequenceNumber(c) + 1
  {
  }

  /** A cycle is number 1 of its year exactly when the cycle before it starts
      in another year, which is then the year before. */
  lemma SequenceNumberFirst(c: Airac)
    ensures SequenceNumber(c) == 1 <==> StartYear(Previous(c)) != StartYear(c)
    ensures SequenceNumber(c) == 1 ==> StartYear(Previous(c)) == StartYear(c) - 1
  {
    var year := StartYear(c);
    YearOfCharacterized(Starts(Previous(c)), year);
    YearLength(year - 1);
    YearOfCharacterized(Starts(Previous(c)), year - 1);
  }

  predicate IsDigit(ch: char) {
    '0' <= ch <= '9'
  }

  function DigitValue(ch: char): int {
    ch as int - '0' as int
  }

  /** `n` written with two decimal digits, zero-padded. */
  function TwoDigits(n: int): (s: string)
    requires 0 <= n < 100
    ensures |s| == 2 && IsDigit(s[0]) && IsDigit(s[1])
    ensures DigitValue(s[0]) * 10 + DigitValue(s[1]) == n
  {
    [('0' as int + n / 10) as char, ('0' as int + n % 10) as char]
  }

  /** The identifier `YYSS`: the start year modulo 100 (as chrono's `%y`
      gives it), then the sequence number, both as two digits. */
  function Identifier(c: Airac): (s: string)
    ensures |s| == 4 && forall i :: 0 <= i < 4 ==> IsDigit(s[i])
    ensures DigitValue(s[0]) * 10 + DigitValue(s[1]) == StartYear(c) % 100
    ensures DigitValue(s[2]) * 10 + DigitValue(s[3]) == SequenceNumber(c)
  {
    TwoDigits(StartYear(c) % 100) + TwoDigits(SequenceNumber(c))
  }

  /** The model of `Display for AIRAC`: count the predecessors that start in
      the same year by stepping back until the year changes. */
  method Fmt(c: Airac) returns (s: string)
    ensures s == Identifier(c)
  {
    var airacCount := 0;
    var a := c;
    ghost var year := StartYear(c);
    YearOfCharacterized(Starts(c), year);
    while true
      invariant a == Rewind(c, airacCount)
      invariant StartYear(a) == year
      decreases Starts(a) - YearStart(year)
    {
      YearOfCharacterized(Starts(a), year);
      a := Previous(a);
      if StartYear(a) != StartYear(c) {
        break;
      }
      airacCount := airacCount + 1;
    }
    YearOfCharacterized(Starts(a), year);
    assert airacCount + 1 == SequenceNumber(c);
    s := TwoDigits(StartYear(c) % 100) + TwoDigits(airacCount + 1);
  }
}
