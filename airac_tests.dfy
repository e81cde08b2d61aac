/** The unit tests of the cycle engine as lemmas over the reference
    functions, plus one worked example of each boundary behaviour. */
module AiracTests {
  import opened CivilCalendar
  import opened AiracCycle

  /** Whatever cycle is current, its neighbours compare below and above it. */
  lemma OrderAroundAnyCycle(c: Airac)
    ensures Lt(Previous(c), c)
    ensures Cmp(Next(c), c) == Greater
  {
    CmpIsTotalOrder(c, Next(c), c);
  }

  /** 2020 is a leap year, so its fourteenth cycle starts on 2020-12-31. */
  lemma LeapYearIdentifier()
    ensures Identifier(CycleFor(2020, 12, 31)) == "2014"
  {
    var c := CycleFor(2020, 12, 31);
    assert Starts(c) == DaysFromCivil(2020, 12, 31);
    DaysFromCivilInYear(2020, 12, 31);
    assert SequenceNumber(c) == 14;
  }

  lemma Pre2020Bounds()
    ensures Starts(CycleFor(2018, 2, 17)) == DaysFromCivil(2018, 2, 1)
    ensures Ends(CycleFor(2018, 2, 17)) == DaysFromCivil(2018, 3, 1)
  {
  }

  lemma Post2020Bounds()
    ensures Starts(CycleFor(2022, 5, 23)) == DaysFromCivil(2022, 5, 19)
    ensures Ends(CycleFor(2022, 5, 23)) == DaysFromCivil(2022, 6, 16)
  {
  }

  lemma Pre2020Identifier()
    ensures Identifier(CycleFor(2019, 5, 13)) == "1905"
  {
    var c := CycleFor(2019, 5, 13);
    assert Starts(c) == DaysFromCivil(2019, 4, 25);
    DaysFromCivilInYear(2019, 4, 25);
    assert SequenceNumber(c) == 5;
  }

  lemma Post2020Identifier()
    ensures Identifier(CycleFor(2022, 5, 23)) == "2205"
  {
    var c := CycleFor(2022, 5, 23);
    assert Starts(c) == DaysFromCivil(2022, 5, 19);
    DaysFromCivilInYear(2022, 5, 19);
    assert SequenceNumber(c) == 5;
  }

  /** 2019-12-05 starts a cycle, yet the backward search returns the cycle
      before it, which ends on that day. */
  lemma BackwardSearchSkipsExactStart()
    ensures OnGrid(Airac(DaysFromCivil(2019, 12, 5)))
    ensures Starts(CycleFor(2019, 12, 5)) == DaysFromCivil(2019, 11, 7)
    ensures Ends(CycleFor(2019, 12, 5)) == DaysFromCivil(2019, 12, 5)
  {
  }

  /** 2020-01-01 takes the forward branch and gets the anchor cycle, which
      only starts the next day. */
  lemma NewYearsDay2020()
    ensures CycleFor(2020, 1, 1) == Airac(START_DATE)
    ensures Starts(CycleFor(2020, 1, 1)) == DaysFromCivil(2020, 1, 1) + 1
  {
  }

  /** The same cases run through the imperative models. */
  method RunTests()
  {
    var a := FromYmd(2020, 12, 31);
    var s := Fmt(a);
    LeapYearIdentifier();
    assert s == "2014";

    a := FromYmd(2018, 2, 17);
    Pre2020Bounds();
    assert Starts(a) == DaysFromCivil(2018, 2, 1) && Ends(a) == DaysFromCivil(2018, 3, 1);

    a := FromYmd(2022, 5, 23);
    s := Fmt(a);
    Post2020Bounds();
    Post2020Identifier();
    assert Starts(a) == DaysFromCivil(2022, 5, 19) && Ends(a) == DaysFromCivil(2022, 6, 16);
    assert s == "2205";

    a := FromYmd(2019, 5, 13);
    s := Fmt(a);
    Pre2020Identifier();
    assert s == "1905";
  }
}
