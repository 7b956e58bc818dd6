/** Two short runs on which the KLL histogram answers other than asked: a coverage test and a query. */
module KLLWitnesses {
  import opened Stream
  import opened Cascade
  import opened ExpoRuns
  import opened KLLHistogram

  lemma Quiet(st: State, s: Sample, next: Levels)
    requires Canonical(st.levels, 1, 0) && Add(st.levels, [s], 1) == next
    requires Flatten(st.levels) != [] ==> MaxTime(Flatten(st.levels)[0]) >= s.time - st.window
    ensures Step(st, Insert(s), LargestTime, 1) == State(next, st.window)
    ensures Canonical(next, 1, 0)
  {
    DropNone(st.levels, 1, 0);
    AddIsCanonical(st.levels, [s], 1, 0);
  }

  lemma TwoLevels(low: seq<Segment>, up: seq<Segment>)
    ensures Flatten(Level(low, Level(up, Empty))) == up + low
  {
    assert Flatten(Level(up, Empty)) == up;
  }

  lemma ThreeTies(a: Sample)
    requires a.time == 5
    ensures Run(Then(Then(Then(Start(2), Insert(a)), Insert(a)), Insert(a)), LargestTime, 1)
      == State(Level([[a]], Level([[a, a]], Empty)), 2)
  {
    var s1, s2 := State(Level([[a]], Empty), 2), State(Level([[a], [a]], Empty), 2);
    Quiet(State(Empty, 2), a, s1.levels);
    Quiet(s1, a, s2.levels);
    assert [[a], [a]][2..] + [[a]] == [[a]] && [a] + [a] == [a, a];
    Quiet(s2, a, Level([[a]], Level([[a, a]], Empty)));
    var t1 := Then(Start(2), Insert(a));
    assert Run(t1, LargestTime, 1) == s1;
    assert Run(Then(t1, Insert(a)), LargestTime, 1) == s2;
  }

  lemma TwoMore(a: Sample, b: Sample)
    requires a.time == 5 && b.time == 6
    ensures var st := State(Level([[a]], Level([[a, a]], Empty)), 2);
      Step(Step(st, Insert(b), LargestTime, 1), Insert(b), LargestTime, 1)
      == State(Level([[b]], Level([[a, a], [a, b]], Empty)), 2)
  {
    var s3, s4 := State(Level([[a]], Level([[a, a]], Empty)), 2), State(Level([[a], [b]], Level([[a, a]], Empty)), 2);
    TwoLevels([[a]], [[a, a]]);
    TwoLevels([[a], [b]], [[a, a]]);
    assert Flatten(s3.levels) == [[a, a], [a]] && Flatten(s4.levels) == [[a, a], [a], [b]];
    assert MaxTime([a, a]) == 5;
    Quiet(s3, b, s4.levels);
    assert [[a], [b]][2..] + [[b]] == [[b]] && [a] + [b] == [a, b];
    assert [[a, a]] + [[a, b]] == [[a, a], [a, b]];
    assert Add(Level([[a, a]], Empty), [a, b], 1) == Level([[a, a], [a, b]], Empty);
    Quiet(s4, b, Level([[b]], Level([[a, a], [a, b]], Empty)));
  }

  lemma Expiring(a: Sample, b: Sample, c: Sample)
    requires a.time == 5 && b.time == 6 && c.time == 8
    ensures Step(State(Level([[b]], Level([[a, a], [a, b]], Empty)), 2), Insert(c), LargestTime, 1)
      == State(Level([[b], [c]], Level([[a, b]], Empty)), 2)
    ensures MinTime([a, b]) == 5
  {
    var before := Level([[b]], Level([[a, a], [a, b]], Empty));
    TwoLevels([[b]], [[a, a], [a, b]]);
    assert Flatten(before) == [[a, a], [a, b], [b]];
    TimesPlus([a], [a]);
    TimesPlus([a], [b]);
    assert [a] + [a] == [a, a] && [a] + [b] == [a, b];
    assert MaxTime([a, a]) == 5 && MaxTime([a, b]) == 6;
    assert MinTime([a, b]) == 5;
    ExpiredIs(Flatten(before), LargestTime, 6, 1);
    assert DropOldest(before, 1) == Level([[b]], Level([[a, b]], Empty));
    assert [[b]] + [[c]] == [[b], [c]];
    assert [[a, a], [a, b]][1..] == [[a, b]];
  }

  lemma FourHeld(a: Sample, b: Sample, c: Sample)
    ensures Concat([[a, b], [b], [c]]) == [a, b, b, c]
  {
    assert [[a, b], [b], [c]][1..] == [[b], [c]] && [[b], [c]][1..] == [[c]];
    ConcatOne([c]);
  }

  /**
    With equal times allowed, strictness cannot be dropped: over this run Cover accepts [5, 8]
    although the first two samples, at time 5, have been expired.
   */
  lemma TieIsLost(a: Sample, b: Sample, c: Sample)
    requires a.time == 5 && b.time == 6 && c.time == 8
    ensures var past := Then(Then(Then(Start(2), Insert(a)), Insert(a)), Insert(a));
      var trace := Then(Then(Then(past, Insert(b)), Insert(b)), Insert(c));
      var segments := Flatten(Run(trace, LargestTime, 1).levels);
      && Inserted(trace) == [a, a, a, b, b, c] && Concat(segments) == [a, b, b, c]
      && segments != [] && MinTime(segments[0]) == 5 && MaxTime(segments[|segments| - 1]) == 8
  {
    ThreeTies(a);
    TwoMore(a, b);
    Expiring(a, b, c);
    TwoLevels([[b], [c]], [[a, b]]);
    FourHeld(a, b, c);
    var one := Then(Start(2), Insert(a));
    assert Inserted(one) == [a];
    var past := Then(Then(one, Insert(a)), Insert(a));
    assert Inserted(past) == [a, a, a];
    var five := Then(Then(past, Insert(b)), Insert(b));
    assert Inserted(five) == [a, a, a, b, b];
    var trace := Then(five, Insert(c));
    assert Run(five, LargestTime, 1) ==
      Step(Step(Run(past, LargestTime, 1), Insert(b), LargestTime, 1), Insert(b), LargestTime, 1);
    assert Flatten(Run(trace, LargestTime, 1).levels) == [[a, b], [b], [c]];
  }

  /** The samples at times 0 and 1 share a bucket by the time the one at 2 arrives. */
  lemma ThreeApart(a: Sample, b: Sample, c: Sample)
    requires a.time == 0 && b.time == 1 && c.time == 2
    ensures var trace := Then(Then(Then(Start(100), Insert(a)), Insert(b)), Insert(c));
      Flatten(Run(trace, LargestTime, 1).levels) == [[a, b], [c]]
  {
    var s1, s2 := State(Level([[a]], Empty), 100), State(Level([[a], [b]], Empty), 100);
    Quiet(State(Empty, 100), a, s1.levels);
    Quiet(s1, b, s2.levels);
    assert [[a], [b]][2..] + [[c]] == [[c]] && [a] + [b] == [a, b];
    Quiet(s2, c, Level([[c]], Level([[a, b]], Empty)));
    TwoLevels([[c]], [[a, b]]);
    var t1 := Then(Start(100), Insert(a));
    assert Run(t1, LargestTime, 1) == s1;
    assert Run(Then(t1, Insert(b)), LargestTime, 1) == s2;
  }

  /** A query for the one sample at time 1 is answered with the one at time 2. */
  lemma NextBucketAnswers(a: Sample, b: Sample, c: Sample)
    requires a.time == 0 && b.time == 1 && c.time == 2
    ensures var trace := Then(Then(Then(Start(100), Insert(a)), Insert(b)), Insert(c));
      var segments := Flatten(Run(trace, LargestTime, 1).levels);
      && segments == [[a, b], [c]] && RoundsUp(segments, 1)
      && FromBucket(segments, 1) == 1 && ToBucket(segments, 1) == 0
      && Concat(segments) == [a, b, c] && AnswerFirst(segments, 1) == 2 && AnswerLast(segments, 1, 1) == 3
  {
    ThreeApart(a, b, c);
    var segments := [[a, b], [c]];
    TimesPlus([a], [b]);
    assert [a] + [b] == [a, b];
    assert Spans(segments[0], 1);
    assert segments[..2] == segments && segments[..1] == [[a, b]];
    ConcatOne([a, b]);
    assert segments == [[a, b]] + [[c]];
    ConcatPlus([[a, b]], [[c]]);
    ConcatOne([c]);
  }
}
