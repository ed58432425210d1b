/** The grade that run.py computes from the results of the tests and from the answers to match questions. */
module Grading {
  import opened Records

  function Passed(r: Result): bool {
    r.code == "SUCCESS"
  }

  // ------------------------------------------------------------------ the reference: sums and quantifiers

  function Total(results: seq<Result>): int {
    if results == [] then 0 else results[0].weight + Total(results[1..])
  }

  function Score(results: seq<Result>): int {
    if results == [] then 0 else (if Passed(results[0]) then results[0].weight else 0) + Score(results[1..])
  }

  function Right(answers: seq<bool>): nat {
    if answers == [] then 0 else (if answers[0] then 1 else 0) + Right(answers[1..])
  }

  function Percent(score: int, total: int): real {
    100.0 * score as real / (if total == 0 then 1 else total) as real
  }

  /** The grade: points scored in percent of the points that could be scored. */
  function Grade(results: seq<Result>, answers: seq<bool>): real {
    Percent(Score(results) + Right(answers), Total(results) + |answers|)
  }

  /** What part of total score is, in percent; nothing to score counts as a total of 1. */
  ghost predicate IsPercentage(grade: real, score: int, total: int) {
    if total == 0 then grade == 100.0 * score as real else grade * total as real == 100.0 * score as real
  }

  lemma PercentMeans(score: int, total: int)
    ensures IsPercentage(Percent(score, total), score, total)
  {
  }

  /** Some test belongs to the problem. */
  function Tested(results: seq<Result>, pid: string): bool {
    results != [] && (results[|results| - 1].pid == pid || Tested(results[..|results| - 1], pid))
  }

  /** Every test of the problem was passed. */
  function AllPassed(results: seq<Result>, pid: string): bool {
    results == [] ||
    ((results[|results| - 1].pid == pid ==> Passed(results[|results| - 1])) && AllPassed(results[..|results| - 1], pid))
  }

  /** The verdict on each problem that was tested: it is passed iff all its tests are. */
  ghost predicate Verdicts(results: seq<Result>, verdicts: map<string, bool>) {
    forall pid :: && (pid in verdicts <==> Tested(results, pid))
                  && (pid in verdicts ==> verdicts[pid] == AllPassed(results, pid))
  }

  /** The two verdict functions in terms of membership. */
  lemma {:induction false} VerdictMeans(results: seq<Result>, pid: string)
    ensures Tested(results, pid) <==> exists r :: r in results && r.pid == pid
    ensures AllPassed(results, pid) <==> forall r :: r in results && r.pid == pid ==> Passed(r)
  {
    if results != [] {
      var before, last := results[..|results| - 1], results[|results| - 1];
      VerdictMeans(before, pid);
      assert results == before + [last];
      assert last in results;
    }
  }

  // ------------------------------------------------------------------ the loops of run.py

  method ScoreResults(results: seq<Result>) returns (score: int, total: int, verdicts: map<string, bool>)
    ensures score == Score(results) && total == Total(results)
    ensures Verdicts(results, verdicts)
  {
    score, total := 0, 0;
    verdicts := map[];
    var i := 0;
    while i < |results|
      invariant i <= |results|
      invariant score + Score(results[i..]) == Score(results)
      invariant total + Total(results[i..]) == Total(results)
      invariant Verdicts(results[..i], verdicts)
    {
      var test := results[i];
      assert results[i..][1..] == results[i + 1..];
      assert results[..i + 1] == results[..i] + [test];
      ghost var before := verdicts;
      OneMoreResult(results[..i], before, test);
      total := total + test.weight;
      if test.code == "SUCCESS" {
        score := score + test.weight;
        verdicts := verdicts[test.pid := if test.pid in verdicts then verdicts[test.pid] else true];
      } else {
        verdicts := verdicts[test.pid := false];
      }
      assert verdicts == Judged(before, test);
      i := i + 1;
    }
    assert results[..i] == results;
  }

  /** The two loops and the final percentage. */
  method GradeAll(results: seq<Result>, answers: seq<bool>) returns (grade: real, verdicts: map<string, bool>)
    ensures grade == Grade(results, answers)
    ensures Verdicts(results, verdicts)
    ensures IsPercentage(grade, Score(results) + Right(answers), Total(results) + |answers|)
  {
    PercentMeans(Score(results) + Right(answers), Total(results) + |answers|);
    var score, total;
    score, total, verdicts := ScoreResults(results);
    var j := 0;
    while j < |answers|
      invariant j <= |answers|
      invariant score + Right(answers[j..]) == Score(results) + Right(answers)
      invariant total == Total(results) + j
    {
      assert answers[j..][1..] == answers[j + 1..];
      if answers[j] {
        score := score + 1;
      }
      total := total + 1;
      j := j + 1;
    }
    grade := 100.0 * score as real / (if !(total == 0) then total else 1) as real;
  }

  /** The verdicts after one more test. */
  function Judged(verdicts: map<string, bool>, test: Result): map<string, bool> {
    verdicts[test.pid := Passed(test) && (test.pid in verdicts ==> verdicts[test.pid])]
  }

  lemma OneMoreResult(results: seq<Result>, verdicts: map<string, bool>, test: Result)
    requires Verdicts(results, verdicts)
    ensures Verdicts(results + [test], Judged(verdicts, test))
  {
    assert (results + [test])[..|results|] == results;
    if test.pid !in verdicts {
      UntestedPasses(results, test.pid);
    }
  }

  lemma {:induction false} UntestedPasses(results: seq<Result>, pid: string)
    requires !Tested(results, pid)
    ensures AllPassed(results, pid)
  {
    if results != [] {
      UntestedPasses(results[..|results| - 1], pid);
    }
  }

  // ------------------------------------------------------------------ what the grade means

  ghost predicate NonNegative(results: seq<Result>) {
    forall r :: r in results ==> r.weight >= 0
  }

  ghost predicate Flawless(results: seq<Result>, answers: seq<bool>) {
    (forall r :: r in results && r.weight > 0 ==> Passed(r)) && false !in answers
  }

  lemma {:induction false} ScoreBounds(results: seq<Result>)
    requires NonNegative(results)
    ensures 0 <= Score(results) <= Total(results)
    ensures Score(results) == Total(results) <==> forall r :: r in results && r.weight > 0 ==> Passed(r)
  {
    if results != [] {
      ScoreBounds(results[1..]);
      assert forall r :: r in results <==> r == results[0] || r in results[1..];
    }
  }

  lemma {:induction false} RightBounds(answers: seq<bool>)
    ensures Right(answers) <= |answers|
    ensures Right(answers) == |answers| <==> false !in answers
  {
    if answers != [] {
      RightBounds(answers[1..]);
      assert answers == [answers[0]] + answers[1..];
    }
  }

  lemma Percentage(score: int, total: int)
    requires 0 <= score <= total
    ensures 0.0 <= Percent(score, total) <= 100.0
    ensures Percent(score, total) == 100.0 <==> score == total > 0
  {
    var d := (if total == 0 then 1 else total) as real;
    var q := 100.0 * score as real / d;
    assert q * d == 100.0 * score as real;
    assert q > 100.0 ==> q * d > 100.0 * d;
    assert q < 0.0 ==> q * d < 0.0;
  }

  /** With non-negative weights the grade is a percentage; 100 iff something can be scored and nothing was missed. */
  lemma GradeIsPercentage(results: seq<Result>, answers: seq<bool>)
    requires NonNegative(results)
    ensures 0.0 <= Grade(results, answers) <= 100.0
    ensures Grade(results, answers) == 100.0 <==> Flawless(results, answers) && Total(results) + |answers| > 0
  {
    ScoreBounds(results);
    RightBounds(answers);
    Percentage(Score(results) + Right(answers), Total(results) + |answers|);
  }

  /** What one result adds to the sums. */
  lemma OneResult(r: Result)
    ensures Total([r]) == r.weight && Score([r]) == if r.code == "SUCCESS" then r.weight else 0
  {
  }

  lemma {:induction false} SumsSplit(a: seq<Result>, b: seq<Result>)
    ensures Total(a + b) == Total(a) + Total(b) && Score(a + b) == Score(a) + Score(b)
  {
    if a == [] {
      assert a + b == b;
    } else {
      SumsSplit(a[1..], b);
      assert (a + b)[1..] == a[1..] + b;
    }
  }

  lemma TakeOut(s: seq<Result>, i: nat)
    requires i < |s|
    ensures var rest := s[..i] + s[i + 1..];
            && multiset(s) == multiset{s[i]} + multiset(rest)
            && Total(s) == s[i].weight + Total(rest)
            && Score(s) == (if Passed(s[i]) then s[i].weight else 0) + Score(rest)
  {
    var tail := [s[i]] + s[i + 1..];
    assert s == s[..i] + tail && tail[1..] == s[i + 1..];
    SumsSplit(s[..i], s[i + 1..]);
    SumsSplit(s[..i], tail);
  }

  lemma Cancel(x: Result, a: multiset<Result>, b: multiset<Result>)
    requires multiset{x} + a == multiset{x} + b
    ensures a == b
  {
    assert a == (multiset{x} + a) - multiset{x};
    assert b == (multiset{x} + b) - multiset{x};
  }

  lemma {:induction false} SumsIgnoreOrder(a: seq<Result>, b: seq<Result>)
    requires multiset(a) == multiset(b)
    ensures Total(a) == Total(b) && Score(a) == Score(b)
    decreases |a|
  {
    if a == [] {
      assert |multiset(b)| == 0;
    } else {
      var x := a[0];
      assert x in multiset(b);
      var i :| 0 <= i < |b| && b[i] == x;
      var rest := b[..i] + b[i + 1..];
      assert multiset(a) == multiset{x} + multiset(a[1..]) by {
        assert a == [x] + a[1..];
      }
      TakeOut(b, i);
      Cancel(x, multiset(a[1..]), multiset(rest));
      SumsIgnoreOrder(a[1..], rest);
    }
  }

  lemma SameMembers(a: seq<Result>, b: seq<Result>, r: Result)
    requires multiset(a) == multiset(b)
    ensures r in a <==> r in b
  {
    assert r in multiset(a) <==> r in multiset(b);
  }

  lemma SameVerdict(a: seq<Result>, b: seq<Result>, pid: string)
    requires multiset(a) == multiset(b)
    ensures Tested(a, pid) == Tested(b, pid) && AllPassed(a, pid) == AllPassed(b, pid)
  {
    VerdictMeans(a, pid);
    VerdictMeans(b, pid);
    forall r: Result
      ensures r in a <==> r in b
    {
      SameMembers(a, b, r);
    }
  }

  /** Neither the grade nor the verdicts depend on the order of the results. */
  lemma OrderIsIrrelevant(a: seq<Result>, b: seq<Result>, answers: seq<bool>,
                          verdictsA: map<string, bool>, verdictsB: map<string, bool>)
    requires multiset(a) == multiset(b)
    requires Verdicts(a, verdictsA) && Verdicts(b, verdictsB)
    ensures Grade(a, answers) == Grade(b, answers)
    ensures verdictsA == verdictsB
  {
    SumsIgnoreOrder(a, b);
    forall pid
      ensures Tested(a, pid) == Tested(b, pid) && AllPassed(a, pid) == AllPassed(b, pid)
    {
      SameVerdict(a, b, pid);
    }
  }

  // ------------------------------------------------------------------ the grade of what the tests left behind

  /** The points of the tests, from the records themselves. */
  function PointsOf(records: seq<Record>): nat {
    if records == [] then 0 else records[0].weight + PointsOf(records[1..])
  }

  function PointsScored(records: seq<Record>): nat {
    if records == [] then 0 else (if records[0].passed then records[0].weight else 0) + PointsScored(records[1..])
  }

  /** Each result is what a record of a weight below 2^31 is read back as. */
  ghost predicate AllReadBack(records: seq<Record>, results: seq<Result>) {
    |results| == |records|
    && forall i :: 0 <= i < |records| ==> records[i].weight < 0x8000_0000 && ReadBack(records[i], results[i])
  }

  lemma {:induction false} PointsReadBack(records: seq<Record>, results: seq<Result>)
    requires AllReadBack(records, results)
    ensures Total(results) == PointsOf(records) && Score(results) == PointsScored(records)
    ensures NonNegative(results)
  {
    if records != [] {
      var rest := results[1..];
      forall i | 0 <= i < |records| - 1
        ensures records[1..][i].weight < 0x8000_0000 && ReadBack(records[1..][i], rest[i])
      {
        assert records[1..][i] == records[i + 1] && rest[i] == results[i + 1];
      }
      PointsReadBack(records[1..], rest);
      assert results == [results[0]] + rest;
    }
  }

  /** Every test that counts was passed, and there is something to score. */
  ghost predicate Perfect(records: seq<Record>, answers: seq<bool>) {
    && PointsOf(records) + |answers| > 0 && false !in answers
    && forall r :: r in records && r.weight > 0 ==> r.passed
  }

  function GradeOfRecords(records: seq<Record>, answers: seq<bool>): real {
    Percent(PointsScored(records) + Right(answers), PointsOf(records) + |answers|)
  }

  lemma GradeReadBack(records: seq<Record>, results: seq<Result>, answers: seq<bool>)
    requires AllReadBack(records, results)
    ensures Grade(results, answers) == GradeOfRecords(records, answers)
    ensures 0.0 <= Grade(results, answers) <= 100.0
    ensures Grade(results, answers) == 100.0 <==> Perfect(records, answers)
  {
    PointsReadBack(records, results);
    GradeIsPercentage(results, answers);
    PassedReadBack(records, results);
  }

  /**
   From the tests to the grade, through the file: it is the percentage of points that the records scored, within
   0..100, and 100 iff something can be scored, every test with a weight was passed and every answer is right.
   */
  lemma GradeOfFile(records: seq<Record>, answers: seq<bool>)
    requires forall r :: r in records ==> Printable(r) && r.weight < 0x8000_0000
    ensures ParseFile(File(records)).Some?
    ensures IsPercentage(Grade(ParseFile(File(records)).value, answers),
                         PointsScored(records) + Right(answers), PointsOf(records) + |answers|)
    ensures var grade := Grade(ParseFile(File(records)).value, answers);
            && 0.0 <= grade <= 100.0 && (grade == 100.0 <==> Perfect(records, answers))
  {
    FileIsReadBack(records);
    GradeReadBack(records, ParseFile(File(records)).value, answers);
    PercentageOfRecords(records, answers);
  }

  lemma PercentageOfRecords(records: seq<Record>, answers: seq<bool>)
    ensures IsPercentage(GradeOfRecords(records, answers),
                         PointsScored(records) + Right(answers), PointsOf(records) + |answers|)
  {
    PercentMeans(PointsScored(records) + Right(answers), PointsOf(records) + |answers|);
  }

  lemma FileIsReadBack(records: seq<Record>)
    requires forall r :: r in records ==> Printable(r) && r.weight < 0x8000_0000
    ensures ParseFile(File(records)).Some? && AllReadBack(records, ParseFile(File(records)).value)
  {
    FileRoundTrip(records);
    forall i | 0 <= i < |records|
      ensures records[i].weight < 0x8000_0000
    {
      assert records[i] in records;
    }
  }

  lemma PassedReadBack(records: seq<Record>, results: seq<Result>)
    requires AllReadBack(records, results)
    ensures (forall r :: r in results && r.weight > 0 ==> Passed(r))
       <==> forall r :: r in records && r.weight > 0 ==> r.passed
  {
    forall i | 0 <= i < |records|
      ensures results[i].weight == records[i].weight && Passed(results[i]) == records[i].passed
    {
      assert ReadBack(records[i], results[i]);
    }
    forall r | r in records
      ensures exists q :: q in results && q.weight == r.weight && Passed(q) == r.passed
    {
      var i :| 0 <= i < |records| && records[i] == r;
      assert results[i] in results;
    }
    forall q | q in results
      ensures exists r :: r in records && q.weight == r.weight && Passed(q) == r.passed
    {
      var i :| 0 <= i < |results| && results[i] == q;
      assert records[i] in records;
    }
  }
}
