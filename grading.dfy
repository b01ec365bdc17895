/** The scoring loop of `grade_transcript`: for each student row it counts
    the pixels in 22 fixed column windows, keeps the columns over the
    threshold, reduces them with `getIntegerDecimal` and decodes them with
    `getScore`. The preprocessed image and the number of students are
    inputs. */
module Grading {
  import opened PyValues
  import opened Pixels
  import opened Bubbles

  /** The left edges of the 22 bubble columns. */
  const Positions: seq<int> :=
    [17, 60, 93, 129, 164, 199, 234, 269, 304, 340, 375,
     408, 451, 486, 521, 557, 592, 627, 662, 698, 733, 768]

  /** The window size every column is probed with: the `w, h` left over from
      the last rectangle-drawing block, not each column's own width. */
  const WindowWidth: nat := 28
  const WindowHeight: nat := 72

  /** The first row's top edge and the distance between rows. */
  const FirstRowY: int := 12
  const RowPitch: int := 88

  /** The top edge of student row `k`, counting from 0. */
  function RowY(k: nat): int { FirstRowY + RowPitch * k }

  /** `non_zeros_list` for the row whose top edge is `y`. */
  function RowCounts(processed: seq<seq<int>>, y: int): (counts: seq<nat>)
    ensures |counts| == |Positions|
    ensures forall j :: 0 <= j < |counts| ==> counts[j] <= WindowWidth * WindowHeight
  {
    var counts := seq(|Positions|, j requires 0 <= j < |Positions| =>
      CountNonZeroPixels(processed, Positions[j], y, WindowWidth, WindowHeight));
    assert forall j :: 0 <= j < |counts| ==> counts[j] <= WindowWidth * WindowHeight by {
      forall j | 0 <= j < |counts| ensures counts[j] <= WindowWidth * WindowHeight {
        CountBounded(processed, Positions[j], y, WindowWidth, WindowHeight);
      }
    }
    counts
  }

  /** The score decoded from one row's counts, or the exception it raises:
      only ever the `TypeError` of subscripting the sentinel. */
  function DecodeRow(counts: seq<nat>): (r: Result<Option<string>>)
    ensures r.Raise? ==> r.error == NotSubscriptable
  {
    GetScore(GetIntegerDecimal(MarksAbove(counts)))
  }

  /** The score of student row `k`, counting from 0. */
  function RowScore(processed: seq<seq<int>>, k: nat): (r: Result<Option<string>>)
    ensures r.Raise? ==> r.error == NotSubscriptable
  {
    DecodeRow(RowCounts(processed, RowY(k)))
  }

  /** The per-row outcomes in row order, stopped at the first exception:
      either every score, or the first row's exception. */
  function Collect(outcomes: seq<Result<Option<string>>>): (r: Result<seq<Option<string>>>)
    ensures r.Ok? ==> |r.value| == |outcomes|
  {
    if outcomes == [] then Ok([])
    else
      match Collect(outcomes[..|outcomes| - 1])
      case Raise(e) => Raise(e)
      case Ok(scores) =>
        match outcomes[|outcomes| - 1]
        case Raise(e) => Raise(e)
        case Ok(score) => Ok(scores + [score])
  }

  /** The outcome of each of the first `students` rows, in row order. */
  function Outcomes(processed: seq<seq<int>>, students: nat): (outcomes: seq<Result<Option<string>>>)
    ensures |outcomes| == students
    ensures forall k :: 0 <= k < students ==> outcomes[k] == RowScore(processed, k)
  {
    seq(students, k requires 0 <= k < students => RowScore(processed, k))
  }

  /** The outcome of grading the first `students` rows: one score per
      student, or the exception of a row. */
  function Grade(processed: seq<seq<int>>, students: nat): (r: Result<seq<Option<string>>>)
    ensures r.Ok? ==> |r.value| == students
  {
    Collect(Outcomes(processed, students))
  }

  /** The scoring loop (lines 325-352): `y` starts at 12 and moves down one
      row pitch per student; `non_zeros_list` is built column by column. */
  method GradeTranscript(processed: seq<seq<int>>, numberOfStudents: nat)
    returns (result: Result<seq<Option<string>>>)
    ensures result == Grade(processed, numberOfStudents)
  {
    var scores: seq<Option<string>> := [];
    var y := FirstRowY;
    var n := 1;
    while n < numberOfStudents + 1
      invariant 1 <= n <= numberOfStudents + 1
      invariant y == RowY(n - 1)
      invariant Grade(processed, n - 1) == Ok(scores)
    {
      var nonZeros: seq<nat> := [];
      for p := 0 to |Positions|
        invariant |nonZeros| == p
        invariant forall i :: 0 <= i < p ==>
          nonZeros[i] == CountNonZeroPixels(processed, Positions[i], y, WindowWidth, WindowHeight)
      {
        var count := CountNonZeroPixels(processed, Positions[p], y, WindowWidth, WindowHeight);
        nonZeros := nonZeros + [count];
      }
      assert nonZeros == RowCounts(processed, y);
      var pixelsAbove := MarksAbove(nonZeros);
      var integerDecimal := GetIntegerDecimal(pixelsAbove);
      var score := GetScore(integerDecimal);
      assert score == RowScore(processed, n - 1);
      if score.Raise? {
        GradeStopsAt(processed, n - 1, numberOfStudents);
        return Raise(score.error);
      }
      GradeExtends(processed, n - 1, scores);
      scores := scores + [score.value];
      y := y + RowPitch;
      n := n + 1;
    }
    return Ok(scores);
  }

  /** Grading one more row appends that row's score to a successful outcome. */
  lemma GradeExtends(processed: seq<seq<int>>, m: nat, scores: seq<Option<string>>)
    requires Grade(processed, m) == Ok(scores)
    requires RowScore(processed, m).Ok?
    ensures Grade(processed, m + 1) == Ok(scores + [RowScore(processed, m).value])
  {
    assert Outcomes(processed, m + 1)[..m] == Outcomes(processed, m);
  }

  /** The first row that raises ends grading with its exception, however many
      rows follow it. */
  lemma GradeStopsAt(processed: seq<seq<int>>, m: nat, students: nat)
    requires m < students
    requires Grade(processed, m).Ok?
    requires RowScore(processed, m).Raise?
    ensures Grade(processed, students) == Raise(RowScore(processed, m).error)
  {
    var next := Outcomes(processed, m + 1);
    var all := Outcomes(processed, students);
    assert next[..m] == Outcomes(processed, m);
    assert all[..m + 1] == next;
    CollectKeepsFailure(all, m + 1);
  }

  // ---------------------------------------------------------------------
  // Properties of the grading outcome
  // ---------------------------------------------------------------------

  /** Collecting succeeds exactly when no outcome is an exception, and then
      it keeps every score, in order. */
  lemma {:induction false} CollectScores(outcomes: seq<Result<Option<string>>>)
    ensures Collect(outcomes).Ok? <==> forall k :: 0 <= k < |outcomes| ==> outcomes[k].Ok?
    ensures Collect(outcomes).Ok? ==>
              |Collect(outcomes).value| == |outcomes|
              && forall k :: 0 <= k < |outcomes| ==> Collect(outcomes).value[k] == outcomes[k].value
  {
    if outcomes != [] {
      var front := outcomes[..|outcomes| - 1];
      CollectScores(front);
      assert forall k :: 0 <= k < |front| ==> front[k] == outcomes[k];
    }
  }

  /** Once a prefix of the outcomes has failed, the rest is not looked at. */
  lemma {:induction false} CollectKeepsFailure(outcomes: seq<Result<Option<string>>>, m: nat)
    requires m <= |outcomes|
    requires Collect(outcomes[..m]).Raise?
    ensures Collect(outcomes) == Collect(outcomes[..m])
    decreases |outcomes|
  {
    if m < |outcomes| {
      var front := outcomes[..|outcomes| - 1];
      assert front[..m] == outcomes[..m];
      CollectKeepsFailure(front, m);
    } else {
      assert outcomes[..m] == outcomes;
    }
  }

  /** When collecting fails, it fails with the exception of the first
      outcome that is one. */
  lemma {:induction false} CollectFirstFailure(outcomes: seq<Result<Option<string>>>)
    requires Collect(outcomes).Raise?
    ensures exists k :: 0 <= k < |outcomes| && outcomes[k].Raise?
                        && Collect(outcomes).error == outcomes[k].error
                        && forall i :: 0 <= i < k ==> outcomes[i].Ok?
  {
    var front := outcomes[..|outcomes| - 1];
    assert forall k :: 0 <= k < |front| ==> front[k] == outcomes[k];
    if Collect(front).Raise? {
      CollectFirstFailure(front);
      var k :| 0 <= k < |front| && front[k].Raise? && Collect(front).error == front[k].error
               && forall i :: 0 <= i < k ==> front[i].Ok?;
      assert outcomes[k] == front[k];
    } else {
      CollectScores(front);
      assert outcomes[|outcomes| - 1].Raise?;
    }
  }

  /** Grading succeeds exactly when no row raises, and then it yields one
      score per student, in row order. */
  lemma GradeScores(processed: seq<seq<int>>, students: nat)
    ensures Grade(processed, students).Ok? <==> forall k :: 0 <= k < students ==> RowScore(processed, k).Ok?
    ensures Grade(processed, students).Ok? ==>
              |Grade(processed, students).value| == students
              && forall k :: 0 <= k < students ==> Grade(processed, students).value[k] == RowScore(processed, k).value
  {
    CollectScores(Outcomes(processed, students));
  }

  /** When grading raises, it raises the exception of the first row that
      raises. */
  lemma GradeFirstFailure(processed: seq<seq<int>>, students: nat)
    ensures Grade(processed, students).Raise? ==>
              exists k :: 0 <= k < students && RowScore(processed, k).Raise?
                          && Grade(processed, students).error == RowScore(processed, k).error
                          && forall i :: 0 <= i < k ==> RowScore(processed, i).Ok?
  {
    var outcomes := Outcomes(processed, students);
    if Collect(outcomes).Raise? {
      CollectFirstFailure(outcomes);
      var k :| 0 <= k < |outcomes| && outcomes[k].Raise? && Collect(outcomes).error == outcomes[k].error
               && forall i :: 0 <= i < k ==> outcomes[i].Ok?;
      assert outcomes[k] == RowScore(processed, k);
      assert forall i :: 0 <= i < k ==> RowScore(processed, i).Ok? by {
        forall i | 0 <= i < k ensures RowScore(processed, i).Ok? {
          assert outcomes[i] == RowScore(processed, i);
        }
      }
      assert Grade(processed, students).error == RowScore(processed, k).error;
    }
  }

  /** Grading succeeds exactly when no row raises, and then it yields one
      score per student, in row order; otherwise it raises the exception of
      the first row that raises. */
  lemma GradeOutcome(processed: seq<seq<int>>, students: nat)
    ensures Grade(processed, students).Ok? <==> forall k :: 0 <= k < students ==> RowScore(processed, k).Ok?
    ensures Grade(processed, students).Ok? ==>
              |Grade(processed, students).value| == students
              && forall k :: 0 <= k < students ==> Grade(processed, students).value[k] == RowScore(processed, k).value
    ensures Grade(processed, students).Raise? ==>
              exists k :: 0 <= k < students && RowScore(processed, k).Raise?
                          && Grade(processed, students).error == RowScore(processed, k).error
                          && forall i :: 0 <= i < k ==> RowScore(processed, i).Ok?
  {
    GradeScores(processed, students);
    GradeFirstFailure(processed, students);
  }

  /** The only exception grading raises is the `TypeError` of subscripting
      the sentinel. */
  lemma GradeRaisesTypeError(processed: seq<seq<int>>, students: nat)
    ensures Grade(processed, students).Raise? ==> Grade(processed, students).error == NotSubscriptable
  {
    GradeFirstFailure(processed, students);
  }

  /** The columns of student row `k` whose window holds more than 1000
      non-zero pixels. */
  ghost function FilledColumns(processed: seq<seq<int>>, k: nat): set<nat>
  {
    ColumnsAbove(RowCounts(processed, RowY(k)))
  }

  /** A row raises (the sentinel reaches `getScore`) exactly when it has no
      filled column or three or more. */
  lemma RowScoreRaises(processed: seq<seq<int>>, k: nat)
    ensures RowScore(processed, k).Raise?
            <==> |FilledColumns(processed, k)| == 0 || |FilledColumns(processed, k)| >= 3
  {
    var counts := RowCounts(processed, RowY(k));
    MarksAboveCount(counts);
    SelectionScoreRaises(MarksAbove(counts));
  }

  /** A row reads `'v'` exactly when column 0 is its only filled column. */
  lemma RowScoreIsV(processed: seq<seq<int>>, k: nat)
    ensures RowScore(processed, k) == Ok(Some("v")) <==> FilledColumns(processed, k) == {0}
  {
    var counts := RowCounts(processed, RowY(k));
    var marks := MarksAbove(counts);
    var filled := FilledColumns(processed, k);
    MarksAboveCount(counts);
    MarksAboveExact(counts);
    GetScoreIsV(GetIntegerDecimal(marks));
    if |marks| == 1 && marks[0].index == 0 {
      forall j | j in filled ensures j == 0 {
        var i :| 0 <= i < |marks| && marks[i].index == j;
      }
      assert 0 in filled;
    }
    if filled == {0} {
      assert |marks| == 1;
      assert marks[0].index in filled;
    }
  }
}
