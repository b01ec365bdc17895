/** Decoding one student's row of bubbles: the columns whose pixel count
    passes the threshold are kept as (index, count) marks, `getIntegerDecimal`
    reduces them to an "integer/decimal" selection (or the sentinel `0`), and
    `getScore` turns the selection into the score text. */
module Bubbles {
  import opened PyValues

  /** A pixel count is a filled bubble when it exceeds this. */
  const Threshold: nat := 1000

  /** One `(index, element)` pair of `enumerate` over the row's counts. */
  datatype Mark = Mark(index: nat, count: nat)

  /** What `getIntegerDecimal` returns: the integer `0` when there is no
      usable selection, otherwise the (at most two) marks. */
  datatype IntegerDecimal = ZeroSentinel | Marks(marks: seq<Mark>)

  /** The comprehension `[(index, element) for index, element in
      enumerate(counts) if element > 1000]`. */
  function MarksAbove(counts: seq<nat>): (marks: seq<Mark>)
    ensures |marks| <= |counts|
  {
    if counts == [] then []
    else
      var j := |counts| - 1;
      var front := MarksAbove(counts[..j]);
      if counts[j] > Threshold then front + [Mark(j, counts[j])] else front
  }

  /** Every mark is a column over the threshold, with its own index and count,
      and the marks are in ascending column order. */
  ghost predicate MarksSound(counts: seq<nat>, marks: seq<Mark>)
  {
    (forall k :: 0 <= k < |marks| ==>
       marks[k].index < |counts| && marks[k].count == counts[marks[k].index]
       && marks[k].count > Threshold)
    && (forall k, l :: 0 <= k < l < |marks| ==> marks[k].index < marks[l].index)
  }

  /** Every column over the threshold has a mark. */
  ghost predicate MarksComplete(counts: seq<nat>, marks: seq<Mark>)
  {
    forall j :: 0 <= j < |counts| && counts[j] > Threshold ==>
      exists k :: 0 <= k < |marks| && marks[k].index == j
  }

  lemma {:induction false} MarksAboveSound(counts: seq<nat>)
    ensures MarksSound(counts, MarksAbove(counts))
  {
    if counts != [] {
      var j := |counts| - 1;
      var prefix := counts[..j];
      var front := MarksAbove(prefix);
      var marks := MarksAbove(counts);
      MarksAboveSound(prefix);
      assert forall i :: 0 <= i < j ==> prefix[i] == counts[i];
      assert forall k :: 0 <= k < |front| ==> marks[k] == front[k] && front[k].index < j
                                              && front[k].count == counts[front[k].index];
      if counts[j] > Threshold {
        assert marks[|front|] == Mark(j, counts[j]);
      }
    }
  }

  lemma {:induction false} MarksAboveComplete(counts: seq<nat>)
    ensures MarksComplete(counts, MarksAbove(counts))
  {
    if counts != [] {
      var j := |counts| - 1;
      var prefix := counts[..j];
      var front := MarksAbove(prefix);
      var marks := MarksAbove(counts);
      MarksAboveComplete(prefix);
      assert forall k :: 0 <= k < |front| ==> marks[k] == front[k];
      forall i | 0 <= i < |counts| && counts[i] > Threshold
        ensures exists k :: 0 <= k < |marks| && marks[k].index == i
      {
        if i < j {
          assert prefix[i] == counts[i];
          var k :| 0 <= k < |front| && front[k].index == i;
          assert marks[k].index == i;
        } else {
          assert marks[|front|].index == i;
        }
      }
    }
  }

  /** The marks are exactly the columns over the threshold, each with its own
      index and count, in ascending column order. */
  ghost predicate MarksExactly(counts: seq<nat>, marks: seq<Mark>)
  {
    MarksSound(counts, marks)
    && forall j :: 0 <= j < |counts| ==>
         (counts[j] > Threshold <==> exists k :: 0 <= k < |marks| && marks[k].index == j)
  }

  /** The kept marks are exactly the columns over the threshold, each with its
      own index and count, in ascending column order. */
  lemma MarksAboveExact(counts: seq<nat>)
    ensures MarksExactly(counts, MarksAbove(counts))
  {
    var marks := MarksAbove(counts);
    MarksAboveSound(counts);
    MarksAboveComplete(counts);
    forall j | 0 <= j < |counts|
      ensures counts[j] > Threshold <==> exists k :: 0 <= k < |marks| && marks[k].index == j
    {
      if exists k :: 0 <= k < |marks| && marks[k].index == j {
        var k :| 0 <= k < |marks| && marks[k].index == j;
        assert counts[j] == marks[k].count;
      }
    }
  }

  /** The columns whose count is over the threshold. */
  ghost function ColumnsAbove(counts: seq<nat>): set<nat>
  {
    set j: nat | j < |counts| && counts[j] > Threshold
  }

  /** One mark is kept per column over the threshold. */
  lemma {:induction false} MarksAboveCount(counts: seq<nat>)
    ensures |MarksAbove(counts)| == |ColumnsAbove(counts)|
  {
    if counts != [] {
      var j := |counts| - 1;
      var prefix := counts[..j];
      MarksAboveCount(prefix);
      var last: set<nat> := if counts[j] > Threshold then {j} else {};
      assert ColumnsAbove(counts) == ColumnsAbove(prefix) + last by {
        forall i | i in ColumnsAbove(counts) ensures i in ColumnsAbove(prefix) + last {
          if i < j { assert prefix[i] == counts[i]; }
        }
      }
      assert ColumnsAbove(prefix) * last == {};
    }
  }

  /** `getIntegerDecimal(lst)`: the sentinel for no marks or three or more,
      otherwise `lst[:2]`. */
  function GetIntegerDecimal(lst: seq<Mark>): (r: IntegerDecimal)
    ensures r == ZeroSentinel <==> |lst| == 0 || |lst| >= 3
    ensures r.Marks? ==> r.marks == lst
  {
    if |lst| >= 3 then ZeroSentinel
    else if |lst| == 0 then ZeroSentinel
    else Marks(Slice(lst, 0, 2))
  }

  /** `getScore(lst)`. `lst[0][0]` raises on the sentinel (an `int`) and on an
      empty list; the branches the source leaves open fall through to `None`. */
  function GetScore(lst: IntegerDecimal): (r: Result<Option<string>>)
    ensures r.Raise? <==> lst == ZeroSentinel || lst.marks == []
    ensures r.Raise? ==> (r.error == NotSubscriptable <==> lst == ZeroSentinel)
  {
    match lst
    case ZeroSentinel => Raise(NotSubscriptable)
    case Marks(m) =>
      if |m| == 0 then Raise(IndexOutOfRange)
      else if m[0].index == 0 then
        if |m| == 1 then Ok(Some("v")) else Ok(None)
      else if |m| == 2 then
        Ok(Some(Str(m[0].index - 1) + "." + Str(m[1].index - 12)))
      else Ok(None)
  }

  // ---------------------------------------------------------------------
  // Reading a score text back
  // ---------------------------------------------------------------------

  /** The position of the first `c` in `s`, if any. */
  function FirstIndexOf(s: string, c: char): (r: Option<nat>)
    ensures r.None? <==> c !in s
    ensures r.Some? ==> r.value < |s| && s[r.value] == c && c !in s[..r.value]
  {
    if s == [] then None
    else if s[0] == c then Some(0)
    else
      match FirstIndexOf(s[1..], c)
      case None => None
      case Some(k) => assert s[1..][..k] == s[1..k + 1]; Some(k + 1)
  }

  /** The integer part and the decimal part of a score text
      `"<integer>.<decimal>"`; `None` for any other text, such as `"v"`. */
  function ParseScore(text: string): Option<(int, int)>
  {
    match FirstIndexOf(text, '.')
    case None => None
    case Some(k) =>
      match (ParseInt(text[..k]), ParseInt(text[k + 1..]))
      case (Some(i), Some(d)) => Some((i, d))
      case _ => None
  }

  /** The text `str(a) + '.' + str(b)` reads back as (a, b). */
  lemma ScoreTextRoundTrip(a: int, b: int)
    ensures ParseScore(Str(a) + "." + Str(b)) == Some((a, b))
  {
    var sa, sb := Str(a), Str(b);
    var text := sa + "." + sb;
    assert text[..|sa|] == sa;
    assert text[|sa| + 1..] == sb;
    assert text[|sa|] == '.';
    StrRoundTrip(a);
    StrRoundTrip(b);
  }

  // ---------------------------------------------------------------------
  // What getScore decides
  // ---------------------------------------------------------------------

  /** The score is `'v'` exactly when the selection is the single mark at
      column 0. */
  lemma GetScoreIsV(lst: IntegerDecimal)
    ensures GetScore(lst) == Ok(Some("v"))
            <==> lst.Marks? && |lst.marks| == 1 && lst.marks[0].index == 0
  {
    if lst.Marks? && |lst.marks| == 2 && lst.marks[0].index != 0 {
      var m := lst.marks;
      var text := Str(m[0].index - 1) + "." + Str(m[1].index - 12);
      assert |text| >= 3;
    }
  }

  /** A two-mark selection whose first mark is not column 0 yields a text that
      reads back as (i - 1, d - 12), with i and d the two column indices;
      nothing bounds d, so the decimal part may be negative or above 9. Every
      other text the decoder yields is `'v'`. */
  lemma GetScoreDecimal(lst: IntegerDecimal, text: string)
    requires GetScore(lst) == Ok(Some(text))
    ensures text == "v" || (lst.Marks? && |lst.marks| == 2 && lst.marks[0].index != 0
                            && ParseScore(text) == Some((lst.marks[0].index - 1, lst.marks[1].index - 12)))
  {
    if text != "v" {
      ScoreTextRoundTrip(lst.marks[0].index - 1, lst.marks[1].index - 12);
    }
  }

  /** Example of the missing range check: integer bubble at column 3 and
      decimal bubble at column 5 read as "2.-7". */
  lemma GetScoreNegativeDecimal()
    ensures GetScore(Marks([Mark(3, 1500), Mark(5, 1200)])) == Ok(Some("2.-7"))
  {
    assert DigitChar(2) == '2' && DigitChar(7) == '7';
    assert Str(2) == "2";
    assert Str(-7) == "-7";
    assert "2" + "." + "-7" == "2.-7";
  }

  /** For a selection from `getIntegerDecimal`, the score is `None` exactly for
      one mark that is not column 0, or two marks of which the first is
      column 0. */
  lemma SelectionScoreIsNone(marks: seq<Mark>)
    ensures GetScore(GetIntegerDecimal(marks)) == Ok(None)
            <==> (|marks| == 1 && marks[0].index != 0) || (|marks| == 2 && marks[0].index == 0)
  {
  }

  /** Passing on the sentinel raises: a row with no mark or with three or more
      marks aborts grading with a TypeError, and no other row raises. */
  lemma SelectionScoreRaises(marks: seq<Mark>)
    ensures GetScore(GetIntegerDecimal(marks)).Raise?
            <==> |marks| == 0 || |marks| >= 3
    ensures GetScore(GetIntegerDecimal(marks)).Raise?
            ==> GetScore(GetIntegerDecimal(marks)).error == NotSubscriptable
  {
  }
}
