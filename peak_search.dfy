/** The hill-climbing peak search of Question1/Q1.py: a concave integer
    "landscape" `query`, a three-way comparison with a fixed tie policy, and
    a loop that walks right while the right neighbour is strictly the best
    of the three. Printing is left out. */
module PeakSearch {

  /** query(x) = -1 * (x - 7)**2 + 49: its peak is 49, at x == 7 only. */
  function Query(x: int): (h: int)
    ensures h <= 49
    ensures h == 49 <==> x == 7
  {
    SquareFacts(x - 7);
    -1 * ((x - 7) * (x - 7)) + 49
  }

  lemma SquareFacts(y: int)
    ensures y * y >= 0
    ensures y * y == 0 <==> y == 0
  {
    if y > 0 {
      assert y * y >= y;
    } else if y < 0 {
      assert y * y == (-y) * (-y) >= -y;
    }
  }

  /** compare_three: always one of its arguments. Its value is the largest of
      the three in every case except one: when pos1 and pos2 tie strictly
      above pos3, pos3 is returned. */
  function CompareThree(pos1: int, pos2: int, pos3: int): (best: int)
    ensures best == pos1 || best == pos2 || best == pos3
    ensures (Query(best) >= Query(pos1) && Query(best) >= Query(pos2) && Query(best) >= Query(pos3))
      <==> !(Query(pos1) == Query(pos2) && Query(pos2) > Query(pos3))
  {
    var val1 := Query(pos1);
    var val2 := Query(pos2);
    var val3 := Query(pos3);
    if val1 == val2 && val1 == val3 then pos1
    else if val1 > val2 && val1 > val3 then pos1
    else if val2 > val1 && val2 > val3 then pos2
    else pos3
  }

  /** The tie policy of compare_three, case by case: pos1 on a three-way tie
      or a strict maximum at pos1, pos2 on a strict maximum at pos2, and pos3
      in every other case, in particular when pos3 ties for the maximum or
      pos1 and pos2 tie above it. */
  lemma CompareThreeTies(pos1: int, pos2: int, pos3: int)
    ensures Query(pos1) == Query(pos2) == Query(pos3) ==> CompareThree(pos1, pos2, pos3) == pos1
    ensures Query(pos1) > Query(pos2) && Query(pos1) > Query(pos3) ==> CompareThree(pos1, pos2, pos3) == pos1
    ensures Query(pos2) > Query(pos1) && Query(pos2) > Query(pos3) ==> CompareThree(pos1, pos2, pos3) == pos2
    ensures (!(Query(pos1) == Query(pos2) == Query(pos3)) &&
             !(Query(pos1) > Query(pos2) && Query(pos1) > Query(pos3)) &&
             !(Query(pos2) > Query(pos1) && Query(pos2) > Query(pos3))) ==>
      CompareThree(pos1, pos2, pos3) == pos3
    ensures Query(pos3) >= Query(pos1) && Query(pos3) >= Query(pos2) && !(Query(pos1) == Query(pos2) == Query(pos3)) ==>
      CompareThree(pos1, pos2, pos3) == pos3
    ensures Query(pos1) == Query(pos2) > Query(pos3) ==> CompareThree(pos1, pos2, pos3) == pos3
  {
  }

  /** The case the tie policy decides against the first argument: query(6) and
      query(8) are both 48, so compare_three(6, 0, 8) returns 8. */
  lemma TieGoesToThird()
    ensures CompareThree(6, 0, 8) == 8
  {
    assert Query(6) == 48 && Query(0) == 0 && Query(8) == 48;
  }

  /** Differences of neighbouring heights: linear in p. */
  lemma {:induction false} QueryDifferences(p: int)
    ensures Query(p + 1) - Query(p) == 13 - 2 * p
    ensures Query(p + 1) - Query(p - 1) == 28 - 4 * p
    ensures Query(p) - Query(p - 1) == 15 - 2 * p
  {
    assert (p + 1 - 7) * (p + 1 - 7) == (p - 7) * (p - 7) + 2 * (p - 7) + 1;
    assert (p - 1 - 7) * (p - 1 - 7) == (p - 7) * (p - 7) - 2 * (p - 7) + 1;
  }

  /** One round of locate_peak: compare_three(position, forward, previous)
      lies to the right of `position` exactly when position <= 6, and it is
      then position + 1. */
  lemma StepRule(p: int)
    ensures CompareThree(p, p + 1, p - 1) > p <==> p <= 6
    ensures CompareThree(p, p + 1, p - 1) > p ==> CompareThree(p, p + 1, p - 1) == p + 1
  {
    QueryDifferences(p);
  }

  /** locate_peak(limit) without its printing: the walk moves one step right
      per round, so it stops at the peak 7 or just past the limit, whichever
      comes first; `step` ends one above the number of rounds. */
  method LocatePeak(limit: int) returns (position: int, peakHeight: int, step: int)
    ensures position == if limit < 0 then 0 else if limit + 1 < 7 then limit + 1 else 7
    ensures peakHeight == Query(position)
    ensures step == position + 1
  {
    position := 0;
    var previous := position - 1;
    var forward := position + 1;
    var optimal := CompareThree(position, forward, previous);
    step := 1;
    StepRule(position);
    while optimal > position && position <= limit
      invariant forward == position + 1 && previous == position - 1
      invariant optimal == CompareThree(position, forward, previous)
      invariant 0 <= position <= 7
      invariant optimal > position <==> position <= 6
      invariant limit >= 0 ==> position <= limit + 1
      invariant limit < 0 ==> position == 0
      invariant step == position + 1
      decreases 7 - position
    {
      StepRule(position);
      position := optimal;
      forward := position + 1;
      previous := position - 1;
      optimal := CompareThree(position, forward, previous);
      StepRule(position);
      step := step + 1;
    }
    peakHeight := Query(position);
  }

  /** The module-level call locate_peak(100): the peak is found at 7, height 49. */
  method RunLocatePeak() returns (position: int, peakHeight: int)
    ensures position == 7 && peakHeight == 49
  {
    var step;
    position, peakHeight, step := LocatePeak(100);
  }
}
