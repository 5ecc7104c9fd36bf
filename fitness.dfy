/** The cost tables and fitness_calculation of Question2/Q2.py. The fitness of
    a chromosome is its assignment cost plus three penalties: 1000 for every
    task that occurs again, 100 per time unit by which a facility exceeds its
    capacity, and 1000 for every one of the seven tasks that is missing. */
module ScheduleFitness {
  import opened ChromosomeText

  /** A task digit the tables can look up: '1' .. '7'. */
  predicate IsTaskChar(c: char) {
    '1' <= c <= '7'
  }

  predicate AllTasks(s: string) {
    forall k :: 0 <= k < |s| ==> IsTaskChar(s[k])
  }

  /** int(task_char) */
  function TaskOf(c: char): (t: int)
    requires IsTaskChar(c)
    ensures 1 <= t <= 7
  {
    c as int - '0' as int
  }

  /** The seven task numbers. */
  const TaskNumbers: set<int> := {1, 2, 3, 4, 5, 6, 7}

  const CostMatrix: seq<seq<int>> :=
    [[10, 12, 9], [15, 14, 16], [8, 9, 7], [12, 10, 13], [14, 13, 12], [9, 8, 10], [11, 12, 13]]
  const TaskTimes: seq<int> := [5, 8, 4, 7, 6, 3, 9]
  const FacilityCapacities: seq<int> := [24, 30, 28]

  /** get_cost_required: the cost of task taskNumber at facility facilityNumber. */
  function GetCostRequired(taskNumber: int, facilityNumber: int): (cost: int)
    requires 1 <= taskNumber <= 7 && 1 <= facilityNumber <= 3
    ensures 7 <= cost <= 16
  {
    CostMatrix[taskNumber - 1][facilityNumber - 1]
  }

  /** get_task_time */
  function GetTaskTime(taskNumber: int): (time: int)
    requires 1 <= taskNumber <= 7
    ensures 3 <= time <= 9
  {
    TaskTimes[taskNumber - 1]
  }

  /** get_facility_capacity */
  function GetFacilityCapacity(facilityNumber: int): (capacity: int)
    requires 1 <= facilityNumber <= 3
    ensures 24 <= capacity <= 30
  {
    FacilityCapacities[facilityNumber - 1]
  }

  /** A chromosome fitness_calculation can evaluate: task digits and dashes,
      and at most three facilities (there is no fourth capacity or cost column). */
  predicate WellFormed(chromosome: string) {
    (forall k :: 0 <= k < |chromosome| ==> chromosome[k] == '-' || IsTaskChar(chromosome[k])) &&
    Count(chromosome, '-') <= 2
  }

  /** Segments of a well-formed chromosome: at most three, each of task digits. */
  predicate ValidSegments(segs: seq<string>) {
    |segs| <= 3 && forall i :: 0 <= i < |segs| ==> AllTasks(segs[i])
  }

  // ---------------------------------------------------------------------
  // The fitness, defined segment by segment and task by task

  /** The cost of running the tasks of seg at facility. */
  function SegmentCost(seg: string, facility: int): (c: int)
    requires AllTasks(seg) && 1 <= facility <= 3
    ensures 7 * |seg| <= c <= 16 * |seg|
  {
    if seg == [] then 0
    else SegmentCost(seg[..|seg| - 1], facility) + GetCostRequired(TaskOf(seg[|seg| - 1]), facility)
  }

  /** The time the tasks of seg take. */
  function SegmentTime(seg: string): (t: int)
    requires AllTasks(seg)
    ensures 3 * |seg| <= t <= 9 * |seg|
  {
    if seg == [] then 0 else SegmentTime(seg[..|seg| - 1]) + GetTaskTime(TaskOf(seg[|seg| - 1]))
  }

  /** The cost of all segments, segment i at facility i + 1. */
  function TotalCost(segs: seq<string>): (c: int)
    requires ValidSegments(segs)
    ensures c >= 0
  {
    if segs == [] then 0
    else TotalCost(segs[..|segs| - 1]) + SegmentCost(segs[|segs| - 1], |segs|)
  }

  /** 100 per time unit above the capacity of the facility. */
  function OverflowPenalty(time: int, facility: int): (p: int)
    requires 1 <= facility <= 3
    ensures p >= 0 && (p == 0 <==> time <= GetFacilityCapacity(facility))
  {
    if time > GetFacilityCapacity(facility) then (time - GetFacilityCapacity(facility)) * 100 else 0
  }

  /** The capacity penalties of all segments. */
  function Overflow(segs: seq<string>): (p: int)
    requires ValidSegments(segs)
    ensures p >= 0
  {
    if segs == [] then 0
    else Overflow(segs[..|segs| - 1]) + OverflowPenalty(SegmentTime(segs[|segs| - 1]), |segs|)
  }

  /** The task numbers that occur in s. */
  function TaskSet(s: string): (used: set<int>)
    requires AllTasks(s)
    ensures used <= TaskNumbers
  {
    if s == [] then {} else TaskSet(s[..|s| - 1]) + {TaskOf(s[|s| - 1])}
  }

  /** The number of positions of s whose task already occurred earlier in s. */
  function Repeats(s: string): nat
    requires AllTasks(s)
  {
    if s == [] then 0
    else Repeats(s[..|s| - 1]) + (if TaskOf(s[|s| - 1]) in TaskSet(s[..|s| - 1]) then 1 else 0)
  }

  /** 1000 for each task short of seven distinct ones. */
  function MissingPenalty(used: set<int>): int {
    if |used| < 7 then (7 - |used|) * 1000 else 0
  }

  lemma WellFormedSegments(chromosome: string)
    requires WellFormed(chromosome)
    ensures ValidSegments(Split(chromosome))
  {
    var segs := Split(chromosome);
    forall i, k | 0 <= i < |segs| && 0 <= k < |segs[i]| ensures IsTaskChar(segs[i][k]) {
      assert segs[i] in segs;
      assert segs[i][k] in segs[i];
      assert segs[i][k] != '-';
    }
  }

  lemma {:induction false} FlattenTasks(segs: seq<string>)
    requires forall i :: 0 <= i < |segs| ==> AllTasks(segs[i])
    ensures AllTasks(Flatten(segs))
  {
    if segs != [] {
      FlattenTasks(segs[1..]);
    }
  }

  /** Everything fitness_calculation adds on top of the cost. */
  function Penalty(segs: seq<string>): (p: int)
    requires ValidSegments(segs) && AllTasks(Flatten(segs))
    ensures p >= 0
  {
    var flat := Flatten(segs);
    1000 * Repeats(flat) + Overflow(segs) + MissingPenalty(TaskSet(flat))
  }

  /** fitness_calculation as a function of the chromosome. */
  function Fitness(chromosome: string): int
    requires WellFormed(chromosome)
  {
    var segs := Split(chromosome);
    WellFormedSegments(chromosome);
    FlattenTasks(segs);
    TotalCost(segs) + Penalty(segs)
  }

  // ---------------------------------------------------------------------
  // fitness_calculation

  lemma TaskStep(w: string, c: char)
    requires AllTasks(w) && IsTaskChar(c)
    ensures AllTasks(w + [c])
    ensures TaskSet(w + [c]) == TaskSet(w) + {TaskOf(c)}
    ensures Repeats(w + [c]) == Repeats(w) + (if TaskOf(c) in TaskSet(w) then 1 else 0)
  {
    assert (w + [c])[..|w|] == w;
  }

  lemma SegmentStep(seg: string, j: int, facility: int)
    requires AllTasks(seg) && 0 <= j < |seg| && 1 <= facility <= 3
    ensures AllTasks(seg[..j]) && AllTasks(seg[..j + 1])
    ensures SegmentCost(seg[..j + 1], facility) == SegmentCost(seg[..j], facility) + GetCostRequired(TaskOf(seg[j]), facility)
    ensures SegmentTime(seg[..j + 1]) == SegmentTime(seg[..j]) + GetTaskTime(TaskOf(seg[j]))
  {
    assert seg[..j + 1][..j] == seg[..j];
  }

  lemma ScheduleStep(segs: seq<string>, i: int)
    requires ValidSegments(segs) && 0 <= i < |segs|
    ensures ValidSegments(segs[..i]) && ValidSegments(segs[..i + 1])
    ensures TotalCost(segs[..i + 1]) == TotalCost(segs[..i]) + SegmentCost(segs[i], i + 1)
    ensures Overflow(segs[..i + 1]) == Overflow(segs[..i]) + OverflowPenalty(SegmentTime(segs[i]), i + 1)
    ensures Flatten(segs[..i + 1]) == Flatten(segs[..i]) + segs[i]
  {
    assert segs[..i + 1][..i] == segs[..i];
    FlattenPrefix(segs, i);
  }

  lemma AppendNext(before: string, s: string, j: int)
    requires 0 <= j < |s|
    ensures (before + s[..j]) + [s[j]] == before + s[..j + 1]
  {
    assert s[..j + 1] == s[..j] + [s[j]];
  }

  /** The inner loop of fitness_calculation: the tasks of one segment, run at
      `facility`, after the tasks `before` of the earlier segments. */
  method ScanSegment(segment: string, facility: int, ghost before: string,
                     usedTasks0: set<int>, penalty0: int, totalCost0: int)
    returns (usedTasks: set<int>, penalty: int, totalCost: int, facilityTime: int)
    requires AllTasks(segment) && AllTasks(before) && 1 <= facility <= 3
    requires usedTasks0 == TaskSet(before)
    ensures AllTasks(before + segment)
    ensures usedTasks == TaskSet(before + segment)
    ensures penalty == penalty0 + 1000 * (Repeats(before + segment) - Repeats(before))
    ensures totalCost == totalCost0 + SegmentCost(segment, facility)
    ensures facilityTime == SegmentTime(segment)
  {
    usedTasks, penalty, totalCost, facilityTime := usedTasks0, penalty0, totalCost0, 0;
    ghost var seen := before;
    assert before + segment[..0] == before;
    for j := 0 to |segment|
      invariant seen == before + segment[..j] && AllTasks(segment[..j]) && AllTasks(seen)
      invariant usedTasks == TaskSet(seen)
      invariant penalty == penalty0 + 1000 * (Repeats(seen) - Repeats(before))
      invariant totalCost == totalCost0 + SegmentCost(segment[..j], facility)
      invariant facilityTime == SegmentTime(segment[..j])
    {
      var task := TaskOf(segment[j]);
      SegmentStep(segment, j, facility);
      TaskStep(seen, segment[j]);
      if task in usedTasks {
        penalty := penalty + 1000;
      }
      usedTasks := usedTasks + {task};
      facilityTime := facilityTime + GetTaskTime(task);
      totalCost := totalCost + GetCostRequired(task, facility);
      AppendNext(before, segment, j);
      seen := seen + [segment[j]];
    }
    assert segment[..|segment|] == segment;
  }

  /** fitness_calculation(chromosome): the loop over the segments, with the
      running cost, penalty and set of used tasks. */
  method FitnessCalculation(chromosome: string) returns (fitness: int)
    requires WellFormed(chromosome)
    ensures fitness == Fitness(chromosome)
  {
    var segments := Split(chromosome);
    WellFormedSegments(chromosome);
    var totalCost := 0;
    var penalty := 0;
    var usedTasks: set<int> := {};
    for i := 0 to |segments|
      invariant ValidSegments(segments[..i]) && AllTasks(Flatten(segments[..i]))
      invariant totalCost == TotalCost(segments[..i])
      invariant usedTasks == TaskSet(Flatten(segments[..i]))
      invariant penalty == 1000 * Repeats(Flatten(segments[..i])) + Overflow(segments[..i])
    {
      var segment := segments[i];
      var facility := i + 1;
      var facilityTime;
      usedTasks, penalty, totalCost, facilityTime :=
        ScanSegment(segment, facility, Flatten(segments[..i]), usedTasks, penalty, totalCost);
      if facilityTime > GetFacilityCapacity(facility) {
        penalty := penalty + (facilityTime - GetFacilityCapacity(facility)) * 100;
      }
      ScheduleStep(segments, i);
    }
    assert segments[..|segments|] == segments;
    if |usedTasks| < 7 {
      penalty := penalty + (7 - |usedTasks|) * 1000;
    }
    fitness := totalCost + penalty;
  }

  // ---------------------------------------------------------------------
  // Properties

  /** Every position of s either repeats an earlier task or adds a new one. */
  lemma {:induction false} RepeatsAndDistinct(s: string)
    requires AllTasks(s)
    ensures Repeats(s) + |TaskSet(s)| == |s|
  {
    if s != [] {
      var init := s[..|s| - 1];
      RepeatsAndDistinct(init);
      var t := TaskOf(s[|s| - 1]);
      assert TaskSet(s) == TaskSet(init) + {t};
      if t in TaskSet(init) {
        assert TaskSet(s) == TaskSet(init);
      } else {
        assert |TaskSet(init) + {t}| == |TaskSet(init)| + 1;
      }
    }
  }

  /** The missing-task penalty is 1000 per task number that does not occur. */
  lemma MissingPenaltyCountsMissing(s: string)
    requires AllTasks(s)
    ensures MissingPenalty(TaskSet(s)) == 1000 * |TaskNumbers - TaskSet(s)|
  {
    var used := TaskSet(s);
    assert TaskNumbers == (TaskNumbers - used) + used;
    assert |TaskNumbers| == 7;
  }

  /** Every segment fits into the capacity of its facility. */
  predicate WithinCapacity(segs: seq<string>)
    requires ValidSegments(segs)
  {
    forall i :: 0 <= i < |segs| ==> SegmentTime(segs[i]) <= GetFacilityCapacity(i + 1)
  }

  lemma {:induction false} OverflowZero(segs: seq<string>)
    requires ValidSegments(segs)
    ensures Overflow(segs) == 0 <==> WithinCapacity(segs)
  {
    if segs != [] {
      var init := segs[..|segs| - 1];
      OverflowZero(init);
      assert forall i :: 0 <= i < |init| ==> init[i] == segs[i];
    }
  }

  /** No repeated task and no missing task means exactly the seven tasks, once each. */
  lemma EachTaskOnce(s: string)
    requires AllTasks(s)
    ensures (Repeats(s) == 0 && MissingPenalty(TaskSet(s)) == 0) <==> (|s| == 7 && TaskSet(s) == TaskNumbers)
  {
    RepeatsAndDistinct(s);
    MissingPenaltyCountsMissing(s);
    var used := TaskSet(s);
    if |TaskNumbers - used| == 0 {
      assert TaskNumbers - used == {};
      assert used == TaskNumbers;
    }
  }

  /** A schedule carries no penalty exactly when it assigns each of the
      seven tasks once and overloads no facility. */
  lemma NoPenaltyExactly(segs: seq<string>)
    requires ValidSegments(segs) && AllTasks(Flatten(segs))
    ensures Penalty(segs) == 0 <==>
      (|Flatten(segs)| == 7 && TaskSet(Flatten(segs)) == TaskNumbers && WithinCapacity(segs))
  {
    EachTaskOnce(Flatten(segs));
    OverflowZero(segs);
  }

  lemma SplitFirstChromosome()
    ensures Split("147-35-26") == ["147", "35", "26"]
  {
    var segs := ["147", "35", "26"];
    SplitJoin(segs);
    assert Join(segs) == "147-35-26";
  }

  lemma FirstSegmentCosts()
    ensures SegmentCost("147", 1) == 33 && SegmentCost("35", 2) == 22 && SegmentCost("26", 3) == 26
  {
    assert "147"[..2] == "14" && "14"[..1] == "1" && "1"[..0] == "";
    assert "35"[..1] == "3" && "26"[..1] == "2" && "3"[..0] == "" && "2"[..0] == "";
  }

  lemma FirstChromosomeCost()
    ensures TotalCost(["147", "35", "26"]) == 81
  {
    FirstSegmentCosts();
    var s1: seq<string> := ["147"];
    var s2: seq<string> := ["147", "35"];
    var s3: seq<string> := ["147", "35", "26"];
    assert s1[..0] == [];
    assert s2[..1] == s1;
    assert s3[..2] == s2;
  }

  lemma FirstChromosomeFlat()
    ensures Flatten(["147", "35", "26"]) == "1473526"
  {
    var segs := ["147", "35", "26"];
    assert segs[1..] == ["35", "26"] && segs[1..][1..] == ["26"] && segs[1..][1..][1..] == [];
  }

  lemma FirstChromosomeTasks()
    ensures TaskSet("1473526") == TaskNumbers
  {
    assert "1473526"[..6] == "147352";
    assert "147352"[..5] == "14735";
    assert "14735"[..4] == "1473";
    assert "1473"[..3] == "147";
    assert "147"[..2] == "14" && "14"[..1] == "1" && "1"[..0] == "";
  }

  lemma FirstChromosomeTimes()
    ensures WithinCapacity(["147", "35", "26"])
  {
    assert SegmentTime("147") == 21 by {
      assert "147"[..2] == "14" && "14"[..1] == "1" && "1"[..0] == "";
    }
    assert SegmentTime("35") == 10 && SegmentTime("26") == 11 by {
      assert "35"[..1] == "3" && "26"[..1] == "2" && "3"[..0] == "" && "2"[..0] == "";
    }
  }

  lemma FirstChromosomeWellFormed()
    ensures WellFormed("147-35-26")
  {
    SplitFirstChromosome();
  }

  /** fitness_calculation is the cost of the segments plus their penalty, so
      it is never below the cost, which is never negative. */
  lemma FitnessOfSegments(chromosome: string, segs: seq<string>)
    requires WellFormed(chromosome) && Split(chromosome) == segs
    ensures ValidSegments(segs) && AllTasks(Flatten(segs))
    ensures Fitness(chromosome) == TotalCost(segs) + Penalty(segs)
    ensures Fitness(chromosome) >= TotalCost(segs) >= 0
  {
    WellFormedSegments(chromosome);
    FlattenTasks(segs);
  }

  lemma FirstChromosomeNoPenalty()
    ensures ValidSegments(["147", "35", "26"]) && AllTasks(Flatten(["147", "35", "26"]))
    ensures Penalty(["147", "35", "26"]) == 0
  {
    var segs := ["147", "35", "26"];
    FirstChromosomeFlat();
    FirstChromosomeTasks();
    FirstChromosomeTimes();
    NoPenaltyExactly(segs);
  }

  /** The first chromosome of genetic_Algo's population: cost 33 + 22 + 26,
      no penalty. */
  lemma FirstPopulationFitness()
    ensures WellFormed("147-35-26") && Fitness("147-35-26") == 81
  {
    FirstChromosomeWellFormed();
    SplitFirstChromosome();
    FitnessOfSegments("147-35-26", ["147", "35", "26"]);
    FirstChromosomeCost();
    FirstChromosomeNoPenalty();
  }
}
