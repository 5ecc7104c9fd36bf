/** The chromosome operators of the genetic scheduler in Question2/Q2.py:
    give_random_not_used, initialization, single_point_crossover with its
    reconstruct helper, and swap_mutation. Each random draw of the source
    (random.randint, random.random, random.sample) is a parameter. */
module GeneticOperators {
  import opened ChromosomeText
  import opened ScheduleFitness

  // ---------------------------------------------------------------------
  // give_random_not_used

  /** str(n) for a task number n. */
  function TaskChar(n: int): (c: char)
    requires 1 <= n <= 7
    ensures IsTaskChar(c) && TaskOf(c) == n
  {
    ('0' as int + n) as char
  }

  /** Values of random.randint(1, 7). */
  predicate TaskDraws(draws: seq<int>) {
    forall k :: 0 <= k < |draws| ==> 1 <= draws[k] <= 7
  }

  /** The first drawn task that is not in used; '1' when every draw is in used. */
  function FirstUnused(used: set<char>, draws: seq<int>): (t: char)
    requires TaskDraws(draws)
    ensures IsTaskChar(t)
  {
    if draws == [] then '1'
    else if TaskChar(draws[0]) !in used then TaskChar(draws[0])
    else FirstUnused(used, draws[1..])
  }

  /** The pick is fresh whenever some draw is; when none is, the pick is the
      fallback '1', which repeats a task if '1' is already used. */
  lemma {:induction false} FirstUnusedFresh(used: set<char>, draws: seq<int>)
    requires TaskDraws(draws)
    ensures (exists k :: 0 <= k < |draws| && TaskChar(draws[k]) !in used) ==> FirstUnused(used, draws) !in used
    ensures (forall k :: 0 <= k < |draws| ==> TaskChar(draws[k]) in used) ==> FirstUnused(used, draws) == '1'
  {
    if draws != [] {
      FirstUnusedFresh(used, draws[1..]);
      if exists k :: 0 <= k < |draws| && TaskChar(draws[k]) !in used {
        var k :| 0 <= k < |draws| && TaskChar(draws[k]) !in used;
        if k > 0 {
          assert TaskChar(draws[1..][k - 1]) !in used;
        }
      }
      if forall k :: 0 <= k < |draws| ==> TaskChar(draws[k]) in used {
        assert forall k :: 0 <= k < |draws[1..]| ==> TaskChar(draws[1..][k]) in used by {
          forall k | 0 <= k < |draws[1..]| ensures TaskChar(draws[1..][k]) in used {
            assert draws[1..][k] == draws[k + 1];
          }
        }
      }
    }
  }

  /** give_random_not_used(used): up to 100 draws, the first unused one is
      returned, else '1'. */
  method GiveRandomNotUsed(used: set<char>, draws: seq<int>) returns (t: char)
    requires |draws| == 100 && TaskDraws(draws)
    ensures t == FirstUnused(used, draws)
  {
    for k := 0 to 100
      invariant FirstUnused(used, draws[k..]) == FirstUnused(used, draws)
    {
      assert draws[k..][1..] == draws[k + 1..];
      var c := TaskChar(draws[k]);
      if c !in used {
        return c;
      }
    }
    return '1';
  }

  // ---------------------------------------------------------------------
  // initialization

  /** The draws one chromosome of initialization consumes: the sizes of the
      first two facilities, and 100 task draws for each of the seven picks. */
  datatype Draws = Draws(count1: int, count2: int, tries: seq<seq<int>>)

  predicate DrawsInRange(d: Draws) {
    1 <= d.count1 <= 3 && 1 <= d.count2 <= 3 && |d.tries| == 7 &&
    forall k :: 0 <= k < 7 ==> |d.tries[k]| == 100 && TaskDraws(d.tries[k])
  }

  function CharSet(s: string): set<char> {
    set c | c in s
  }

  predicate AllTaskDraws(tries: seq<seq<int>>) {
    forall k :: 0 <= k < |tries| ==> TaskDraws(tries[k])
  }

  /** The tasks picked one after another, each pick avoiding the earlier ones. */
  function PickAll(tries: seq<seq<int>>): (f: string)
    requires AllTaskDraws(tries)
    ensures |f| == |tries| && AllTasks(f)
  {
    if tries == [] then ""
    else
      var prev := PickAll(tries[..|tries| - 1]);
      prev + [FirstUnused(CharSet(prev), tries[|tries| - 1])]
  }

  lemma {:induction false} PickAllPrefix(tries: seq<seq<int>>, n: int)
    requires AllTaskDraws(tries) && 0 <= n <= |tries|
    ensures PickAll(tries[..n]) == PickAll(tries)[..n]
    decreases |tries| - n
  {
    if n < |tries| {
      PickAllPrefix(tries, n + 1);
      assert tries[..n + 1][..n] == tries[..n];
      assert PickAll(tries[..n]) == PickAll(tries[..n + 1])[..n];
    } else {
      assert tries[..n] == tries;
    }
  }

  /** Pick n is drawn against the set of the n picks before it. */
  lemma PickAllAt(tries: seq<seq<int>>, n: int)
    requires AllTaskDraws(tries) && 0 <= n < |tries|
    ensures PickAll(tries)[n] == FirstUnused(CharSet(PickAll(tries)[..n]), tries[n])
  {
    PickAllPrefix(tries, n + 1);
    PickAllPrefix(tries, n);
    assert tries[..n + 1][..n] == tries[..n];
  }

  /** After pick n the set of used tasks has grown by that pick. */
  lemma PickStep(tries: seq<seq<int>>, n: int)
    requires AllTaskDraws(tries) && 0 <= n < |tries|
    ensures var f := PickAll(tries);
      f[n] == FirstUnused(CharSet(f[..n]), tries[n]) &&
      CharSet(f[..n + 1]) == CharSet(f[..n]) + {f[n]}
  {
    var f := PickAll(tries);
    PickAllAt(tries, n);
    assert f[..n + 1] == f[..n] + [f[n]];
    CharSetSnoc(f[..n], f[n]);
  }

  lemma CharSetSnoc(s: string, c: char)
    ensures CharSet(s + [c]) == CharSet(s) + {c}
  {
    forall ch ensures ch in CharSet(s + [c]) <==> ch in CharSet(s) + {c} {
      assert ch in s + [c] <==> ch in s || ch == c;
    }
  }

  /** Where the facilities of a chromosome start in its task string. */
  function Cut(d: Draws, i: int): int
    requires 0 <= i <= 3
  {
    if i == 0 then 0 else if i == 1 then d.count1 else if i == 2 then d.count1 + d.count2 else 7
  }

  /** The three facility parts initialization builds from the draws d. */
  function InitialParts(d: Draws): seq<string>
    requires DrawsInRange(d)
  {
    var f := PickAll(d.tries);
    [f[..Cut(d, 1)], f[Cut(d, 1)..Cut(d, 2)], f[Cut(d, 2)..]]
  }

  lemma InitialPartAt(d: Draws, i: int)
    requires DrawsInRange(d) && 0 <= i < 3
    ensures InitialParts(d)[i] == PickAll(d.tries)[Cut(d, i)..Cut(d, i + 1)]
  {
  }

  /** The innermost loop of initialization: `count` picks, from pick `next` on,
      each added to `used` and appended to the part. */
  method PickTasks(tries: seq<seq<int>>, next0: int, count: int, used0: set<char>, remaining0: int)
    returns (part: string, used: set<char>, remaining: int)
    requires AllTaskDraws(tries) && forall k :: 0 <= k < |tries| ==> |tries[k]| == 100
    requires 0 <= next0 && 0 <= count && next0 + count <= |tries|
    requires used0 == CharSet(PickAll(tries)[..next0])
    ensures part == PickAll(tries)[next0..next0 + count]
    ensures used == CharSet(PickAll(tries)[..next0 + count])
    ensures remaining == remaining0 - count
  {
    ghost var f := PickAll(tries);
    part, used, remaining := "", used0, remaining0;
    for j := 0 to count
      invariant used == CharSet(f[..next0 + j])
      invariant part == f[next0..next0 + j]
      invariant remaining == remaining0 - j
    {
      var task := GiveRandomNotUsed(used, tries[next0 + j]);
      PickStep(tries, next0 + j);
      assert f[next0..next0 + j + 1] == f[next0..next0 + j] + [task];
      used := used + {task};
      part := part + [task];
      remaining := remaining - 1;
    }
  }

  /** One chromosome of initialization: the three parts of one pass of the outer loop, joined. */
  method BuildChromosome(d: Draws) returns (chromosome: string)
    requires DrawsInRange(d)
    ensures chromosome == Join(InitialParts(d))
  {
    var used: set<char> := {};
    var parts: seq<string> := [];
    var remaining := 7;
    for fac := 1 to 4
      invariant remaining == 7 - Cut(d, fac - 1)
      invariant used == CharSet(PickAll(d.tries)[..Cut(d, fac - 1)])
      invariant parts == InitialParts(d)[..fac - 1]
    {
      var count;
      if fac != 3 {
        count := if fac == 1 then d.count1 else d.count2;
      } else {
        count := remaining;
      }
      assert Cut(d, fac - 1) + count == Cut(d, fac);
      var part;
      part, used, remaining := PickTasks(d.tries, 7 - remaining, count, used, remaining);
      InitialPartAt(d, fac - 1);
      parts := parts + [part];
      assert InitialParts(d)[..fac] == InitialParts(d)[..fac - 1] + [InitialParts(d)[fac - 1]];
    }
    assert InitialParts(d)[..3] == InitialParts(d);
    chromosome := Join(parts);
  }

  /** The three parts hold task digits only and together are the picks in order. */
  lemma InitialPartsFacts(d: Draws)
    requires DrawsInRange(d)
    ensures var parts := InitialParts(d);
      |parts| == 3 && (forall i :: 0 <= i < 3 ==> AllTasks(parts[i])) &&
      (forall p :: p in parts ==> '-' !in p) && Flatten(parts) == PickAll(d.tries)
  {
    var parts := InitialParts(d);
    var f := PickAll(d.tries);
    var c1, c2 := Cut(d, 1), Cut(d, 2);
    forall i, k | 0 <= i < 3 && 0 <= k < |parts[i]| ensures IsTaskChar(parts[i][k]) {
      assert parts[i][k] == f[Cut(d, i) + k];
    }
    forall p | p in parts ensures '-' !in p {
      var i :| 0 <= i < 3 && parts[i] == p;
      assert forall k :: 0 <= k < |p| ==> IsTaskChar(p[k]);
    }
    assert parts[1..] == [f[c1..c2], f[c2..]] && parts[1..][1..] == [f[c2..]];
    assert Flatten([f[c2..]]) == f[c2..];
    assert f == f[..c1] + f[c1..c2] + f[c2..];
  }

  /** Every pick is new to the picks before it, except where the '1' fallback was taken. */
  lemma PicksFresh(tries: seq<seq<int>>)
    requires AllTaskDraws(tries)
    ensures var f := PickAll(tries);
      forall k :: 0 <= k < |f| ==> f[k] == '1' || f[k] !in f[..k]
  {
    var f := PickAll(tries);
    forall k | 0 <= k < |f| ensures f[k] == '1' || f[k] !in f[..k] {
      PickAllAt(tries, k);
      FirstUnusedFresh(CharSet(f[..k]), tries[k]);
    }
  }

  /** Every chromosome of initialization has three facilities, the first two
      of count1 and count2 tasks, seven tasks in all, and every task is new
      to the chromosome except where the '1' fallback was taken. */
  lemma InitialShape(d: Draws)
    requires DrawsInRange(d)
    ensures var c := Join(InitialParts(d));
      WellFormed(c) && Lengths(Split(c)) == [d.count1, d.count2, 7 - d.count1 - d.count2] &&
      RemoveDashes(c) == PickAll(d.tries) && |RemoveDashes(c)| == 7
    ensures var f := PickAll(d.tries);
      forall k :: 0 <= k < 7 ==> f[k] == '1' || f[k] !in f[..k]
  {
    var parts := InitialParts(d);
    InitialPartsFacts(d);
    SplitJoin(parts);
    RemoveDashesIsFlatten(Join(parts));
    WellFormedJoin(parts);
    PicksFresh(d.tries);
  }

  /** Joining at most three parts of task digits gives a well-formed chromosome. */
  lemma WellFormedJoin(parts: seq<string>)
    requires 1 <= |parts| <= 3 && forall i :: 0 <= i < |parts| ==> AllTasks(parts[i])
    ensures WellFormed(Join(parts))
  {
    forall p | p in parts ensures '-' !in p {
      var i :| 0 <= i < |parts| && parts[i] == p;
      assert forall k :: 0 <= k < |p| ==> IsTaskChar(p[k]);
    }
    SplitJoin(parts);
    var c := Join(parts);
    forall k | 0 <= k < |c| ensures c[k] == '-' || IsTaskChar(c[k]) {
      JoinChars(parts, c[k]);
    }
  }

  /** A character of a join is a dash or a character of one of the parts. */
  lemma {:induction false} JoinChars(parts: seq<string>, ch: char)
    requires ch in Join(parts)
    ensures ch == '-' || exists i, k :: 0 <= i < |parts| && 0 <= k < |parts[i]| && parts[i][k] == ch
  {
    if |parts| == 1 {
      var k :| 0 <= k < |parts[0]| && parts[0][k] == ch;
    } else if |parts| > 1 {
      var rest := Join(parts[1..]);
      if ch in parts[0] {
        var k :| 0 <= k < |parts[0]| && parts[0][k] == ch;
        assert parts[0][k] == ch;
      } else if ch != '-' {
        assert ch in rest;
        JoinChars(parts[1..], ch);
        if ch != '-' {
          var i, k :| 0 <= i < |parts[1..]| && 0 <= k < |parts[1..][i]| && parts[1..][i][k] == ch;
          assert parts[i + 1][k] == ch;
        }
      }
    }
  }

  /** initialization(n): one chromosome per pass, from its own draws. */
  method Initialization(n: int, draws: seq<Draws>) returns (pop: seq<string>)
    requires |draws| == (if n < 0 then 0 else n)
    requires forall i :: 0 <= i < |draws| ==> DrawsInRange(draws[i])
    ensures |pop| == |draws|
    ensures forall i :: 0 <= i < |pop| ==> pop[i] == Join(InitialParts(draws[i]))
    ensures forall i :: 0 <= i < |pop| ==>
      WellFormed(pop[i]) && |Split(pop[i])| == 3 && |RemoveDashes(pop[i])| == 7
  {
    pop := [];
    for i := 0 to |draws|
      invariant |pop| == i
      invariant forall k :: 0 <= k < i ==> pop[k] == Join(InitialParts(draws[k]))
    {
      var chromosome := BuildChromosome(draws[i]);
      pop := pop + [chromosome];
    }
    forall k | 0 <= k < |pop|
      ensures WellFormed(pop[k]) && |Split(pop[k])| == 3 && |RemoveDashes(pop[k])| == 7
    {
      InitialShape(draws[k]);
    }
  }

  // ---------------------------------------------------------------------
  // single_point_crossover and reconstruct

  /** The parts reconstruct cuts from flat: len(lens) slices, the i-th of
      length lens[i] and starting at the sum of the lengths before it, each
      clamped to flat. */
  function Pieces(flat: string, lens: seq<nat>): (parts: seq<string>)
    ensures |parts| == |lens|
  {
    if lens == [] then []
    else
      var n := |lens| - 1;
      Pieces(flat, lens[..n]) + [Slice(flat, Sum(lens[..n]), Sum(lens[..n]) + lens[n])]
  }

  /** The pieces written one after another are the first sum(lens) characters of flat. */
  lemma {:induction false} PiecesFlatten(flat: string, lens: seq<nat>)
    ensures Sum(lens) >= 0 && Flatten(Pieces(flat, lens)) == Take(flat, Sum(lens))
  {
    if lens != [] {
      var n := |lens| - 1;
      var init := lens[..n];
      PiecesFlatten(flat, init);
      SumPrefix(lens, n);
      assert lens[..n + 1] == lens;
      var offset := Sum(init);
      FlattenAppend(Pieces(flat, init), [Slice(flat, offset, offset + lens[n])]);
      TakeSlice(flat, offset, lens[n]);
    }
  }

  /** Each piece has its length when flat is long enough. */
  lemma {:induction false} PiecesLengths(flat: string, lens: seq<nat>)
    requires |flat| >= Sum(lens)
    ensures Lengths(Pieces(flat, lens)) == lens
  {
    if lens != [] {
      var n := |lens| - 1;
      var init := lens[..n];
      SumPrefix(lens, n);
      assert lens[..n + 1] == lens;
      PiecesLengths(flat, init);
      var offset := Sum(init);
      assert |Slice(flat, offset, offset + lens[n])| == lens[n];
      assert Lengths(Pieces(flat, lens)) == Lengths(Pieces(flat, init)) + [lens[n]];
    }
  }

  /** A piece has no dash when flat has none. */
  lemma {:induction false} PiecesNoDash(flat: string, lens: seq<nat>)
    requires '-' !in flat
    ensures forall p :: p in Pieces(flat, lens) ==> '-' !in p
  {
    if lens != [] {
      var n := |lens| - 1;
      var init := lens[..n];
      PiecesNoDash(flat, init);
      var offset := Sum(init);
      var piece := Slice(flat, offset, offset + lens[n]);
      assert forall ch :: ch in piece ==> ch in flat;
      assert forall p :: p in Pieces(flat, lens) ==> p in Pieces(flat, init) || p == piece;
    }
  }

  /** s[:a] + s[a:a + b] == s[:a + b] */
  lemma TakeSlice(s: string, a: nat, b: nat)
    ensures Take(s, a) + Slice(s, a, a + b) == Take(s, a + b)
  {
  }

  /** reconstruct(flat, lens): the loop of the source, followed by '-'.join. */
  method Reconstruct(flat: string, lens: seq<nat>) returns (joined: string)
    ensures joined == Join(Pieces(flat, lens))
  {
    var result: seq<string> := [];
    var idx := 0;
    for t := 0 to |lens|
      invariant idx == Sum(lens[..t]) && idx >= 0
      invariant result == Pieces(flat, lens[..t])
    {
      var l := lens[t];
      assert lens[..t + 1][..t] == lens[..t];
      SumPrefix(lens, t);
      result := result + [Slice(flat, idx, idx + l)];
      idx := idx + l;
    }
    assert lens[..|lens|] == lens;
    joined := Join(result);
  }

  /** reconstruct of a dash-free string whose length is sum(lens) loses
      nothing: splitting the result gives parts of lengths lens whose
      concatenation is the string. */
  lemma ReconstructLossless(flat: string, lens: seq<nat>)
    requires |lens| >= 1 && '-' !in flat && |flat| == Sum(lens)
    ensures Split(Join(Pieces(flat, lens))) == Pieces(flat, lens)
    ensures Lengths(Split(Join(Pieces(flat, lens)))) == lens
    ensures RemoveDashes(Join(Pieces(flat, lens))) == flat
  {
    PiecesFlatten(flat, lens);
    PiecesLengths(flat, lens);
    PiecesNoDash(flat, lens);
    SplitJoin(Pieces(flat, lens));
    RemoveDashesIsFlatten(Join(Pieces(flat, lens)));
  }

  /** a[:point] + b[point:]: for a cut inside both strings, the first point
      characters of a followed by the rest of b. */
  function Cross(a: string, b: string, point: nat): (child: string)
    ensures point <= |a| && point <= |b| ==> |child| == |b| && child == a[..point] + b[point..]
  {
    Take(a, point) + Drop(b, point)
  }

  /** The total task count of a chromosome, sum([len(p) for p in split('-')]). */
  function TotalTasks(chromosome: string): (total: int)
    ensures total == |RemoveDashes(chromosome)|
  {
    TaskCount(chromosome);
    Sum(Lengths(Split(chromosome)))
  }

  /** single_point_crossover(parent1, parent2, crossover_rate): `roll` is the
      value of random.random() and `point` the value of random.randint(1, total - 1). */
  method SinglePointCrossover(parent1: string, parent2: string, roll: real, crossoverRate: real, point: int)
    returns (child1: string, child2: string)
    requires roll <= crossoverRate && TotalTasks(parent1) > 1 ==> 1 <= point <= TotalTasks(parent1) - 1
    ensures roll > crossoverRate || TotalTasks(parent1) <= 1 ==> child1 == parent1 && child2 == parent2
    ensures roll <= crossoverRate && TotalTasks(parent1) > 1 ==>
      var p1, p2 := RemoveDashes(parent1), RemoveDashes(parent2);
      var lens := Lengths(Split(parent1));
      child1 == Join(Pieces(Cross(p1, p2, point), lens)) &&
      child2 == Join(Pieces(Cross(p2, p1, point), lens))
    ensures roll <= crossoverRate && TotalTasks(parent1) > 1 && TotalTasks(parent1) == TotalTasks(parent2) ==>
      var p1, p2 := RemoveDashes(parent1), RemoveDashes(parent2);
      Lengths(Split(child1)) == Lengths(Split(parent1)) &&
      Lengths(Split(child2)) == Lengths(Split(parent1)) &&
      RemoveDashes(child1) == p1[..point] + p2[point..] &&
      RemoveDashes(child2) == p2[..point] + p1[point..] &&
      multiset(RemoveDashes(child1)) + multiset(RemoveDashes(child2)) == multiset(p1) + multiset(p2)
  {
    if roll > crossoverRate {
      return parent1, parent2;
    }
    var p1Clean := RemoveDashes(parent1);
    var p2Clean := RemoveDashes(parent2);
    var lengths := Lengths(Split(parent1));
    var total := Sum(lengths);
    if total <= 1 {
      return parent1, parent2;
    }
    var child1Flat := Take(p1Clean, point) + Drop(p2Clean, point);
    var child2Flat := Take(p2Clean, point) + Drop(p1Clean, point);
    child1 := Reconstruct(child1Flat, lengths);
    child2 := Reconstruct(child2Flat, lengths);
    if |p1Clean| == |p2Clean| {
      TaskCount(parent1);
      CrossChild(p1Clean, p2Clean, point, lengths);
      CrossChild(p2Clean, p1Clean, point, lengths);
      CrossMultiset(p1Clean, p2Clean, point);
    }
  }

  /** A child of two dash-free task strings of length sum(lens), rebuilt
      with the segment lengths lens. */
  lemma CrossChild(a: string, b: string, point: nat, lens: seq<nat>)
    requires '-' !in a && '-' !in b && |a| == |b| == Sum(lens) && |lens| >= 1 && point <= |a|
    ensures var child := Join(Pieces(Cross(a, b, point), lens));
      Lengths(Split(child)) == lens && RemoveDashes(child) == a[..point] + b[point..]
  {
    var flat := Cross(a, b, point);
    assert flat == a[..point] + b[point..];
    assert forall ch :: ch in flat ==> ch in a || ch in b;
    ReconstructLossless(flat, lens);
  }

  /** The two children of a cut at the same point hold the parents' tasks between them. */
  lemma CrossMultiset(a: string, b: string, point: nat)
    requires point <= |a| == |b|
    ensures multiset(a[..point] + b[point..]) + multiset(b[..point] + a[point..]) == multiset(a) + multiset(b)
  {
    assert a == a[..point] + a[point..];
    assert b == b[..point] + b[point..];
  }

  // ---------------------------------------------------------------------
  // swap_mutation

  /** task_indices: the (segment, position) pairs of all tasks, in order. */
  function TaskIndices(parts: seq<string>): (ix: seq<(int, int)>)
    ensures forall t :: 0 <= t < |ix| ==> 0 <= ix[t].0 < |parts| && 0 <= ix[t].1 < |parts[ix[t].0]|
  {
    if parts == [] then []
    else
      var n := |parts| - 1;
      TaskIndices(parts[..n]) + seq(|parts[n]|, j => (n, j))
  }

  /** task_indices lists every position of every segment, and nothing else;
      its length is the number of tasks. */
  lemma {:induction false} TaskIndicesFacts(parts: seq<string>)
    ensures |TaskIndices(parts)| == Sum(Lengths(parts))
    ensures forall ij: (int, int) :: ij in TaskIndices(parts) <==> 0 <= ij.0 < |parts| && 0 <= ij.1 < |parts[ij.0]|
  {
    if parts != [] {
      var n := |parts| - 1;
      TaskIndicesFacts(parts[..n]);
      assert Lengths(parts)[..n] == Lengths(parts[..n]);
      SumPrefix(Lengths(parts), n);
      assert Lengths(parts)[..n + 1] == Lengths(parts);
      var last := seq(|parts[n]|, j => (n, j));
      forall ij: (int, int) | 0 <= ij.0 < |parts| && 0 <= ij.1 < |parts[ij.0]| ensures ij in TaskIndices(parts) {
        if ij.0 == n {
          assert last[ij.1] == ij;
        } else {
          assert parts[..n][ij.0] == parts[ij.0];
        }
      }
    }
  }

  /** A valid draw of random.sample(task_indices, 2): two different task positions. */
  predicate ValidSwap(parts: seq<string>, i1: int, j1: int, i2: int, j2: int) {
    0 <= i1 < |parts| && 0 <= j1 < |parts[i1]| &&
    0 <= i2 < |parts| && 0 <= j2 < |parts[i2]| && (i1 != i2 || j1 != j2)
  }

  /** Overwriting one task of a segment list changes the multiset of the
      flattened tasks by that one character. */
  lemma UpdateTask(parts: seq<string>, i: int, j: int, ch: char)
    requires 0 <= i < |parts| && 0 <= j < |parts[i]|
    ensures multiset(Flatten(parts[i := parts[i][j := ch]])) ==
      multiset(Flatten(parts)) - multiset{parts[i][j]} + multiset{ch}
  {
    var updated := parts[i := parts[i][j := ch]];
    FlattenAround(parts, i);
    FlattenAround(updated, i);
    assert updated[..i] == parts[..i] && updated[i + 1..] == parts[i + 1..];
    var s := parts[i];
    assert multiset(s[j := ch]) == multiset(s) - multiset{s[j]} + multiset{ch};
    assert s[j] in multiset(s);
    ReplaceInMiddle(Flatten(parts[..i]), s, s[j := ch], Flatten(parts[i + 1..]), s[j], ch);
  }

  lemma {:induction false} FlattenAround(parts: seq<string>, i: int)
    requires 0 <= i < |parts|
    ensures Flatten(parts) == Flatten(parts[..i]) + parts[i] + Flatten(parts[i + 1..])
  {
    if i == 0 {
      assert parts[..0] == [] && parts[1..] == parts[i + 1..];
    } else {
      FlattenAround(parts[1..], i - 1);
      assert parts[1..][..i - 1] == parts[..i][1..];
      assert parts[1..][i..] == parts[i + 1..];
      assert parts[1..][i - 1] == parts[i];
    }
  }

  lemma ReplaceInMiddle(a: string, s: string, s': string, b: string, x: char, y: char)
    requires x in multiset(s) && multiset(s') == multiset(s) - multiset{x} + multiset{y}
    ensures multiset(a + s' + b) == multiset(a + s + b) - multiset{x} + multiset{y}
  {
    forall c ensures multiset(a + s' + b)[c] == (multiset(a + s + b) - multiset{x} + multiset{y})[c] {
    }
  }

  predicate NoDashParts(parts: seq<string>) {
    forall i :: 0 <= i < |parts| ==> '-' !in parts[i]
  }

  /** parts[i][j] = ch on a list of segments: only that one task changes. */
  lemma UpdateShape(parts: seq<string>, i: int, j: int, ch: char)
    requires 0 <= i < |parts| && 0 <= j < |parts[i]|
    ensures var updated := parts[i := parts[i][j := ch]];
      |updated| == |parts| && Lengths(updated) == Lengths(parts) && updated[i][j] == ch &&
      (forall p, q :: 0 <= p < |parts| && 0 <= q < |parts[p]| && (p, q) != (i, j) ==> updated[p][q] == parts[p][q]) &&
      (NoDashParts(parts) && ch != '-' ==> NoDashParts(updated))
  {
    var updated := parts[i := parts[i][j := ch]];
    if NoDashParts(parts) && ch != '-' {
      forall p | 0 <= p < |updated| ensures '-' !in updated[p] {
        if p == i {
          forall m | 0 <= m < |updated[p]| ensures updated[p][m] != '-' {
            if m != j {
              assert updated[p][m] == parts[i][m] && parts[i][m] in parts[i];
            }
          }
        }
      }
    }
  }

  /** Swapping two different task positions keeps the segment lengths,
      exchanges the two tasks and changes nothing else. */
  lemma SwapShape(before: seq<string>, i1: int, j1: int, i2: int, j2: int)
    requires ValidSwap(before, i1, j1, i2, j2) && NoDashParts(before)
    ensures var first, second := before[i1][j1], before[i2][j2];
      var middle := before[i1 := before[i1][j1 := second]];
      var after := middle[i2 := middle[i2][j2 := first]];
      |after| == |before| && Lengths(after) == Lengths(before) && NoDashParts(after) &&
      after[i1][j1] == second && after[i2][j2] == first &&
      (forall i, j :: 0 <= i < |before| && 0 <= j < |before[i]| && (i, j) != (i1, j1) && (i, j) != (i2, j2) ==>
        after[i][j] == before[i][j])
  {
    var first, second := before[i1][j1], before[i2][j2];
    assert first in before[i1] && second in before[i2];
    var middle := before[i1 := before[i1][j1 := second]];
    UpdateShape(before, i1, j1, second);
    assert middle[i2][j2] == second;
    UpdateShape(middle, i2, j2, first);
  }

  /** Swapping two different task positions keeps the multiset of tasks. */
  lemma SwapMultiset(before: seq<string>, i1: int, j1: int, i2: int, j2: int)
    requires ValidSwap(before, i1, j1, i2, j2)
    ensures var first, second := before[i1][j1], before[i2][j2];
      var middle := before[i1 := before[i1][j1 := second]];
      var after := middle[i2 := middle[i2][j2 := first]];
      multiset(Flatten(after)) == multiset(Flatten(before))
  {
    var first, second := before[i1][j1], before[i2][j2];
    var middle := before[i1 := before[i1][j1 := second]];
    var after := middle[i2 := middle[i2][j2 := first]];
    UpdateTask(before, i1, j1, second);
    assert middle[i2][j2] == second;
    UpdateTask(middle, i2, j2, first);
    FlattenHas(before, i1, j1);
    ExchangeBack(multiset(Flatten(before)), first, second);
  }

  /** Taking a out and b in, then b out and a in again, restores a multiset holding a. */
  lemma ExchangeBack<T>(m: multiset<T>, a: T, b: T)
    requires a in m
    ensures m - multiset{a} + multiset{b} - multiset{b} + multiset{a} == m
  {
    var m1 := m - multiset{a} + multiset{b};
    assert b in m1;
    forall x ensures (m1 - multiset{b} + multiset{a})[x] == m[x] {
    }
  }

  lemma FlattenHas(parts: seq<string>, i: int, j: int)
    requires 0 <= i < |parts| && 0 <= j < |parts[i]|
    ensures parts[i][j] in multiset(Flatten(parts))
  {
    assert parts == parts[..i] + [parts[i]] + parts[i + 1..];
    FlattenAppend(parts[..i] + [parts[i]], parts[i + 1..]);
    FlattenAppend(parts[..i], [parts[i]]);
    assert parts[i][j] in parts[i];
  }

  /** swap_mutation(chromosome, mutation_rate): `roll` is the value of
      random.random() and (i1, j1), (i2, j2) the pairs drawn by random.sample. */
  method SwapMutation(chromosome: string, roll: real, mutationRate: real, i1: int, j1: int, i2: int, j2: int)
    returns (mutated: string)
    requires roll <= mutationRate && |TaskIndices(Split(chromosome))| >= 2 ==>
      ValidSwap(Split(chromosome), i1, j1, i2, j2)
    ensures roll > mutationRate || |TaskIndices(Split(chromosome))| < 2 ==> mutated == chromosome
    ensures roll <= mutationRate && |TaskIndices(Split(chromosome))| >= 2 ==>
      var before, after := Split(chromosome), Split(mutated);
      Lengths(after) == Lengths(before) &&
      after[i1][j1] == before[i2][j2] && after[i2][j2] == before[i1][j1] &&
      (forall i, j :: 0 <= i < |before| && 0 <= j < |before[i]| && (i, j) != (i1, j1) && (i, j) != (i2, j2) ==>
        after[i][j] == before[i][j]) &&
      multiset(RemoveDashes(mutated)) == multiset(RemoveDashes(chromosome))
  {
    if roll > mutationRate {
      return chromosome;
    }
    var parts := Split(chromosome);
    var taskIndices := TaskIndices(parts);
    if |taskIndices| < 2 {
      return chromosome;
    }
    ghost var before := parts;
    assert NoDashParts(before) by {
      assert forall i :: 0 <= i < |before| ==> before[i] in before;
    }
    SwapShape(before, i1, j1, i2, j2);
    SwapMultiset(before, i1, j1, i2, j2);
    var first := parts[i1][j1];
    var second := parts[i2][j2];
    parts := parts[i1 := parts[i1][j1 := second]];
    parts := parts[i2 := parts[i2][j2 := first]];
    assert forall p :: p in parts ==> '-' !in p;
    mutated := Join(parts);
    SplitJoin(parts);
    RemoveDashesIsFlatten(mutated);
    RemoveDashesIsFlatten(chromosome);
  }
}
