/** Chromosome strings of the scheduler in Question2/Q2.py. A chromosome lists
    task digits per facility, facilities separated by '-' ("147-35-26": tasks
    1, 4, 7 at facility 1, and so on). This module models the Python string
    operations those functions use: str.split('-'), '-'.join, str.replace('-', ''),
    concatenation of the segments, and slicing clamped to the string length. */
module ChromosomeText {

  /** The number of occurrences of ch in s. */
  function Count(s: string, ch: char): nat {
    if s == [] then 0 else (if s[0] == ch then 1 else 0) + Count(s[1..], ch)
  }

  /** chromosome.split('-'): one part per dash plus one, no part holding a
      dash, and every character of a part taken from s. */
  function Split(s: string): (parts: seq<string>)
    ensures |parts| == Count(s, '-') + 1
    ensures forall p :: p in parts ==> '-' !in p
    ensures forall p :: p in parts ==> forall ch :: ch in p ==> ch in s
  {
    if s == [] then [""]
    else
      var rest := Split(s[1..]);
      assert forall ch :: ch in s[1..] ==> ch in s;
      assert rest[0] in rest && forall p :: p in rest[1..] ==> p in rest;
      if s[0] == '-' then [""] + rest
      else [[s[0]] + rest[0]] + rest[1..]
  }

  /** '-'.join(parts): the parts with one dash between neighbours. */
  function Join(parts: seq<string>): (s: string)
    ensures parts != [] ==> |s| == |Flatten(parts)| + |parts| - 1
  {
    if parts == [] then ""
    else if |parts| == 1 then parts[0]
    else parts[0] + "-" + Join(parts[1..])
  }

  /** The segments written one after another (''.join(parts)). */
  function Flatten(parts: seq<string>): string {
    if parts == [] then "" else parts[0] + Flatten(parts[1..])
  }

  /** chromosome.replace('-', ''): every dash removed and nothing else. */
  function RemoveDashes(s: string): (r: string)
    ensures '-' !in r
    ensures |r| + Count(s, '-') == |s|
  {
    if s == [] then ""
    else (if s[0] == '-' then "" else [s[0]]) + RemoveDashes(s[1..])
  }

  /** [len(p) for p in parts]: one length per part, totalling the length of the
      parts written one after another. */
  function Lengths(parts: seq<string>): (lens: seq<nat>)
    ensures |lens| == |parts| && forall i :: 0 <= i < |parts| ==> lens[i] == |parts[i]|
    ensures Sum(lens) == |Flatten(parts)|
  {
    var lens := seq(|parts|, i requires 0 <= i < |parts| => |parts[i]|);
    SumOfLengths(parts, lens);
    lens
  }

  /** Any list holding the part lengths in order sums to the flattened length. */
  lemma {:induction false} SumOfLengths(parts: seq<string>, lens: seq<int>)
    requires |lens| == |parts| && forall i :: 0 <= i < |parts| ==> lens[i] == |parts[i]|
    ensures Sum(lens) == |Flatten(parts)|
  {
    if parts != [] {
      SumOfLengths(parts[1..], lens[1..]);
    }
  }

  /** sum(xs): never negative for a list of lengths. */
  function Sum(xs: seq<int>): (total: int)
    ensures (forall i :: 0 <= i < |xs| ==> xs[i] >= 0) ==> total >= 0
  {
    if xs == [] then 0 else xs[0] + Sum(xs[1..])
  }

  function Min(a: int, b: int): int {
    if a <= b then a else b
  }

  /** s[:n] for n >= 0: Python clamps n to the length. */
  function Take(s: string, n: nat): (t: string)
    ensures |t| == Min(n, |s|)
  {
    s[..Min(n, |s|)]
  }

  /** s[n:] for n >= 0. */
  function Drop(s: string, n: nat): (t: string)
    ensures |t| == |s| - Min(n, |s|)
  {
    s[Min(n, |s|)..]
  }

  /** s[lo:hi] for 0 <= lo <= hi: the characters from lo up to hi, both bounds
      clamped to the length. */
  function Slice(s: string, lo: nat, hi: nat): (t: string)
    requires lo <= hi
    ensures |t| == Min(hi, |s|) - Min(lo, |s|)
    ensures forall k :: 0 <= k < |t| ==> t[k] == s[lo + k]
  {
    Take(Drop(s, lo), hi - lo)
  }

  // ---------------------------------------------------------------------
  // Lemmas

  lemma {:induction false} SplitNoDash(w: string)
    requires '-' !in w
    ensures Split(w) == [w]
  {
    if w != [] {
      SplitNoDash(w[1..]);
      assert [w[0]] + w[1..] == w;
    }
  }

  /** Splitting a part, a dash and the rest yields the part, then the rest's parts. */
  lemma {:induction false} SplitPrefix(w: string, t: string)
    requires '-' !in w
    ensures Split(w + "-" + t) == [w] + Split(t)
  {
    if w == [] {
      assert w + "-" + t == ['-'] + t;
      assert (['-'] + t)[1..] == t;
    } else {
      assert (w + "-" + t)[1..] == w[1..] + "-" + t;
      SplitPrefix(w[1..], t);
      assert [w[0]] + w[1..] == w;
    }
  }

  /** Joining parts without dashes and splitting again gives the parts back. */
  lemma {:induction false} SplitJoin(parts: seq<string>)
    requires |parts| >= 1 && forall p :: p in parts ==> '-' !in p
    ensures Split(Join(parts)) == parts
  {
    if |parts| == 1 {
      SplitNoDash(parts[0]);
    } else {
      assert parts[0] in parts;
      assert forall p :: p in parts[1..] ==> p in parts;
      SplitJoin(parts[1..]);
      SplitPrefix(parts[0], Join(parts[1..]));
      assert [parts[0]] + parts[1..] == parts;
    }
  }

  /** Splitting and joining again gives the string back. */
  lemma {:induction false} JoinSplit(s: string)
    ensures Join(Split(s)) == s
  {
    if s != [] {
      JoinSplit(s[1..]);
      var rest := Split(s[1..]);
      if s[0] == '-' {
        assert ([""] + rest)[1..] == rest;
      } else {
        var head := [s[0]] + rest[0];
        assert ([head] + rest[1..])[1..] == rest[1..];
        if |rest| > 1 {
          assert Join(rest) == rest[0] + "-" + Join(rest[1..]);
        }
      }
      assert [s[0]] + s[1..] == s;
    }
  }

  /** replace('-', '') is the segments of split('-') written one after another. */
  lemma {:induction false} RemoveDashesIsFlatten(s: string)
    ensures RemoveDashes(s) == Flatten(Split(s))
  {
    if s != [] {
      RemoveDashesIsFlatten(s[1..]);
      var rest := Split(s[1..]);
      if s[0] == '-' {
        assert ([""] + rest)[1..] == rest;
      } else {
        var head := [s[0]] + rest[0];
        assert ([head] + rest[1..])[1..] == rest[1..];
        assert Flatten(rest) == rest[0] + Flatten(rest[1..]);
      }
    }
  }

  lemma {:induction false} FlattenAppend(a: seq<string>, b: seq<string>)
    ensures Flatten(a + b) == Flatten(a) + Flatten(b)
  {
    if a != [] {
      assert (a + b)[1..] == a[1..] + b;
      FlattenAppend(a[1..], b);
    } else {
      assert a + b == b;
    }
  }

  /** Flattening the first i + 1 segments appends segment i. */
  lemma FlattenPrefix(parts: seq<string>, i: int)
    requires 0 <= i < |parts|
    ensures Flatten(parts[..i + 1]) == Flatten(parts[..i]) + parts[i]
  {
    assert parts[..i + 1] == parts[..i] + [parts[i]];
    FlattenAppend(parts[..i], [parts[i]]);
  }

  lemma {:induction false} SumAppend(a: seq<int>, b: seq<int>)
    ensures Sum(a + b) == Sum(a) + Sum(b)
  {
    if a != [] {
      assert (a + b)[1..] == a[1..] + b;
      SumAppend(a[1..], b);
    } else {
      assert a + b == b;
    }
  }

  lemma SumPrefix(xs: seq<int>, i: int)
    requires 0 <= i < |xs|
    ensures Sum(xs[..i + 1]) == Sum(xs[..i]) + xs[i]
  {
    assert xs[..i + 1] == xs[..i] + [xs[i]];
    SumAppend(xs[..i], [xs[i]]);
  }

  /** The number of tasks of a chromosome is the total of its segment lengths. */
  lemma TaskCount(s: string)
    ensures |RemoveDashes(s)| == Sum(Lengths(Split(s)))
  {
    RemoveDashesIsFlatten(s);
  }
}
