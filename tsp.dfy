/** The two travelling-salesman solvers of `tsp.py` over a square distance
    matrix: the exhaustive search over every ordering of the cities and the
    nearest-neighbour construction. Distances are integers here. */
module Tsp {
  import opened Seqs

  datatype Option<T> = None | Some(value: T)

  /** What a solver returns: the pair `(shortest_distance, optimal_path)`,
      or the `IndexError` an empty matrix raises. */
  datatype Outcome = Solved(distance: int, path: seq<nat>) | IndexError

  /** `distances`: one row per city, each as long as the number of cities. */
  predicate Square(d: seq<seq<int>>) {
    forall i :: 0 <= i < |d| ==> |d[i]| == |d|
  }

  /** Every entry of `p` names a city of `d`. */
  predicate Cities(d: seq<seq<int>>, p: seq<nat>) {
    forall i :: 0 <= i < |p| ==> p[i] < |d|
  }

  /** `range(n)`. */
  function Range(n: nat): (r: seq<nat>)
    ensures |r| == n && forall i :: 0 <= i < n ==> r[i] == i
  {
    if n == 0 then [] else Range(n - 1) + [n - 1]
  }

  /** `p` visits each of the cities `0 .. n - 1` exactly once. */
  ghost predicate IsTour(p: seq<nat>, n: nat) {
    multiset(p) == multiset(Range(n))
  }

  /** A tour has `n` entries, each a city below `n`, none repeated. */
  lemma TourShape(p: seq<nat>, n: nat)
    requires IsTour(p, n)
    ensures |p| == n
    ensures forall i :: 0 <= i < |p| ==> p[i] < n
    ensures forall i, j :: 0 <= i < j < |p| ==> p[i] != p[j]
  {
    assert |p| == |multiset(p)| == |multiset(Range(n))| == n;
    forall i | 0 <= i < |p|
      ensures p[i] < n
    {
      assert p[i] in multiset(Range(n));
    }
    forall i, j | 0 <= i < j < |p|
      ensures p[i] != p[j]
    {
      if p[i] == p[j] {
        RangeOnce(n, p[i]);
        TwiceCounted(p, i, j);
        assert false;
      }
    }
  }

  lemma {:induction false} RangeOnce(n: nat, x: nat)
    ensures multiset(Range(n))[x] <= 1
  {
    if n > 0 {
      var init := Range(n - 1);
      RangeOnce(n - 1, x);
      assert Range(n) == init + [n - 1];
      assert multiset(Range(n)) == multiset(init) + multiset{(n - 1) as nat};
      if x == n - 1 {
        assert forall i :: 0 <= i < |init| ==> init[i] != x;
        assert multiset(init)[x] == 0;
      }
    }
  }

  lemma TwiceCounted(p: seq<nat>, i: nat, j: nat)
    requires i < j < |p| && p[i] == p[j]
    ensures multiset(p)[p[i]] >= 2
  {
    assert p == p[..i] + [p[i]] + p[i + 1..j] + [p[j]] + p[j + 1..];
  }

  // ---------------------------------------------------------------------
  // Tour length

  /** The first `m` legs of `p`: the distances from `p[i]` to `p[i + 1]`
      for `i < m`. */
  function Legs(d: seq<seq<int>>, p: seq<nat>, m: nat): int
    requires Square(d) && Cities(d, p) && m < |p|
  {
    if m == 0 then 0 else Legs(d, p, m - 1) + d[p[m - 1]][p[m]]
  }

  /** The length of the closed tour `p`: its legs in order, then the way
      back from its last city to its first. */
  function TourLength(d: seq<seq<int>>, p: seq<nat>): int
    requires Square(d) && Cities(d, p) && p != []
  {
    Legs(d, p, |p| - 1) + d[p[|p| - 1]][p[0]]
  }

  /** `tsp.py` lines 22-25 and 56-57: add up the legs of `path` and the leg back to
      its start. */
  method ClosedTourLength(d: seq<seq<int>>, path: seq<nat>) returns (distance: int)
    requires Square(d) && Cities(d, path) && path != []
    ensures distance == TourLength(d, path)
  {
    distance := 0;
    for i := 0 to |path| - 1
      invariant distance == Legs(d, path, i)
    {
      distance := distance + d[path[i]][path[i + 1]];
    }
    distance := distance + d[path[|path| - 1]][path[0]];
  }

  /** The legs of `a + b` are those of `a`, the leg joining them and those
      of `b`. */
  lemma {:induction false} LegsAppend(d: seq<seq<int>>, a: seq<nat>, b: seq<nat>, m: nat)
    requires Square(d) && Cities(d, a) && Cities(d, b) && a != [] && m < |b|
    ensures Cities(d, a + b)
    ensures Legs(d, a + b, |a| + m) == Legs(d, a, |a| - 1) + d[a[|a| - 1]][b[0]] + Legs(d, b, m)
  {
    var ab := a + b;
    assert Cities(d, ab) by {
      forall i | 0 <= i < |ab| ensures ab[i] < |d| {
        if i >= |a| {
          assert ab[i] == b[i - |a|];
        }
      }
    }
    if m == 0 {
      LegsPrefix(d, a, ab, |a| - 1);
    } else {
      LegsAppend(d, a, b, m - 1);
    }
  }

  /** Legs depend only on the cities they join. */
  lemma {:induction false} LegsPrefix(d: seq<seq<int>>, a: seq<nat>, ab: seq<nat>, m: nat)
    requires Square(d) && Cities(d, a) && Cities(d, ab) && m < |a| <= |ab| && a == ab[..|a|]
    ensures Legs(d, ab, m) == Legs(d, a, m)
  {
    if m > 0 {
      LegsPrefix(d, a, ab, m - 1);
    }
  }

  /** A closed tour has the same length from whichever city it starts:
      rotating `p` by `k` positions leaves its length unchanged. */
  lemma TourRotation(d: seq<seq<int>>, p: seq<nat>, k: nat)
    requires Square(d) && Cities(d, p) && 0 < k < |p|
    ensures Cities(d, p[k..] + p[..k])
    ensures TourLength(d, p[k..] + p[..k]) == TourLength(d, p)
  {
    var a, b := p[..k], p[k..];
    assert Cities(d, a) && Cities(d, b);
    assert p == a + b;
    LegsAppend(d, a, b, |b| - 1);
    LegsAppend(d, b, a, |a| - 1);
    assert (a + b)[|a + b| - 1] == b[|b| - 1] && (a + b)[0] == a[0];
    assert (b + a)[|b + a| - 1] == a[|a| - 1] && (b + a)[0] == b[0];
  }

  // ---------------------------------------------------------------------
  // Permutations in itertools order

  /** `x` put in front of each of `ps`, in order. */
  function Prefixed(x: nat, ps: seq<seq<nat>>): (r: seq<seq<nat>>)
    ensures |r| == |ps| && forall j :: 0 <= j < |ps| ==> r[j] == [x] + ps[j]
  {
    seq(|ps|, j requires 0 <= j < |ps| => [x] + ps[j])
  }

  /** `itertools.permutations(s)`: every arrangement of the entries of `s`,
      grouped by first entry in the order of `s`, each group ordered the
      same way after its first entry. */
  function Permutations(s: seq<nat>): (ps: seq<seq<nat>>)
    ensures forall p: seq<nat> :: p in ps ==> multiset(p) == multiset(s)
    decreases |s|, 1
  {
    if s == [] then [[]] else PermutationsFrom(s, 0)
  }

  /** The groups of `Permutations(s)` that start with `s[i]`, `s[i + 1]`, …. */
  function PermutationsFrom(s: seq<nat>, i: nat): (ps: seq<seq<nat>>)
    requires i <= |s|
    ensures forall p: seq<nat> :: p in ps ==> multiset(p) == multiset(s) && p != [] && p[0] in s[i..]
    decreases |s|, 0, |s| - i
  {
    if i == |s| then []
    else
      var group := Prefixed(s[i], Permutations(Without(s, i)));
      assert forall p: seq<nat> :: p in group ==> multiset(p) == multiset(s) && p != [] && p[0] == s[i] by {
        forall p: seq<nat> | p in group
          ensures multiset(p) == multiset(s) && p != [] && p[0] == s[i]
        {
          var j :| 0 <= j < |group| && group[j] == p;
          var rest := Permutations(Without(s, i));
          assert rest[j] in rest;
          assert p == [s[i]] + rest[j];
          assert multiset(p) == multiset{s[i]} + multiset(rest[j]);
        }
      }
      group + PermutationsFrom(s, i + 1)
  }

  /** Every arrangement of `s` is enumerated. */
  lemma {:induction false} PermutationsComplete(s: seq<nat>, p: seq<nat>)
    requires multiset(p) == multiset(s)
    ensures p in Permutations(s)
    decreases |s|, 1
  {
    if s != [] {
      assert p[0] in multiset(s);
      var m :| 0 <= m < |s| && s[m] == p[0];
      PermutationsFromComplete(s, 0, m, p);
    }
  }

  lemma {:induction false} PermutationsFromComplete(s: seq<nat>, i: nat, m: nat, p: seq<nat>)
    requires i <= m < |s| && p != [] && p[0] == s[m] && multiset(p) == multiset(s)
    ensures p in PermutationsFrom(s, i)
    decreases |s|, 0, m - i + 1
  {
    if i < m {
      PermutationsFromComplete(s, i + 1, m, p);
    } else {
      GroupComplete(s, i, p);
    }
  }

  /** An arrangement starting with `s[i]` is in the group of `s[i]`. */
  lemma {:induction false} GroupComplete(s: seq<nat>, i: nat, p: seq<nat>)
    requires i < |s| && p != [] && p[0] == s[i] && multiset(p) == multiset(s)
    ensures p in Prefixed(s[i], Permutations(Without(s, i)))
    decreases |s|, 0, 0
  {
    assert p == [p[0]] + p[1..];
    assert multiset(p) == multiset{s[i]} + multiset(p[1..]);
    MultisetCancel(multiset(p[1..]), multiset(Without(s, i)), s[i]);
    PermutationsComplete(Without(s, i), p[1..]);
    var rest := Permutations(Without(s, i));
    var j :| 0 <= j < |rest| && rest[j] == p[1..];
    assert Prefixed(s[i], rest)[j] == p;
  }

  lemma MultisetCancel(a: multiset<nat>, b: multiset<nat>, x: nat)
    requires a + multiset{x} == b + multiset{x}
    ensures a == b
  {
    assert a == (a + multiset{x}) - multiset{x};
    assert b == (b + multiset{x}) - multiset{x};
  }

  /** The lexicographic order in which `itertools.permutations` yields the
      orderings of `range(n)` (`tsp.py` line 21): of two equal-length
      orderings, the one with the smaller city at the first position where
      they differ comes first. */
  predicate LexLess(a: seq<nat>, b: seq<nat>) {
    a != [] && b != [] && (a[0] < b[0] || (a[0] == b[0] && LexLess(a[1..], b[1..])))
  }

  lemma {:induction false} LexLessAsymmetric(a: seq<nat>, b: seq<nat>)
    ensures !(LexLess(a, b) && LexLess(b, a))
    ensures !LexLess(a, a)
  {
    if a != [] && b != [] {
      LexLessAsymmetric(a[1..], b[1..]);
    }
    if a != [] {
      LexLessAsymmetric(a[1..], a[1..]);
    }
  }

  /** Strictly increasing entries. */
  predicate Ascending(s: seq<nat>) {
    forall i, j :: 0 <= i < j < |s| ==> s[i] < s[j]
  }

  /** Each arrangement comes before the next in `LexLess`. */
  ghost predicate LexSorted(ps: seq<seq<nat>>) {
    forall i, j :: 0 <= i < j < |ps| ==> LexLess(ps[i], ps[j])
  }

  /** For ascending `s` (such as `range(n)`) the enumeration is in
      lexicographic order, the order `itertools.permutations` promises. */
  lemma {:induction false} PermutationsSorted(s: seq<nat>)
    requires Ascending(s)
    ensures LexSorted(Permutations(s))
    decreases |s|, 1
  {
    if s != [] {
      PermutationsFromSorted(s, 0);
    }
  }

  lemma {:induction false} PermutationsFromSorted(s: seq<nat>, i: nat)
    requires Ascending(s) && i <= |s|
    ensures LexSorted(PermutationsFrom(s, i))
    decreases |s|, 0, |s| - i
  {
    if i < |s| {
      var rest := Permutations(Without(s, i));
      var group := Prefixed(s[i], rest);
      var later := PermutationsFrom(s, i + 1);
      assert Ascending(Without(s, i)) by {
        var w := Without(s, i);
        forall a, b | 0 <= a < b < |w| ensures w[a] < w[b] {
          var a' := if a < i then a else a + 1;
          var b' := if b < i then b else b + 1;
          assert w[a] == s[a'] && w[b] == s[b'];
        }
      }
      PermutationsSorted(Without(s, i));
      PrefixedSorted(s[i], rest);
      PermutationsFromSorted(s, i + 1);
      forall x, y | x in group && y in later
        ensures LexLess(x, y)
      {
        var j :| 0 <= j < |group| && group[j] == x;
        assert x[0] == s[i];
        var m :| i + 1 <= m < |s| && s[m] == y[0];
      }
      SortedConcat(group, later);
    }
  }

  lemma PrefixedSorted(x: nat, ps: seq<seq<nat>>)
    requires LexSorted(ps)
    ensures LexSorted(Prefixed(x, ps))
  {
    var r := Prefixed(x, ps);
    forall i, j | 0 <= i < j < |r|
      ensures LexLess(r[i], r[j])
    {
      assert r[i][1..] == ps[i] && r[j][1..] == ps[j];
    }
  }

  lemma SortedConcat(a: seq<seq<nat>>, b: seq<seq<nat>>)
    requires LexSorted(a) && LexSorted(b)
    requires forall x, y :: x in a && y in b ==> LexLess(x, y)
    ensures LexSorted(a + b)
  {
    var ab := a + b;
    forall i, j | 0 <= i < j < |ab|
      ensures LexLess(ab[i], ab[j])
    {
      if i < |a| && j >= |a| {
        assert ab[i] == a[i] && ab[j] == b[j - |a|];
      } else if j < |a| {
        assert ab[i] == a[i] && ab[j] == a[j];
      } else {
        assert ab[i] == b[i - |a|] && ab[j] == b[j - |a|];
      }
    }
  }

  /** In a sorted enumeration an arrangement that is lexicographically
      smaller comes earlier. */
  lemma SortedOrder(ps: seq<seq<nat>>, i: nat, j: nat)
    requires LexSorted(ps) && i < |ps| && j < |ps|
    ensures LexLess(ps[i], ps[j]) ==> i < j
  {
    if j < i {
      LexLessAsymmetric(ps[j], ps[i]);
    } else if i == j {
      LexLessAsymmetric(ps[i], ps[i]);
    }
  }

  /** The enumeration of `range(n)`'s arrangements lists exactly the tours
      of `n` cities, each once, in lexicographic order. */
  lemma ToursEnumerated(n: nat)
    ensures forall p :: p in Permutations(Range(n)) ==> IsTour(p, n)
    ensures forall p :: IsTour(p, n) ==> p in Permutations(Range(n))
    ensures LexSorted(Permutations(Range(n)))
    ensures Range(n) in Permutations(Range(n))
  {
    forall p | IsTour(p, n)
      ensures p in Permutations(Range(n))
    {
      PermutationsComplete(Range(n), p);
    }
    PermutationsComplete(Range(n), Range(n));
    PermutationsSorted(Range(n));
  }

  // ---------------------------------------------------------------------
  // The solvers

  /** `tsp_brute_force(distances, cities)`: measure every ordering of the
      cities and keep the first one that is strictly shorter than all
      before it. `cities` is unused. */
  method TspBruteForce(d: seq<seq<int>>) returns (o: Outcome)
    requires Square(d)
    ensures o.IndexError? <==> |d| == 0
    ensures o.Solved? ==> IsTour(o.path, |d|) && Cities(d, o.path) && o.path != []
    ensures o.Solved? ==> o.distance == TourLength(d, o.path)
    ensures o.Solved? ==> forall p :: IsTour(p, |d|) && Cities(d, p) && p != [] ==>
      o.distance <= TourLength(d, p)
    ensures o.Solved? ==> forall p :: IsTour(p, |d|) && Cities(d, p) && p != [] && LexLess(p, o.path) ==>
      o.distance < TourLength(d, p)
  {
    var n := |d|;
    var perms := Permutations(Range(n));
    ToursEnumerated(n);
    var shortest: Option<int> := None;
    var optimal: Option<seq<nat>> := None;
    ghost var best: nat := 0;
    for t := 0 to |perms|
      invariant shortest.Some? <==> 0 < t
      invariant 0 < t ==> 0 < n && FirstShortest(d, perms, t, best) && optimal == Some(perms[best])
      invariant 0 < t ==> shortest.value == TourLength(d, perms[best])
    {
      var path := perms[t];
      assert path in perms;
      TourShape(path, n);
      if path == [] {
        return IndexError;  // `path[-1]` of the one empty arrangement
      }
      var distance := ClosedTourLength(d, path);
      ShortestNext(d, perms, t, best);
      if shortest.None? || distance < shortest.value {
        shortest, optimal, best := Some(distance), Some(path), t;
      }
    }
    assert perms[best] in perms;
    BruteForceOptimal(d, perms, best);
    return Solved(shortest.value, optimal.value);
  }

  /** One turn of the loop over `perms` keeps the first shortest so far. */
  lemma ShortestNext(d: seq<seq<int>>, perms: seq<seq<nat>>, t: nat, best: nat)
    requires Square(d) && t < |perms| && Cities(d, perms[t]) && perms[t] != []
    requires 0 < t ==> FirstShortest(d, perms, t, best)
    ensures 0 < t && TourLength(d, perms[best]) <= TourLength(d, perms[t]) ==>
      FirstShortest(d, perms, t + 1, best)
    ensures (t == 0 || TourLength(d, perms[t]) < TourLength(d, perms[best])) ==>
      FirstShortest(d, perms, t + 1, t)
  {
  }

  /** `perms[best]` is the first of `perms[..t]` of least length. */
  ghost predicate FirstShortest(d: seq<seq<int>>, perms: seq<seq<nat>>, t: nat, best: nat) {
    && Square(d) && t <= |perms| && best < t
    && (forall i :: 0 <= i < t ==> Cities(d, perms[i]) && perms[i] != [])
    && (forall i :: 0 <= i < t ==> TourLength(d, perms[best]) <= TourLength(d, perms[i]))
    && (forall i :: 0 <= i < best ==> TourLength(d, perms[best]) < TourLength(d, perms[i]))
  }

  /** The first shortest of all the tours in lexicographic order is no
      longer than any tour and shorter than every tour before it. */
  lemma BruteForceOptimal(d: seq<seq<int>>, perms: seq<seq<nat>>, best: nat)
    requires FirstShortest(d, perms, |perms|, best) && LexSorted(perms)
    requires forall p :: p in perms ==> IsTour(p, |d|)
    requires forall p :: IsTour(p, |d|) ==> p in perms
    ensures IsTour(perms[best], |d|)
    ensures forall p :: IsTour(p, |d|) && Cities(d, p) && p != [] ==>
      TourLength(d, perms[best]) <= TourLength(d, p)
    ensures forall p :: IsTour(p, |d|) && Cities(d, p) && p != [] && LexLess(p, perms[best]) ==>
      TourLength(d, perms[best]) < TourLength(d, p)
  {
    assert perms[best] in perms;
    forall p | IsTour(p, |d|) && Cities(d, p) && p != []
      ensures TourLength(d, perms[best]) <= TourLength(d, p)
      ensures LexLess(p, perms[best]) ==> TourLength(d, perms[best]) < TourLength(d, p)
    {
      var i :| 0 <= i < |perms| && perms[i] == p;
      SortedOrder(perms, i, best);
    }
  }

  /** `min(unvisited_cities, key=lambda city: distances[current_city][city])`:
      the first candidate at the least distance from `from`, with its index. */
  method Nearest(d: seq<seq<int>>, from: nat, cands: seq<nat>) returns (nearest: nat, j: nat)
    requires Square(d) && from < |d| && cands != [] && Cities(d, cands)
    ensures j < |cands| && nearest == cands[j]
    ensures forall i :: 0 <= i < |cands| ==> d[from][nearest] <= d[from][cands[i]]
    ensures forall i :: 0 <= i < j ==> d[from][nearest] < d[from][cands[i]]
  {
    j := 0;
    for i := 1 to |cands|
      invariant j < i
      invariant forall t :: 0 <= t < i ==> d[from][cands[j]] <= d[from][cands[t]]
      invariant forall t :: 0 <= t < j ==> d[from][cands[j]] < d[from][cands[t]]
    {
      if d[from][cands[i]] < d[from][cands[j]] {
        j := i;
      }
    }
    nearest := cands[j];
  }

  /** `x` is the city of `rest` closest to `from`, the lowest-numbered one
      among equally close cities. */
  ghost predicate NearestOf(d: seq<seq<int>>, from: nat, x: nat, rest: seq<nat>)
    requires Square(d) && from < |d| && x < |d| && Cities(d, rest)
  {
    forall y :: y in rest ==> d[from][x] < d[from][y] || (d[from][x] == d[from][y] && x <= y)
  }

  /** Each city of `p` after the first is the nearest of the cities not yet
      visited before it. */
  ghost predicate Greedy(d: seq<seq<int>>, p: seq<nat>)
    requires Square(d) && Cities(d, p)
  {
    forall k :: 1 <= k < |p| ==> NearestOf(d, p[k - 1], p[k], p[k..])
  }

  /** `tsp_greedy(distances, cities)`: start at city 0, repeatedly move to
      the nearest unvisited city, then measure the closed tour. `cities`
      is unused. */
  method TspGreedy(d: seq<seq<int>>) returns (o: Outcome, ghost iterations: nat)
    requires Square(d)
    ensures o.IndexError? <==> |d| == 0
    ensures o.Solved? ==> IsTour(o.path, |d|) && Cities(d, o.path) && o.path[0] == 0
    ensures o.Solved? ==> Greedy(d, o.path) && o.distance == TourLength(d, o.path)
    ensures o.Solved? ==> iterations == |d| - 1
  {
    var n := |d|;
    var visited: seq<nat> := [0];
    var unvisited: seq<nat> := if n == 0 then [] else Range(n)[1..];
    iterations := 0;
    if n > 0 {
      GreedyBegin(d);
    }
    while unvisited != []
      invariant |visited| == iterations + 1
      invariant n == 0 ==> visited == [0] && unvisited == []
      invariant n > 0 ==> Building(d, visited, unvisited)
      decreases |unvisited|
    {
      var current := visited[|visited| - 1];
      var nearest, j := Nearest(d, current, unvisited);
      GreedyStep(d, visited, unvisited, j);
      visited := visited + [nearest];
      unvisited := unvisited[..j] + unvisited[j + 1..];  // `remove`: no repeats, so the first match is at j
      iterations := iterations + 1;
    }
    if n == 0 {
      return IndexError, iterations;  // `distances[0]` of an empty matrix
    }
    GreedyDone(d, visited);
    var distance := ClosedTourLength(d, visited);
    return Solved(distance, visited), iterations;
  }

  /** Every city after the first of `visited` was the nearest of those
      not visited before it. */
  ghost predicate GreedyPrefix(d: seq<seq<int>>, visited: seq<nat>, unvisited: seq<nat>)
    requires Square(d) && Cities(d, visited) && Cities(d, unvisited)
  {
    forall k :: 1 <= k < |visited| ==> NearestOf(d, visited[k - 1], visited[k], visited[k..] + unvisited)
  }

  /** The invariant of the `while` loop: the two lists split the cities,
      the tour so far starts at city 0 and follows the nearest-city rule,
      and `unvisited_cities` stays in ascending order. */
  ghost predicate Building(d: seq<seq<int>>, visited: seq<nat>, unvisited: seq<nat>) {
    && Square(d) && visited != [] && visited[0] == 0
    && Cities(d, visited) && Cities(d, unvisited) && Ascending(unvisited)
    && multiset(visited) + multiset(unvisited) == multiset(Range(|d|))
    && GreedyPrefix(d, visited, unvisited)
  }

  lemma GreedyBegin(d: seq<seq<int>>)
    requires Square(d) && |d| > 0
    ensures Building(d, [0], Range(|d|)[1..])
  {
    assert Range(|d|) == [0] + Range(|d|)[1..];
  }

  /** When no city is left, the loop has built a greedy tour. */
  lemma GreedyDone(d: seq<seq<int>>, visited: seq<nat>)
    requires Building(d, visited, [])
    ensures IsTour(visited, |d|) && Greedy(d, visited)
  {
    forall k | 1 <= k < |visited|
      ensures NearestOf(d, visited[k - 1], visited[k], visited[k..])
    {
      assert visited[k..] + [] == visited[k..];
    }
  }

  /** One turn of the `while` loop keeps its invariant: the nearest
      candidate `unvisited[j]` moves over to `visited`. */
  lemma GreedyStep(d: seq<seq<int>>, visited: seq<nat>, unvisited: seq<nat>, j: nat)
    requires Building(d, visited, unvisited) && j < |unvisited|
    requires forall i :: 0 <= i < |unvisited| ==>
      d[visited[|visited| - 1]][unvisited[j]] <= d[visited[|visited| - 1]][unvisited[i]]
    requires forall i :: 0 <= i < j ==>
      d[visited[|visited| - 1]][unvisited[j]] < d[visited[|visited| - 1]][unvisited[i]]
    ensures Building(d, visited + [unvisited[j]], unvisited[..j] + unvisited[j + 1..])
  {
    MoveSplits(d, visited, unvisited, j);
    NearestChosen(d, visited[|visited| - 1], unvisited, j);
    MoveKeepsPrefix(d, visited, unvisited, j);
  }

  /** Moving `unvisited[j]` over keeps the split of the cities and the
      ascending order of the rest. */
  lemma MoveSplits(d: seq<seq<int>>, visited: seq<nat>, unvisited: seq<nat>, j: nat)
    requires Square(d) && Cities(d, visited) && Cities(d, unvisited) && Ascending(unvisited) && j < |unvisited|
    ensures var v, u := visited + [unvisited[j]], unvisited[..j] + unvisited[j + 1..];
      && Cities(d, v) && Cities(d, u) && Ascending(u)
      && multiset(v) + multiset(u) == multiset(visited) + multiset(unvisited)
  {
    var x := unvisited[j];
    var u := unvisited[..j] + unvisited[j + 1..];
    assert unvisited == unvisited[..j] + [x] + unvisited[j + 1..];
    forall a, b | 0 <= a < b < |u| ensures u[a] < u[b] {
      var a' := if a < j then a else a + 1;
      var b' := if b < j then b else b + 1;
      assert u[a] == unvisited[a'] && u[b] == unvisited[b'];
    }
  }

  /** Moving the nearest city over keeps every earlier choice nearest
      among the cities left at its turn, and makes the new choice so. */
  lemma MoveKeepsPrefix(d: seq<seq<int>>, visited: seq<nat>, unvisited: seq<nat>, j: nat)
    requires Square(d) && visited != [] && Cities(d, visited) && Cities(d, unvisited) && j < |unvisited|
    requires GreedyPrefix(d, visited, unvisited)
    requires NearestOf(d, visited[|visited| - 1], unvisited[j], unvisited)
    requires Cities(d, visited + [unvisited[j]]) && Cities(d, unvisited[..j] + unvisited[j + 1..])
    ensures GreedyPrefix(d, visited + [unvisited[j]], unvisited[..j] + unvisited[j + 1..])
  {
    var x := unvisited[j];
    var v, u := visited + [x], unvisited[..j] + unvisited[j + 1..];
    assert unvisited == unvisited[..j] + [x] + unvisited[j + 1..];
    forall k | 1 <= k < |v|
      ensures NearestOf(d, v[k - 1], v[k], v[k..] + u)
    {
      if k < |visited| {
        assert v[k..] + u == visited[k..] + [x] + u;
        NearestKept(d, visited[k - 1], visited[k], visited[k..] + unvisited, v[k..] + u);
      } else {
        assert v[k..] + u == [x] + u;
        NearestKept(d, visited[|visited| - 1], x, unvisited, v[k..] + u);
      }
    }
  }

  /** Nearest among some cities, nearest among fewer. */
  lemma NearestKept(d: seq<seq<int>>, from: nat, x: nat, rest: seq<nat>, fewer: seq<nat>)
    requires Square(d) && from < |d| && x < |d| && Cities(d, rest) && Cities(d, fewer)
    requires NearestOf(d, from, x, rest) && forall y :: y in fewer ==> y in rest
    ensures NearestOf(d, from, x, fewer)
  {
  }

  /** The first candidate at least distance is the lowest-numbered nearest
      city when the candidates are ascending. */
  lemma NearestChosen(d: seq<seq<int>>, from: nat, cands: seq<nat>, j: nat)
    requires Square(d) && from < |d| && Cities(d, cands) && Ascending(cands) && j < |cands|
    requires forall i :: 0 <= i < |cands| ==> d[from][cands[j]] <= d[from][cands[i]]
    requires forall i :: 0 <= i < j ==> d[from][cands[j]] < d[from][cands[i]]
    ensures NearestOf(d, from, cands[j], cands)
  {
    forall y | y in cands
      ensures d[from][cands[j]] < d[from][y] || (d[from][cands[j]] == d[from][y] && cands[j] <= y)
    {
      var i :| 0 <= i < |cands| && cands[i] == y;
    }
  }

  /** At most one tour of `n` cities starts at city 0 and is built by the
      nearest-city rule, so the rule fixes the greedy tour. */
  lemma GreedyUnique(d: seq<seq<int>>, p: seq<nat>, q: seq<nat>)
    requires Square(d) && IsTour(p, |d|) && IsTour(q, |d|) && Cities(d, p) && Cities(d, q)
    requires p != [] && q != [] && p[0] == q[0]
    requires Greedy(d, p) && Greedy(d, q)
    ensures p == q
  {
    TourShape(p, |d|);
    TourShape(q, |d|);
    var k := 1;
    while k < |p|
      invariant 1 <= k <= |p| && p[..k] == q[..k]
    {
      SameRest(p, q, k);
      assert q[k] in multiset(p[k..]) && p[k] in multiset(q[k..]);
      assert p[k - 1] == q[k - 1];
      NearestAgree(d, p[k - 1], p[k], q[k], p[k..], q[k..]);
      assert p[..k + 1] == p[..k] + [p[k]] && q[..k + 1] == q[..k] + [q[k]];
      k := k + 1;
    }
    assert p == p[..k] && q == q[..k];
  }

  /** Two arrangements of the same cities that agree on their first `k`
      entries hold the same cities after them. */
  lemma SameRest(p: seq<nat>, q: seq<nat>, k: nat)
    requires multiset(p) == multiset(q) && k <= |p| && k <= |q| && p[..k] == q[..k]
    ensures multiset(p[k..]) == multiset(q[k..])
  {
    assert p == p[..k] + p[k..] && q == q[..k] + q[k..];
    var a := multiset(p[..k]);
    assert multiset(p[k..]) == (a + multiset(p[k..])) - a;
    assert multiset(q[k..]) == (a + multiset(q[k..])) - a;
  }

  /** Two nearest choices from the same city, each among cities that
      include the other, are the same city. */
  lemma NearestAgree(d: seq<seq<int>>, from: nat, x: nat, y: nat, xs: seq<nat>, ys: seq<nat>)
    requires Square(d) && from < |d| && x < |d| && y < |d| && Cities(d, xs) && Cities(d, ys)
    requires NearestOf(d, from, x, xs) && NearestOf(d, from, y, ys) && y in xs && x in ys
    ensures x == y
  {
  }
}
