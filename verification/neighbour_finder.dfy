/** The nearest-neighbour report of `neighbour_finder.py`: rank the coherent
    beams of one observation by their separation from a reference beam and
    report the closest ones, skipping rank 0; optionally rank the beams of a
    second epoch against the same reference, starting at rank 0. The
    separation of two positions is a given function. */
module NeighbourFinder {
  import opened Wrappers
  import opened BeamCatalogue

  /** One report line: a beam's catalogue position and the separation printed
      beside its token. */
  datatype Neighbour = Neighbour(beam: nat, sep: real)

  /** The first-epoch lines, and for a second epoch whose metadata exists
      either its lines or the error that stopped its loading (the first-epoch
      lines have already been printed by then). */
  datatype NeighbourReport = NeighbourReport(first: seq<Neighbour>, second: Option<Loaded<seq<Neighbour>>>)

  function Min(a: int, b: int): (m: int) { if a <= b then a else b }

  /** `order` lists every position `0 .. n - 1` exactly once. */
  predicate IsPermutation(order: seq<nat>, n: nat)
  {
    multiset(order) == multiset(Positions(n))
  }

  /** A result `numpy.argsort` may give: every position once, in non-decreasing
      order of separation. Among equal separations the order is not fixed. */
  predicate IsArgsort(seps: seq<real>, order: seq<nat>)
  {
    IsPermutation(order, |seps|) && |order| == |seps| && Indices(order, |seps|) &&
    forall j, k :: 0 <= j < k < |order| ==> seps[order[j]] <= seps[order[k]]
  }

  lemma {:induction false} PositionsOnce(n: nat, x: nat)
    ensures multiset(Positions(n))[x] == if x < n then 1 else 0
  {
    if n > 0 {
      assert Positions(n) == Positions(n - 1) + [n - 1];
      PositionsOnce(n - 1, x);
    }
  }

  /** A permutation of `0 .. n - 1` has length `n`, stays in range, holds
      every position and repeats none. */
  lemma PermutationFacts(order: seq<nat>, n: nat)
    requires IsPermutation(order, n)
    ensures |order| == n
    ensures forall k :: 0 <= k < |order| ==> order[k] < n
    ensures forall i :: 0 <= i < n ==> i in order
    ensures forall j, k :: 0 <= j < k < |order| ==> order[j] != order[k]
  {
    assert |order| == |multiset(order)| == |multiset(Positions(n))| == n;
    forall k | 0 <= k < |order| ensures order[k] < n {
      assert order[k] in multiset(order);
      PositionsOnce(n, order[k]);
    }
    forall i | 0 <= i < n ensures i in order {
      PositionsOnce(n, i);
      assert i in multiset(order);
    }
    forall j, k | 0 <= j < k < |order| ensures order[j] != order[k] {
      if order[j] == order[k] {
        TwiceCountsTwice(order, j, k);
        PositionsOnce(n, order[j]);
        assert false;
      }
    }
  }

  /** The rank at which a permutation holds position `i`. */
  lemma RankOf(order: seq<nat>, n: nat, i: nat) returns (p: nat)
    requires IsPermutation(order, n) && i < n
    ensures p < |order| && order[p] == i
  {
    PositionsOnce(n, i);
    assert i in multiset(order);
    p :| 0 <= p < |order| && order[p] == i;
  }

  /** Every entry of `s` is a position of a catalogue of `n` beams. */
  predicate Indices(s: seq<nat>, n: nat)
  {
    forall k :: 0 <= k < |s| ==> s[k] < n
  }

  predicate SortedBySep(seps: seq<real>, s: seq<nat>)
    requires Indices(s, |seps|)
  {
    forall j, k :: 0 <= j < k < |s| ==> seps[s[j]] <= seps[s[k]]
  }

  /** Insert position `i` into a ranking, after every position with a
      smaller separation. */
  function InsertBySep(seps: seq<real>, i: nat, s: seq<nat>): (r: seq<nat>)
    requires i < |seps| && Indices(s, |seps|) && SortedBySep(seps, s)
    ensures multiset(r) == multiset(s) + multiset{i}
    ensures Indices(r, |seps|) && SortedBySep(seps, r)
    decreases |s|
  {
    if s == [] then [i]
    else if seps[i] <= seps[s[0]] then
      InsertBySepFront(seps, i, s);
      [i] + s
    else
      var rest := InsertBySep(seps, i, s[1..]);
      InsertBySepBehind(seps, i, s, rest);
      [s[0]] + rest
  }

  lemma ConsBySep(seps: seq<real>, h: nat, rest: seq<nat>)
    requires h < |seps| && Indices(rest, |seps|) && SortedBySep(seps, rest)
    requires forall x :: x in multiset(rest) && x < |seps| ==> seps[h] <= seps[x]
    ensures Indices([h] + rest, |seps|) && SortedBySep(seps, [h] + rest)
  {
    var r := [h] + rest;
    forall j, k | 0 <= j < k < |r| ensures seps[r[j]] <= seps[r[k]] {
      assert r[k] == rest[k - 1] && rest[k - 1] in multiset(rest);
      if j > 0 { assert r[j] == rest[j - 1]; }
    }
  }

  lemma InsertBySepFront(seps: seq<real>, i: nat, s: seq<nat>)
    requires i < |seps| && Indices(s, |seps|) && SortedBySep(seps, s)
    requires s != [] && seps[i] <= seps[s[0]]
    ensures Indices([i] + s, |seps|) && SortedBySep(seps, [i] + s)
  {
    forall x | x in multiset(s) && x < |seps| ensures seps[i] <= seps[x] {
      var p :| 0 <= p < |s| && s[p] == x;
      if p > 0 { assert seps[s[0]] <= seps[s[p]]; }
    }
    ConsBySep(seps, i, s);
  }

  lemma InsertBySepBehind(seps: seq<real>, i: nat, s: seq<nat>, rest: seq<nat>)
    requires i < |seps| && Indices(s, |seps|) && SortedBySep(seps, s)
    requires s != [] && seps[s[0]] < seps[i]
    requires Indices(rest, |seps|) && SortedBySep(seps, rest)
    requires multiset(rest) == multiset(s[1..]) + multiset{i}
    ensures multiset([s[0]] + rest) == multiset(s) + multiset{i}
    ensures Indices([s[0]] + rest, |seps|) && SortedBySep(seps, [s[0]] + rest)
  {
    forall x | x in multiset(rest) && x < |seps| ensures seps[s[0]] <= seps[x] {
      if x != i {
        assert x in multiset(s[1..]);
        var p :| 0 <= p < |s[1..]| && s[1..][p] == x;
        assert s[p + 1] == x;
      }
    }
    ConsBySep(seps, s[0], rest);
    assert s == [s[0]] + s[1..];
  }

  /** A ranking of the positions `0 .. n - 1`, built by insertion. */
  function ArgSortPrefix(seps: seq<real>, n: nat): (r: seq<nat>)
    requires n <= |seps|
    ensures multiset(r) == multiset(Positions(n))
    ensures Indices(r, |seps|) && SortedBySep(seps, r)
  {
    if n == 0 then []
    else
      assert Positions(n) == Positions(n - 1) + [n - 1];
      InsertBySep(seps, n - 1, ArgSortPrefix(seps, n - 1))
  }

  /** One argsort of `seps`, built by insertion. It shows that a ranking
      rule meeting `IsRanker` exists; the report is stated for every such rule. */
  function ArgSort(seps: seq<real>): (order: seq<nat>)
    ensures IsArgsort(seps, order)
  {
    var order := ArgSortPrefix(seps, |seps|);
    PermutationFacts(order, |seps|);
    order
  }

  /** `numpy.argsort` as the report uses it: a rule that ranks every list of
      separations by some argsort. Which order it gives equal separations is
      left open. */
  ghost predicate IsRanker(rank: seq<real> -> seq<nat>)
  {
    forall seps :: IsArgsort(seps, rank(seps))
  }

  /** Insertion ranking is such a rule. */
  lemma ArgSortIsRanker()
    ensures IsRanker(ArgSort)
  {
  }

  predicate Ascending(s: seq<real>)
  {
    forall j, k :: 0 <= j < k < |s| ==> s[j] <= s[k]
  }

  function InsertReal(x: real, s: seq<real>): (r: seq<real>)
    requires Ascending(s)
    ensures Ascending(r) && multiset(r) == multiset(s) + multiset{x}
    decreases |s|
  {
    if s == [] then [x]
    else if x <= s[0] then
      InsertRealFront(x, s);
      [x] + s
    else
      var rest := InsertReal(x, s[1..]);
      InsertRealBehind(x, s, rest);
      [s[0]] + rest
  }

  lemma ConsAscending(h: real, rest: seq<real>)
    requires Ascending(rest) && forall y :: y in multiset(rest) ==> h <= y
    ensures Ascending([h] + rest)
  {
    var r := [h] + rest;
    forall j, k | 0 <= j < k < |r| ensures r[j] <= r[k] {
      assert r[k] == rest[k - 1] && rest[k - 1] in multiset(rest);
      if j > 0 { assert r[j] == rest[j - 1]; }
    }
  }

  lemma InsertRealFront(x: real, s: seq<real>)
    requires Ascending(s) && s != [] && x <= s[0]
    ensures Ascending([x] + s)
  {
    forall y | y in multiset(s) ensures x <= y {
      AscendingHeadIsLeast(s, y);
    }
    ConsAscending(x, s);
  }

  lemma InsertRealBehind(x: real, s: seq<real>, rest: seq<real>)
    requires Ascending(s) && s != [] && s[0] < x
    requires Ascending(rest) && multiset(rest) == multiset(s[1..]) + multiset{x}
    ensures Ascending([s[0]] + rest) && multiset([s[0]] + rest) == multiset(s) + multiset{x}
  {
    forall y | y in multiset(rest) ensures s[0] <= y {
      if y != x {
        assert y in multiset(s[1..]);
        var p :| 0 <= p < |s[1..]| && s[1..][p] == y;
        assert s[p + 1] == y;
      }
    }
    ConsAscending(s[0], rest);
    assert s == [s[0]] + s[1..];
  }

  /** Python's `sorted(all_seps)`: the separations in ascending order. */
  function SortReals(s: seq<real>): (r: seq<real>)
    ensures Ascending(r) && multiset(r) == multiset(s)
    decreases |s|
  {
    if s == [] then []
    else
      assert s == [s[0]] + s[1..];
      InsertReal(s[0], SortReals(s[1..]))
  }

  lemma AscendingHeadIsLeast(a: seq<real>, x: real)
    requires Ascending(a) && x in multiset(a)
    ensures a[0] <= x
  {
    var p :| 0 <= p < |a| && a[p] == x;
    if p > 0 { assert a[0] <= a[p]; }
  }

  lemma AscendingTail(a: seq<real>)
    requires Ascending(a) && a != []
    ensures Ascending(a[1..])
  {
  }

  lemma TailMultiset<T>(a: seq<T>)
    requires a != []
    ensures multiset(a[1..]) == multiset(a) - multiset{a[0]}
  {
    assert a == [a[0]] + a[1..];
  }

  /** Two ascending arrangements of the same values are the same sequence. */
  lemma {:induction false} AscendingUnique(a: seq<real>, b: seq<real>)
    requires Ascending(a) && Ascending(b) && multiset(a) == multiset(b)
    ensures a == b
    decreases |a|
  {
    assert |a| == |multiset(a)| == |multiset(b)| == |b|;
    if a != [] {
      assert b[0] in multiset(b) && a[0] in multiset(a);
      AscendingHeadIsLeast(a, b[0]);
      AscendingHeadIsLeast(b, a[0]);
      TailMultiset(a);
      TailMultiset(b);
      AscendingTail(a);
      AscendingTail(b);
      AscendingUnique(a[1..], b[1..]);
      assert a[0] == b[0];
    }
  }

  /** The separations read along an index sequence (`all_seps[order]`). */
  function Gather(seps: seq<real>, order: seq<nat>): (g: seq<real>)
    requires Indices(order, |seps|)
    ensures |g| == |order|
  {
    seq(|order|, k requires 0 <= k < |order| => seps[order[k]])
  }

  lemma GatherRemoveAt(seps: seq<real>, b: seq<nat>, j: nat, rest: seq<nat>)
    requires Indices(b, |seps|) && j < |b| && rest == b[..j] + b[j + 1..]
    ensures Indices(rest, |seps|)
    ensures multiset(Gather(seps, b)) == multiset(Gather(seps, rest)) + multiset{seps[b[j]]}
  {
    var g, g' := Gather(seps, b), Gather(seps, rest);
    assert g' == g[..j] + g[j + 1..];
    assert g == g[..j] + [g[j]] + g[j + 1..];
  }

  lemma GatherTail(seps: seq<real>, a: seq<nat>)
    requires Indices(a, |seps|) && a != []
    ensures Indices(a[1..], |seps|)
    ensures multiset(Gather(seps, a)) == multiset(Gather(seps, a[1..])) + multiset{seps[a[0]]}
  {
    var g := Gather(seps, a);
    assert g == [g[0]] + Gather(seps, a[1..]);
  }

  lemma RemoveAtMultiset<T>(b: seq<T>, j: nat)
    requires j < |b|
    ensures multiset(b[..j] + b[j + 1..]) == multiset(b) - multiset{b[j]}
  {
    assert b == b[..j] + [b[j]] + b[j + 1..];
  }

  /** Reading the separations along two arrangements of the same indices
      gives the same values, in some order. */
  lemma {:induction false} GatherMultiset(seps: seq<real>, a: seq<nat>, b: seq<nat>)
    requires Indices(a, |seps|) && Indices(b, |seps|)
    requires multiset(a) == multiset(b)
    ensures multiset(Gather(seps, a)) == multiset(Gather(seps, b))
    decreases |a|
  {
    assert |a| == |multiset(a)| == |multiset(b)| == |b|;
    if a != [] {
      var x := a[0];
      assert x in multiset(b);
      var j :| 0 <= j < |b| && b[j] == x;
      var rest := b[..j] + b[j + 1..];
      RemoveAtMultiset(b, j);
      TailMultiset(a);
      GatherRemoveAt(seps, b, j, rest);
      GatherTail(seps, a);
      GatherMultiset(seps, a[1..], rest);
    }
  }

  /** Whatever argsort is used, `sorted(all_seps)[k]` is the separation of the
      beam at rank `k`: the printed separations belong to the printed beams. */
  lemma ArgsortAgreesWithSorted(seps: seq<real>, order: seq<nat>)
    requires IsArgsort(seps, order)
    ensures |SortReals(seps)| == |order|
    ensures forall k :: 0 <= k < |order| ==> SortReals(seps)[k] == seps[order[k]]
  {
    var n := |seps|;
    PermutationFacts(order, n);
    GatherMultiset(seps, order, Positions(n));
    assert Gather(seps, Positions(n)) == seps;
    assert Ascending(Gather(seps, order));
    AscendingUnique(SortReals(seps), Gather(seps, order));
  }

  /** The first-epoch lines: ranks 1 to `min(11, n) - 1` of the argsort, each
      printed with `sorted(all_seps)[rank]`. */
  function FirstEpoch(seps: seq<real>, order: seq<nat>): (r: seq<Neighbour>)
    requires IsArgsort(seps, order)
    ensures |r| == if |seps| <= 1 then 0 else Min(11, |seps|) - 1
    ensures forall k :: 0 <= k < |r| ==> r[k].beam == order[k + 1] && r[k].sep == seps[r[k].beam]
  {
    ArgsortAgreesWithSorted(seps, order);
    var m := if |seps| <= 1 then 0 else Min(11, |seps|) - 1;
    var sorted := SortReals(seps);
    seq(m, k requires 0 <= k < m => Neighbour(order[k + 1], sorted[k + 1]))
  }

  /** The first epoch reports at most ten beams, never the beam at rank 0,
      no beam twice, in ascending separation, and they are the nearest: every
      beam left out other than rank 0 is at least as far as every beam
      reported. */
  lemma FirstEpochNearest(seps: seq<real>, order: seq<nat>)
    requires IsArgsort(seps, order)
    ensures var r := FirstEpoch(seps, order);
      |r| <= 10 &&
      (forall k :: 0 <= k < |r| ==> r[k].beam < |seps| && r[k].beam != order[0]) &&
      (forall j, k :: 0 <= j < k < |r| ==> r[j].beam != r[k].beam && r[j].sep <= r[k].sep) &&
      (forall k, i :: 0 <= k < |r| && 0 <= i < |seps| && i != order[0] && seps[i] < r[k].sep ==>
         exists m :: 0 <= m < |r| && r[m].beam == i)
  {
    var r := FirstEpoch(seps, order);
    PermutationFacts(order, |seps|);
    forall k, i | 0 <= k < |r| && 0 <= i < |seps| && i != order[0] && seps[i] < r[k].sep
      ensures exists m :: 0 <= m < |r| && r[m].beam == i
    {
      var p := RankOf(order, |seps|, i);
      assert 0 < p <= k + 1;
      assert r[p - 1].beam == i;
    }
  }

  /** Rank 0 is dropped whatever beam holds it: a beam strictly closer to the
      reference than every other beam (the reference beam itself, at
      separation 0, when no other beam shares its position) is never reported. */
  lemma ClosestBeamNotReported(seps: seq<real>, order: seq<nat>, j: nat)
    requires IsArgsort(seps, order) && j < |seps|
    requires forall i :: 0 <= i < |seps| && i != j ==> seps[j] < seps[i]
    ensures forall k :: 0 <= k < |FirstEpoch(seps, order)| ==> FirstEpoch(seps, order)[k].beam != j
  {
    PermutationFacts(order, |seps|);
    assert j in order;
    var p :| 0 <= p < |order| && order[p] == j;
    FirstEpochNearest(seps, order);
  }

  /** The code never checks that rank 0 is the reference beam. Whenever
      the two nearest beams are tied (the reference beam, at separation 0, and
      a beam at the same position on the sky, say), swapping them gives
      another valid argsort; the first line then names the other beam of the
      two, and every other line is unchanged. Which of the two is dropped is
      up to the argsort. */
  lemma TiedRankZeroIsUnchecked(seps: seq<real>, order: seq<nat>)
    requires IsArgsort(seps, order) && |seps| >= 2 && seps[order[0]] == seps[order[1]]
    ensures IsArgsort(seps, [order[1], order[0]] + order[2..]) && order[0] != order[1]
    ensures var r, r' := FirstEpoch(seps, order), FirstEpoch(seps, [order[1], order[0]] + order[2..]);
      |r'| == |r| >= 1 && r[0].beam == order[1] && r'[0].beam == order[0] &&
      forall k :: 1 <= k < |r| ==> r'[k] == r[k]
  {
    SwapTiedIsArgsort(seps, order);
    PermutationFacts(order, |seps|);
  }

  /** Exchanging the two leading entries of an argsort whose leading
      separations are equal gives an argsort. */
  lemma SwapTiedIsArgsort(seps: seq<real>, order: seq<nat>)
    requires IsArgsort(seps, order) && |seps| >= 2 && seps[order[0]] == seps[order[1]]
    ensures IsArgsort(seps, [order[1], order[0]] + order[2..])
  {
    SwapFrontPermutation(order, |seps|);
    SwapFrontSorted(seps, order);
  }

  lemma SwapFrontPermutation(order: seq<nat>, n: nat)
    requires |order| >= 2 && IsPermutation(order, n)
    ensures IsPermutation([order[1], order[0]] + order[2..], n)
  {
    assert order == [order[0], order[1]] + order[2..];
  }

  lemma SwapFrontSorted(seps: seq<real>, order: seq<nat>)
    requires |order| >= 2 && Indices(order, |seps|) && SortedBySep(seps, order)
    requires seps[order[0]] == seps[order[1]]
    ensures Indices([order[1], order[0]] + order[2..], |seps|)
    ensures SortedBySep(seps, [order[1], order[0]] + order[2..])
  {
    var w := [order[1], order[0]] + order[2..];
    assert forall k :: 2 <= k < |w| ==> w[k] == order[k];
    forall j, k | 0 <= j < k < |w| ensures seps[w[j]] <= seps[w[k]] {
      if k >= 2 {
        assert seps[order[0]] <= seps[order[k]] && seps[order[1]] <= seps[order[k]];
      }
    }
  }

  /** The second-epoch lines: ranks 0 to `min(11, n1) - 1` of the second
      argsort, where `n1` is the length of the FIRST catalogue, cut short by
      the second catalogue's own length, each printed with
      `sorted(all_seps2)[rank]`. */
  function SecondEpoch(seps2: seq<real>, order2: seq<nat>, n1: nat): (r: seq<Neighbour>)
    requires IsArgsort(seps2, order2)
    ensures |r| == Min(Min(11, n1), |seps2|)
    ensures forall k :: 0 <= k < |r| ==> r[k].beam == order2[k] && r[k].sep == seps2[r[k].beam]
  {
    ArgsortAgreesWithSorted(seps2, order2);
    var m := Min(Min(11, n1), |seps2|);
    var sorted := SortReals(seps2);
    seq(m, k requires 0 <= k < m => Neighbour(order2[k], sorted[k]))
  }

  /** The second epoch reports up to eleven beams (one more than the first
      epoch can), starting with the closest, no beam twice, and they are the
      nearest of the second catalogue. */
  lemma SecondEpochNearest(seps2: seq<real>, order2: seq<nat>, n1: nat)
    requires IsArgsort(seps2, order2)
    ensures var r := SecondEpoch(seps2, order2, n1);
      |r| <= 11 &&
      (|r| > 0 ==> r[0].beam == order2[0] && forall i :: 0 <= i < |seps2| ==> r[0].sep <= seps2[i]) &&
      (forall j, k :: 0 <= j < k < |r| ==> r[j].beam != r[k].beam && r[j].sep <= r[k].sep) &&
      (forall k, i :: 0 <= k < |r| && 0 <= i < |seps2| && seps2[i] < r[k].sep ==>
         exists m :: 0 <= m < |r| && r[m].beam == i)
  {
    var r := SecondEpoch(seps2, order2, n1);
    PermutationFacts(order2, |seps2|);
    forall i | 0 <= i < |seps2| && |r| > 0 ensures r[0].sep <= seps2[i] {
      var p := RankOf(order2, |seps2|, i);
      if p > 0 { assert seps2[order2[0]] <= seps2[order2[p]]; }
    }
    forall k, i | 0 <= k < |r| && 0 <= i < |seps2| && seps2[i] < r[k].sep
      ensures exists m :: 0 <= m < |r| && r[m].beam == i
    {
      var p := RankOf(order2, |seps2|, i);
      assert p <= k;
      assert r[p].beam == i;
    }
  }

  /** The second-epoch part of `find_neighbours`: load the second catalogue
      and rank it against the reference, reporting at most `min(11, n1)` beams. */
  function SecondLines(ref: Coord, meta2: Meta, n1: nat, sep: (Coord, Coord) -> real, rank: seq<real> -> seq<nat>)
    : (r: Loaded<seq<Neighbour>>)
    requires IsRanker(rank)
    ensures r.Err? <==> CatalogueOf(meta2).Err?
    ensures r.Err? ==> r.error == CatalogueOf(meta2).error
    ensures r.Ok? ==>
      var cat2 := CatalogueOf(meta2).value;
      |r.value| == Min(Min(11, n1), |cat2|) &&
      forall k :: 0 <= k < |r.value| ==> r.value[k].beam < |cat2| && r.value[k].sep == sep(ref, cat2[r.value[k].beam])
  {
    match CatalogueOf(meta2)
    case Err(e) => Err(e)
    case Ok(cat2) =>
      var seps2 := Separations(ref, cat2, sep);
      var order2 := rank(seps2);
      Ok(SecondEpoch(seps2, order2, n1))
  }

  /** The first-epoch part of `find_neighbours`: rank the catalogue against
      the reference and report ranks 1 to `min(11, n) - 1`. */
  function FirstLines(ref: Coord, cat: seq<Coord>, sep: (Coord, Coord) -> real, rank: seq<real> -> seq<nat>)
    : (r: seq<Neighbour>)
    requires IsRanker(rank)
    ensures |r| == if |cat| <= 1 then 0 else Min(11, |cat|) - 1
    ensures forall k :: 0 <= k < |r| ==> r[k].beam < |cat| && r[k].sep == sep(ref, cat[r[k].beam])
  {
    var seps := Separations(ref, cat, sep);
    FirstEpoch(seps, rank(seps))
  }

  /** `find_neighbours`: look up the reference beam, load the catalogue, rank
      it and report; then, when the second metadata file exists, load and rank
      that catalogue against the same reference, bounded by the length of the
      first catalogue. */
  function FindNeighbours(meta: Meta, refKey: string, meta2: Option<Meta>, sep: (Coord, Coord) -> real,
                          rank: seq<real> -> seq<nat>)
    : (r: Result<NeighbourReport, LoadError>)
    requires IsRanker(rank)
    ensures ReferenceBeamCoords(meta, refKey).Err? ==> r == Err(ReferenceBeamCoords(meta, refKey).error)
    ensures ReferenceBeamCoords(meta, refKey).Ok? && CatalogueOf(meta).Err? ==> r == Err(CatalogueOf(meta).error)
    ensures r.Ok? <==> ReferenceBeamCoords(meta, refKey).Ok? && CatalogueOf(meta).Ok?
    ensures r.Ok? ==>
      var ref := ReferenceBeamCoords(meta, refKey).value;
      var cat := CatalogueOf(meta).value;
      r.value.first == FirstLines(ref, cat, sep, rank) &&
      r.value.second == if meta2.None? then None else Some(SecondLines(ref, meta2.value, |cat|, sep, rank))
  {
    match ReferenceBeamCoords(meta, refKey)
    case Err(e) => Err(e)
    case Ok(ref) =>
      match CatalogueOf(meta)
      case Err(e) => Err(e)
      case Ok(cat) =>
        var second := if meta2.None? then None else Some(SecondLines(ref, meta2.value, |cat|, sep, rank));
        Ok(NeighbourReport(FirstLines(ref, cat, sep, rank), second))
  }
}
