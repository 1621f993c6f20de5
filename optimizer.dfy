/** The optimizer's bookkeeping: groups of basis functions (center, maximum order,
    initial width guess, label), the map from labels to the free parameters of the
    simplex search, the write-back of one optimized width per group, and the
    layout of the basis sets built from the groups. */
module Optimizers {
  import opened Errors
  import opened HermiteBasis

  // ---------------------------------------------------------------------------
  // Label search

  /** The index of the first occurrence of x in s, or -1 when x does not occur. */
  function IndexOf<T(==)>(s: seq<T>, x: T): (r: int)
    ensures r == -1 <==> x !in s
    ensures r != -1 ==> 0 <= r < |s| && s[r] == x && x !in s[..r]
    decreases |s|
  {
    if |s| == 0 then -1
    else if s[0] == x then 0
    else
      var k := IndexOf(s[1..], x);
      if k == -1 then -1
      else
        assert s[..k + 1] == [s[0]] + s[1..][..k];
        k + 1
  }

  /** A first occurrence is the first occurrence. */
  lemma IndexOfUnique<T>(s: seq<T>, x: T, i: int)
    requires 0 <= i < |s| && s[i] == x && x !in s[..i]
    ensures IndexOf(s, x) == i
  {
  }

  /** Appending leaves the first occurrence of an element already present in place,
      and puts that of a new element at the end. */
  lemma IndexOfAppend<T>(s: seq<T>, y: T, x: T)
    ensures x in s ==> IndexOf(s + [y], x) == IndexOf(s, x)
    ensures x !in s && x == y ==> IndexOf(s + [y], x) == |s|
  {
    var t := s + [y];
    if x in s {
      var i := IndexOf(s, x);
      assert t[..i] == s[..i];
      IndexOfUnique(t, x, i);
    } else if x == y {
      assert t[..|s|] == s;
      IndexOfUnique(t, x, |s|);
    }
  }

  /** The linear search of find_index: the loop stops at the first match. */
  method FindIndex<T(==)>(s: seq<T>, x: T) returns (index: int)
    ensures index == -1 <==> x !in s
    ensures index != -1 ==> 0 <= index < |s| && s[index] == x && x !in s[..index]
    ensures index == IndexOf(s, x)
  {
    index := -1;
    var i := 0;
    while i < |s|
      invariant 0 <= i <= |s|
      invariant x !in s[..i]
    {
      if s[i] == x {
        index := i;
        break;
      }
      assert s[..i + 1] == s[..i] + [s[i]];
      i := i + 1;
    }
    if index == -1 {
      assert s[..i] == s;
    } else {
      IndexOfUnique(s, x, index);
    }
  }

  // ---------------------------------------------------------------------------
  // Distinct labels and their free-parameter slots

  /** The distinct elements of s, in the order of their first occurrence. */
  function Distinct(s: seq<int>): (d: seq<int>)
    ensures forall x :: x in d <==> x in s
    ensures forall i, j :: 0 <= i < j < |d| ==> d[i] != d[j]
    ensures |d| <= |s|
    decreases |s|
  {
    if |s| == 0 then []
    else
      var p := Distinct(s[..|s| - 1]);
      assert s == s[..|s| - 1] + [s[|s| - 1]];
      if s[|s| - 1] in s[..|s| - 1] then p else p + [s[|s| - 1]]
  }

  /** Distinct, one element at a time. */
  lemma DistinctAppend(s: seq<int>, x: int)
    ensures Distinct(s + [x]) == if x in s then Distinct(s) else Distinct(s) + [x]
  {
    assert (s + [x])[..|s|] == s;
  }

  /** The distinct elements of a prefix are a prefix of the distinct elements. */
  lemma {:induction false} DistinctPrefix(s: seq<int>, i: nat)
    requires i <= |s|
    ensures Distinct(s[..i]) <= Distinct(s)
    decreases |s| - i
  {
    if i < |s| {
      DistinctPrefix(s, i + 1);
      assert s[..i + 1] == s[..i] + [s[i]];
      DistinctAppend(s[..i], s[i]);
    } else {
      assert s[..i] == s;
    }
  }

  /** Distinct lists labels in the order of their first occurrence. */
  lemma {:induction false} DistinctKeepsFirstOccurrenceOrder(s: seq<int>, a: int, b: int)
    requires a in s && b in s
    requires IndexOf(s, a) < IndexOf(s, b)
    ensures IndexOf(Distinct(s), a) < IndexOf(Distinct(s), b)
    decreases |s|
  {
    var p, z := s[..|s| - 1], s[|s| - 1];
    assert s == p + [z];
    EarlierOccursInPrefix(p, z, a, b);
    DistinctAppend(p, z);
    var d := Distinct(p);
    IndexOfAppend(d, z, a);
    IndexOfAppend(d, z, b);
    if b in p {
      DistinctKeepsFirstOccurrenceOrder(p, a, b);
    }
  }

  /** Of two elements of p + [z], the one that occurs first lies in p, and keeps
      its place before the other when both do. */
  lemma EarlierOccursInPrefix(p: seq<int>, z: int, a: int, b: int)
    requires a in p + [z] && b in p + [z]
    requires IndexOf(p + [z], a) < IndexOf(p + [z], b)
    ensures a in p
    ensures b in p ==> IndexOf(p, a) < IndexOf(p, b)
  {
    var s := p + [z];
    var k := IndexOf(s, a);
    assert k < |p|;
    assert p[k] == s[k];
    IndexOfAppend(p, z, a);
    IndexOfAppend(p, z, b);
  }

  /** The free-parameter index of each group: the position of its label among the
      distinct labels. */
  function Slots(labels: seq<int>): (r: seq<int>)
    ensures |r| == |labels|
    ensures forall j :: 0 <= j < |labels| ==> 0 <= r[j] < |Distinct(labels)| && Distinct(labels)[r[j]] == labels[j]
  {
    seq(|labels|, j requires 0 <= j < |labels| => IndexOf(Distinct(labels), labels[j]))
  }

  /** Two groups share a free parameter exactly when they share a label. */
  lemma SlotsShareIffLabelsShare(labels: seq<int>, i: nat, j: nat)
    requires i < |labels| && j < |labels|
    ensures Slots(labels)[i] == Slots(labels)[j] <==> labels[i] == labels[j]
  {
  }

  /** Free parameters are handed out in the order in which labels first occur. */
  lemma SlotsInFirstOccurrenceOrder(labels: seq<int>, i: nat, j: nat)
    requires i < |labels| && j < |labels|
    requires IndexOf(labels, labels[i]) < IndexOf(labels, labels[j])
    ensures Slots(labels)[i] < Slots(labels)[j]
  {
    DistinctKeepsFirstOccurrenceOrder(labels, labels[i], labels[j]);
  }

  /** The starting point of the search: for each distinct label, the guess of the
      group where that label first occurs. */
  function StartPoint(labels: seq<int>, guess: seq<real>): (x: seq<real>)
    requires |guess| == |labels|
    ensures |x| == |Distinct(labels)|
  {
    seq(|Distinct(labels)|, k requires 0 <= k < |Distinct(labels)| => guess[IndexOf(labels, Distinct(labels)[k])])
  }

  /** The starting value of each group's free parameter is the guess given with
      the first occurrence of its label. */
  lemma StartPointAtSlot(labels: seq<int>, guess: seq<real>, j: nat)
    requires |guess| == |labels| && j < |labels|
    ensures StartPoint(labels, guess)[Slots(labels)[j]] == guess[IndexOf(labels, labels[j])]
  {
  }

  /** The values xs[slots[j]], one per group. */
  function Gather(xs: seq<real>, slots: seq<int>): (r: seq<real>)
    requires forall j :: 0 <= j < |slots| ==> 0 <= slots[j] < |xs|
  {
    seq(|slots|, j requires 0 <= j < |slots| => xs[slots[j]])
  }

  /** Groups that share a label receive the same width from any parameter vector. */
  lemma SharedLabelsShareWidth(labels: seq<int>, xs: seq<real>, i: nat, j: nat)
    requires |xs| == |Distinct(labels)|
    requires i < |labels| && j < |labels| && labels[i] == labels[j]
    ensures Gather(xs, Slots(labels))[i] == Gather(xs, Slots(labels))[j]
  {
  }

  /** The assignment while the labels in `skip` have been handed indices: the
      index of the group's label in `skip`, or -1 while it has none. */
  ghost function PartialSlots(labels: seq<int>, skip: seq<int>): (r: seq<int>)
  {
    seq(|labels|, j requires 0 <= j < |labels| => if labels[j] in skip then IndexOf(skip, labels[j]) else -1)
  }

  /** Handing the next index to a new label changes exactly that label's groups. */
  lemma PartialSlotsStep(labels: seq<int>, skip: seq<int>, l: int, before: seq<int>, after: seq<int>)
    requires l !in skip && before == PartialSlots(labels, skip) && |after| == |labels|
    requires forall j :: 0 <= j < |labels| ==> after[j] == if labels[j] == l then |skip| else before[j]
    ensures after == PartialSlots(labels, skip + [l])
  {
    forall j | 0 <= j < |labels|
      ensures after[j] == PartialSlots(labels, skip + [l])[j]
    {
      IndexOfAppend(skip, l, labels[j]);
    }
  }

  /** The entry of the starting point for the label first met at group i. */
  lemma StartPointAtFirst(labels: seq<int>, guess: seq<real>, i: nat, k: nat)
    requires |guess| == |labels| && i < |labels| && labels[i] !in labels[..i]
    requires k < |Distinct(labels)| && Distinct(labels)[k] == labels[i]
    ensures StartPoint(labels, guess)[k] == guess[i]
  {
    IndexOfUnique(labels, labels[i], i);
  }

  /** The inner loop of the assignment: every group carrying label l gets index idx. */
  method MarkGroups(assignment: array<int>, labels: seq<int>, l: int, idx: int)
    requires assignment.Length == |labels|
    modifies assignment
    ensures forall j :: 0 <= j < |labels| ==> assignment[j] == if labels[j] == l then idx else old(assignment[j])
  {
    var j := 0;
    while j < |labels|
      invariant 0 <= j <= |labels|
      invariant forall j' :: 0 <= j' < j ==> assignment[j'] == if labels[j'] == l then idx else old(assignment[j'])
      invariant forall j' :: j <= j' < |labels| ==> assignment[j'] == old(assignment[j'])
    {
      if labels[j] == l {
        assignment[j] := idx;
      }
      j := j + 1;
    }
  }

  /** What the label-to-parameter loop has done after visiting groups 0..i-1. */
  ghost predicate Visited(labels: seq<int>, guess: seq<real>, i: nat, skip: seq<int>,
                          xs: seq<real>, idx: int, marks: seq<int>)
    requires |guess| == |labels|
  {
    && i <= |labels|
    && skip == Distinct(labels[..i]) && idx == |skip| && idx <= |xs| == |Distinct(labels)|
    && skip <= Distinct(labels)
    && xs[..idx] == StartPoint(labels, guess)[..idx]
    && marks == PartialSlots(labels, skip)
  }

  /** How the distinct labels of a prefix grow by one group. */
  lemma DistinctStep(labels: seq<int>, i: nat, skip: seq<int>)
    requires i < |labels| && skip == Distinct(labels[..i])
    ensures labels[i] in skip ==> Distinct(labels[..i + 1]) == skip
    ensures labels[i] !in skip ==>
      && Distinct(labels[..i + 1]) == skip + [labels[i]]
      && labels[i] !in labels[..i]
      && skip + [labels[i]] <= Distinct(labels)
  {
    DistinctOfNext(labels, i);
    DistinctPrefix(labels, i + 1);
  }

  /** Distinct of the prefix one group longer. */
  lemma DistinctOfNext(labels: seq<int>, i: nat)
    requires i < |labels|
    ensures Distinct(labels[..i + 1])
         == if labels[i] in labels[..i] then Distinct(labels[..i]) else Distinct(labels[..i]) + [labels[i]]
  {
    assert labels[..i + 1] == labels[..i] + [labels[i]];
    DistinctAppend(labels[..i], labels[i]);
  }

  /** Writing the next entry of x extends the prefix that agrees with the start point. */
  lemma PrefixExtend(before: seq<real>, after: seq<real>, target: seq<real>, idx: nat, v: real)
    requires idx < |before| == |after| == |target|
    requires before[..idx] == target[..idx] && target[idx] == v
    requires forall k :: 0 <= k < |after| && k != idx ==> after[k] == before[k]
    requires after[idx] == v
    ensures after[..idx + 1] == target[..idx + 1]
  {
    assert forall k :: 0 <= k < idx ==> before[k] == target[k] by {
      forall k | 0 <= k < idx ensures before[k] == target[k] {
        assert before[..idx][k] == before[k];
      }
    }
  }

  /** One iteration of the label-to-parameter loop: a label not yet in `skip`
      receives the next index, its guess becomes that entry of x, and every group
      carrying it is assigned that index. */
  method VisitGroup(labels: seq<int>, guess: seq<real>, i: nat, skip: seq<int>,
                    x: array<real>, assignment: array<int>, idx: int)
    returns (skip': seq<int>, idx': int)
    requires |guess| == |labels| && i < |labels| && assignment.Length == |labels|
    requires Visited(labels, guess, i, skip, x[..], idx, assignment[..])
    modifies x, assignment
    ensures Visited(labels, guess, i + 1, skip', x[..], idx', assignment[..])
  {
    var l := labels[i];
    DistinctStep(labels, i, skip);
    var found := FindIndex(skip, l);
    skip', idx' := skip, idx;
    if found == -1 {
      StartPointAtFirst(labels, guess, i, idx);
      ghost var xBefore := x[..];
      ghost var before := assignment[..];
      x[idx] := guess[i];
      PrefixExtend(xBefore, x[..], StartPoint(labels, guess), idx, guess[i]);
      MarkGroups(assignment, labels, l, idx);
      PartialSlotsStep(labels, skip, l, before, assignment[..]);
      skip', idx' := skip + [l], idx + 1;
    }
  }

  /** The label-to-parameter loop of optimize: the starting vector x (one entry per
      distinct label) and the group-to-parameter assignment, filled in one pass over
      the groups with the list `skip` of labels already handed an index. */
  method AssignParameters(labels: seq<int>, guess: seq<real>, nLabels: nat)
    returns (x: array<real>, assignment: array<int>, idx: int)
    requires |guess| == |labels| && nLabels == |Distinct(labels)|
    ensures idx == nLabels && x.Length == nLabels
    ensures x[..] == StartPoint(labels, guess)
    ensures assignment[..] == Slots(labels)
  {
    x := new real[nLabels];
    assignment := new int[|labels|](_ => -1);
    idx := 0;
    var skip: seq<int> := [];
    var i := 0;
    assert assignment[..] == PartialSlots(labels, skip);
    while i < |labels|
      invariant 0 <= i <= |labels|
      invariant x.Length == nLabels && assignment.Length == |labels|
      invariant Visited(labels, guess, i, skip, x[..], idx, assignment[..])
    {
      skip, idx := VisitGroup(labels, guess, i, skip, x, assignment, idx);
      i := i + 1;
    }
    assert labels[..i] == labels;
    assert x[..] == x[..idx];
    assert assignment[..] == Slots(labels);
  }

  // ---------------------------------------------------------------------------
  // Basis-set layout

  /** The number of functions of a group with maximum order m: orders 0..m. */
  function GroupSize(m: int): nat
  {
    if m < 0 then 0 else m + 1
  }

  /** The number of functions of all groups together. */
  function TotalSize(orders: seq<int>): nat
    decreases |orders|
  {
    if |orders| == 0 then 0 else TotalSize(orders[..|orders| - 1]) + GroupSize(orders[|orders| - 1])
  }

  /** The functions of one group: orders 0 up to count-1, all with the group's
      width and center. */
  function Group(center: real, alpha: real, count: nat): seq<Hermite>
  {
    seq(count, k requires 0 <= k < count => Hermite(k, alpha, center))
  }

  /** The basis set of all groups, laid out group by group. */
  function Layout(centers: seq<real>, widths: seq<real>, orders: seq<int>): (basis: seq<Hermite>)
    requires |centers| == |widths| == |orders|
    ensures |basis| == TotalSize(orders)
    decreases |orders|
  {
    if |orders| == 0 then []
    else
      var n := |orders| - 1;
      Layout(centers[..n], widths[..n], orders[..n]) + Group(centers[n], widths[n], GroupSize(orders[n]))
  }

  /** The order-k function of group i sits at position TotalSize(orders[..i]) + k and
      carries order k and that group's width and center. */
  lemma {:induction false} LayoutAt(centers: seq<real>, widths: seq<real>, orders: seq<int>, i: nat, k: nat)
    requires |centers| == |widths| == |orders|
    requires i < |orders| && k < GroupSize(orders[i])
    ensures TotalSize(orders[..i]) + k < TotalSize(orders)
    ensures Layout(centers, widths, orders)[TotalSize(orders[..i]) + k] == Hermite(k, widths[i], centers[i])
    decreases |orders|
  {
    var n := |orders| - 1;
    var prefix := Layout(centers[..n], widths[..n], orders[..n]);
    assert orders[..n][..|orders[..n]|] == orders[..n];
    if i == n {
      assert orders[..i] == orders[..n];
    } else {
      assert orders[..n][..i] == orders[..i];
      assert centers[..n][i] == centers[i] && widths[..n][i] == widths[i] && orders[..n][i] == orders[i];
      LayoutAt(centers[..n], widths[..n], orders[..n], i, k);
    }
  }

  /** The nested push_back loops shared by generate_basis_set and the trial set of
      minimization_target. */
  method BuildBasisSet(centers: seq<real>, widths: seq<real>, orders: seq<int>) returns (basis: seq<Hermite>)
    requires |centers| == |widths| == |orders|
    ensures basis == Layout(centers, widths, orders)
  {
    basis := [];
    var i := 0;
    while i < |orders|
      invariant 0 <= i <= |orders|
      invariant basis == Layout(centers[..i], widths[..i], orders[..i])
    {
      ghost var before := basis;
      var order := 0;
      while order <= orders[i]
        invariant 0 <= order <= GroupSize(orders[i])
        invariant basis == before + Group(centers[i], widths[i], order)
      {
        basis := basis + [Hermite(order, widths[i], centers[i])];
        order := order + 1;
      }
      assert centers[..i + 1][..i] == centers[..i] && widths[..i + 1][..i] == widths[..i];
      assert orders[..i + 1][..i] == orders[..i];
      i := i + 1;
    }
    assert centers[..i] == centers && widths[..i] == widths && orders[..i] == orders;
  }

  // ---------------------------------------------------------------------------
  // The optimizer object

  /** Groups that share a label share their guess. */
  predicate GuessConsistent(labels: seq<int>, guess: seq<real>)
    requires |guess| == |labels|
  {
    forall i, j :: 0 <= i < |labels| && 0 <= j < |labels| && labels[i] == labels[j] ==> guess[i] == guess[j]
  }

  /** Appending a group keeps the guesses consistent when a reused label comes with
      the guess of its first occurrence. */
  lemma ConsistentAppend(labels: seq<int>, guess: seq<real>, l: int, g: real)
    requires |guess| == |labels| && GuessConsistent(labels, guess)
    requires l in labels ==> guess[IndexOf(labels, l)] == g
    ensures GuessConsistent(labels + [l], guess + [g])
  {
    var labels', guess' := labels + [l], guess + [g];
    forall j | 0 <= j < |labels| && labels[j] == l
      ensures guess[j] == g
    {
      var k := IndexOf(labels, l);
      assert labels[k] == labels[j];
    }
    assert forall j :: 0 <= j < |labels| ==> labels'[j] == labels[j] && guess'[j] == guess[j];
  }

  /** The four group vectors run in parallel, nLabels counts the distinct labels,
      and a reused label carries the guess of its first occurrence. */
  predicate WellFormedGroups(center: seq<real>, maxOrder: seq<int>, guess: seq<real>, labels: seq<int>, nLabels: int)
  {
    && |center| == |maxOrder| == |guess| == |labels|
    && nLabels == |Distinct(labels)|
    && GuessConsistent(labels, guess)
  }

  /** Appending a group whose reused label keeps its guess keeps the groups well
      formed, with one more distinct label exactly when the label is new. */
  lemma AppendGroup(center: seq<real>, maxOrder: seq<int>, guess: seq<real>, labels: seq<int>, nLabels: int,
                    c: real, m: int, g: real, l: int)
    requires WellFormedGroups(center, maxOrder, guess, labels, nLabels)
    requires l in labels ==> guess[IndexOf(labels, l)] == g
    ensures WellFormedGroups(center + [c], maxOrder + [m], guess + [g], labels + [l],
                             nLabels + (if l in labels then 0 else 1))
  {
    ConsistentAppend(labels, guess, l, g);
    DistinctAppend(labels, l);
  }

  /** Under consistent guesses the starting point gives every group its own guess. */
  lemma StartPointMatchesEveryGuess(labels: seq<int>, guess: seq<real>, j: nat)
    requires |guess| == |labels| && GuessConsistent(labels, guess) && j < |labels|
    ensures StartPoint(labels, guess)[Slots(labels)[j]] == guess[j]
  {
    StartPointAtSlot(labels, guess, j);
  }

  /** The write-back loop of optimize: one width per group, read from the
      minimizer's vector at the group's assigned index. */
  method WriteBack(best: seq<real>, assignment: array<int>) returns (alpha: seq<real>)
    requires forall j :: 0 <= j < assignment.Length ==> 0 <= assignment[j] < |best|
    ensures alpha == Gather(best, assignment[..])
  {
    alpha := [];
    var j := 0;
    while j < assignment.Length
      invariant 0 <= j <= assignment.Length
      invariant alpha == Gather(best, assignment[..j])
    {
      alpha := alpha + [best[assignment[j]]];
      assert assignment[..j + 1] == assignment[..j] + [assignment[j]];
      j := j + 1;
    }
    assert assignment[..j] == assignment[..];
  }

  /** The optimizer: groups of basis functions, each a center, a maximum order, an
      initial width guess and a label; groups with equal labels share one width. */
  class Optimizer {
    var optimized: bool
    var nLabels: int
    var center: seq<real>
    var maxOrder: seq<int>
    var guess: seq<real>
    var labels: seq<int>
    var optimizedAlpha: seq<real>

    /** The four group vectors run in parallel, nLabels counts the distinct labels,
        a reused label carries the guess of its first occurrence, and a stored
        optimization holds at most one width per group. */
    ghost predicate Valid()
      reads this
    {
      && WellFormedGroups(center, maxOrder, guess, labels, nLabels)
      && (optimized ==> |optimizedAlpha| <= |labels|)
    }

    constructor()
      ensures Valid() && !optimized && nLabels == 0
      ensures center == [] && maxOrder == [] && guess == [] && labels == []
    {
      optimized := false;
      nLabels := 0;
      center, maxOrder, guess, labels, optimizedAlpha := [], [], [], [], [];
    }

    /** Registers a group. A label already in use must come with the guess stored at
        its first occurrence, otherwise InvalidError and nothing changes. */
    method Add(c: real, m: int, g: real, l: int) returns (outcome: Outcome)
      requires Valid()
      modifies this
      ensures Valid()
      ensures outcome.Fail? <==> l in old(labels) && old(guess)[IndexOf(old(labels), l)] != g
      ensures outcome.Fail? ==> outcome.error == InvalidError
      ensures outcome.Fail? ==> labels == old(labels) && guess == old(guess) && center == old(center)
                                && maxOrder == old(maxOrder) && nLabels == old(nLabels)
      ensures outcome.Pass? ==> center == old(center) + [c] && maxOrder == old(maxOrder) + [m]
                                && guess == old(guess) + [g] && labels == old(labels) + [l]
      ensures outcome.Pass? ==> nLabels == old(nLabels) + (if l in old(labels) then 0 else 1)
      ensures optimized == old(optimized) && optimizedAlpha == old(optimizedAlpha)
    {
      var idx := FindIndex(labels, l);
      if idx != -1 && guess[idx] != g {
        return Fail(InvalidError);
      }
      var count := nLabels;
      if idx == -1 {
        count := count + 1;
      }
      var center', maxOrder', guess', labels' := center + [c], maxOrder + [m], guess + [g], labels + [l];
      AppendGroup(center, maxOrder, guess, labels, nLabels, c, m, g, l);
      assert WellFormedGroups(center', maxOrder', guess', labels', count);
      center, maxOrder, guess, labels, nLabels := center', maxOrder', guess', labels', count;
      outcome := Pass;
    }

    /** Runs the search over one width per distinct label, starting from the
        guesses, and stores one width per group. The simplex minimizer is the
        parameter `minimize`, given the starting vector, the iteration cap and the
        stopping size. */
    method Optimize(maxIter: nat, stopSize: real, minimize: (seq<real>, nat, real) -> seq<real>)
      requires Valid() && nLabels > 0
      requires |minimize(StartPoint(labels, guess), maxIter, stopSize)| == nLabels
      modifies this
      ensures labels == old(labels) && guess == old(guess) && center == old(center)
      ensures maxOrder == old(maxOrder) && nLabels == old(nLabels)
      ensures Valid() && optimized
      ensures |optimizedAlpha| == |labels|
      ensures optimizedAlpha == Gather(minimize(StartPoint(labels, guess), maxIter, stopSize), Slots(labels))
    {
      var x, assignment, idx := AssignParameters(labels, guess, nLabels);
      var best := minimize(x[..], maxIter, stopSize);
      assert |best| == nLabels;
      var alpha := WriteBack(best, assignment);
      RecordWidths(alpha);
    }

    /** The last assignments of optimize: the widths are stored and the optimizer is
        marked optimized. */
    method RecordWidths(alpha: seq<real>)
      modifies this
      ensures optimizedAlpha == alpha && optimized
      ensures labels == old(labels) && guess == old(guess) && center == old(center)
      ensures maxOrder == old(maxOrder) && nLabels == old(nLabels)
    {
      optimizedAlpha, optimized := alpha, true;
    }

    /** The basis set handed to the solver for a trial vector v in
        minimization_target: the groups' layout, each group taking the entry of v
        at its assigned index. */
    method TrialBasisSet(v: seq<real>, assignment: seq<int>) returns (basis: seq<Hermite>)
      requires Valid() && assignment == Slots(labels) && |v| == nLabels
      ensures basis == Layout(center, Gather(v, Slots(labels)), maxOrder)
      ensures |basis| == TotalSize(maxOrder)
    {
      basis := BuildBasisSet(center, Gather(v, assignment), maxOrder);
    }

    /** The guards of generate_basis_set as written: the loop runs whenever an
        optimization happened and the list holds one maximum order per group. */
    predicate PassesGuardsAsWritten(orders: seq<int>)
      reads this
    {
      optimized && |orders| == |maxOrder|
    }

    /** The final basis set with the optimized widths and a new maximum order per
        group. A stored optimization that no longer covers every group (groups added
        after optimize) is reported as OptimizeError instead of read past its end. */
    method GenerateBasisSet(orders: seq<int>) returns (r: Result<seq<Hermite>>)
      requires Valid()
      ensures !optimized ==> r == Err(OptimizeError)
      ensures optimized && |orders| != |maxOrder| ==> r == Err(InvalidError)
      ensures PassesGuardsAsWritten(orders) && |optimizedAlpha| != |maxOrder| ==> r == Err(OptimizeError)
      ensures PassesGuardsAsWritten(orders) && |optimizedAlpha| == |maxOrder| ==>
                r == Ok(Layout(center, optimizedAlpha, orders))
    {
      if !optimized {
        return Err(OptimizeError);
      }
      if |orders| != |maxOrder| {
        return Err(InvalidError);
      }
      if |optimizedAlpha| != |maxOrder| {
        return Err(OptimizeError);
      }
      var basis := BuildBasisSet(center, optimizedAlpha, orders);
      r := Ok(basis);
    }
  }

  /** A group added after optimize leaves generate_basis_set's guards satisfied
      while optimized_alpha is one entry short of the list it is read along. */
  method StaleWidthsCounterexample() returns (o: Optimizer, orders: seq<int>)
    ensures o.Valid() && o.PassesGuardsAsWritten(orders)
    ensures |o.optimizedAlpha| < |orders|
  {
    o := new Optimizer();
    var first := o.Add(0.0, 0, 1.0, 0);
    assert first.Pass? && o.labels == [0] && o.nLabels == 1;
    var identity := (v: seq<real>, k: nat, t: real) => v;
    assert |identity(StartPoint(o.labels, o.guess), 1, 0.001)| == o.nLabels;
    o.Optimize(1, 0.001, identity);
    assert |o.optimizedAlpha| == 1 && o.labels == [0] && 1 !in o.labels;
    var second := o.Add(1.0, 0, 1.0, 1);
    assert second.Pass? && |o.maxOrder| == 2;
    orders := [0, 0];
  }
}
