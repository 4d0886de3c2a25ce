/**
 * The combination enumerator of SpecializeMethodCodeGen: the recursive flat token stream, re-cut
 * into tuples at every level, is the cartesian power of the candidate list in lexicographic order.
 */
module Combinations {
  import opened Outcomes
  import opened Extensions

  function Pow(b: nat, e: nat): nat
  {
    if e == 0 then 1 else b * Pow(b, e - 1)
  }

  // ----- The stream as the source builds it -----

  /**
   * The flat stream for arity k: for arity 1 each candidate once; otherwise, for each candidate
   * in turn and each sub-tuple of the stream for arity k - 1 cut into chunks of k - 1, the
   * candidate followed by the sub-tuple.
   */
  function Flat<T>(types: seq<T>, k: nat): seq<T>
    requires k >= 1
  {
    if k == 1 then types
    else Prefixed(types, Chunks(Flat(types, k - 1), k - 1))
  }

  /** For each candidate, in order, the candidate followed by each sub-tuple. */
  function Prefixed<T>(types: seq<T>, child: seq<seq<T>>): seq<T>
  {
    if types == [] then [] else PrefixEach(types[0], child) + Prefixed(types[1..], child)
  }

  function PrefixEach<T>(c: T, child: seq<seq<T>>): seq<T>
  {
    if child == [] then [] else [c] + child[0] + PrefixEach(c, child[1..])
  }

  /** The tuples GetTypeCombinations returns: the stream cut into chunks of the arity. */
  function TypeCombinations<T>(types: seq<T>, typeArgCount: nat): Result<seq<seq<T>>>
  {
    if typeArgCount == 0 then Failure(ArgumentException("partitionSize"))
    else Success(Chunks(Flat(types, typeArgCount), typeArgCount))
  }

  // ----- The reference: the cartesian power -----

  /** All k-tuples over types: each candidate in turn, followed by each (k - 1)-tuple. */
  function CartesianPower<T>(types: seq<T>, k: nat): seq<seq<T>>
  {
    if k == 0 then [[]] else Products(types, CartesianPower(types, k - 1))
  }

  function Products<T>(types: seq<T>, tails: seq<seq<T>>): seq<seq<T>>
  {
    if types == [] then [] else Cons(types[0], tails) + Products(types[1..], tails)
  }

  function Cons<T>(c: T, tails: seq<seq<T>>): seq<seq<T>>
  {
    seq(|tails|, j requires 0 <= j < |tails| => [c] + tails[j])
  }

  /** The candidate indices of tuple j of the cartesian power, most significant position first. */
  function Digits(j: nat, m: nat, k: nat): seq<nat>
    requires m > 0
  {
    if k == 0 then []
    else
      PowPositive(m, k - 1);
      [j / Pow(m, k - 1)] + Digits(j % Pow(m, k - 1), m, k - 1)
  }

  /** Lexicographic order on index tuples of equal length. */
  predicate LexLess(a: seq<nat>, b: seq<nat>)
  {
    a != [] && b != [] && (a[0] < b[0] || (a[0] == b[0] && LexLess(a[1..], b[1..])))
  }

  lemma PowPositive(m: nat, k: nat)
    requires m > 0
    ensures Pow(m, k) > 0
  {
    if k > 0 {
      PowPositive(m, k - 1);
      MulMono(1, Pow(m, k - 1), m);
    }
  }

  // ----- The stream is the joined cartesian power -----

  lemma {:induction false} ConcatCons<T>(c: T, tails: seq<seq<T>>)
    ensures Concat(Cons(c, tails)) == PrefixEach(c, tails)
  {
    if tails != [] {
      ConcatCons(c, tails[1..]);
      assert Cons(c, tails) == [[c] + tails[0]] + Cons(c, tails[1..]);
      Concat1(Cons(c, tails[1..]), [c] + tails[0]);
    }
  }

  lemma {:induction false} ConcatProducts<T>(types: seq<T>, tails: seq<seq<T>>)
    ensures Concat(Products(types, tails)) == Prefixed(types, tails)
  {
    if types != [] {
      ConcatProducts(types[1..], tails);
      ConcatAppend(Cons(types[0], tails), Products(types[1..], tails));
      ConcatCons(types[0], tails);
    }
  }

  lemma {:induction false} PrefixedSingletons<T>(types: seq<T>)
    ensures Prefixed(types, [[]]) == types
  {
    if types != [] {
      PrefixedSingletons(types[1..]);
      assert PrefixEach(types[0], [[]]) == [types[0]];
      assert [types[0]] + types[1..] == types;
    }
  }

  lemma {:induction false} ProductsLengths<T>(types: seq<T>, tails: seq<seq<T>>, k: nat)
    requires forall t :: t in tails ==> |t| == k
    ensures |Products(types, tails)| == |types| * |tails|
    ensures forall t :: t in Products(types, tails) ==> |t| == k + 1
  {
    if types != [] {
      ProductsLengths(types[1..], tails, k);
      MulSucc(|types| - 1, |tails|);
    }
  }

  /** There are |types|^k tuples, each of length k; with no candidates and k >= 1 there are none. */
  lemma {:induction false} CartesianPowerShape<T>(types: seq<T>, k: nat)
    ensures |CartesianPower(types, k)| == Pow(|types|, k)
    ensures forall t :: t in CartesianPower(types, k) ==> |t| == k
    ensures |types| == 0 && k >= 1 ==> CartesianPower(types, k) == []
  {
    if k > 0 {
      CartesianPowerShape(types, k - 1);
      ProductsLengths(types, CartesianPower(types, k - 1), k - 1);
    }
  }

  /** The flat stream for arity k is the k-tuples of the cartesian power, joined in order. */
  lemma {:induction false} FlatIsJoinedPower<T>(types: seq<T>, k: nat)
    requires k >= 1
    ensures Flat(types, k) == Concat(CartesianPower(types, k))
  {
    if k == 1 {
      ConcatProducts(types, [[]]);
      PrefixedSingletons(types);
    } else {
      var tails := CartesianPower(types, k - 1);
      FlatIsJoinedPower(types, k - 1);
      PowerPieces(types, k - 1);
      ChunksOfPieces(tails, Flat(types, k - 1), k - 1);
      assert Flat(types, k) == Prefixed(types, tails);
      ConcatProducts(types, tails);
    }
  }

  /** The tuples of a power of arity at least 1 have Partition's chunk shape for that arity. */
  lemma PowerPieces<T>(types: seq<T>, k: nat)
    requires k >= 1
    ensures forall j :: 0 <= j < |CartesianPower(types, k)| ==> 0 < |CartesianPower(types, k)[j]| <= k
    ensures forall j :: 0 <= j < |CartesianPower(types, k)| - 1 ==> |CartesianPower(types, k)[j]| == k
  {
    CartesianPowerShape(types, k);
    forall j | 0 <= j < |CartesianPower(types, k)|
      ensures |CartesianPower(types, k)[j]| == k
    {
      assert CartesianPower(types, k)[j] in CartesianPower(types, k);
    }
  }

  /**
   * GetTypeCombinations is correct: cutting the stream into chunks of the arity gives exactly
   * the cartesian power; arity 0 is the argument error of Partition.
   */
  lemma TypeCombinationsArePower<T>(types: seq<T>, typeArgCount: nat)
    ensures typeArgCount == 0 ==> TypeCombinations(types, typeArgCount) == Failure(ArgumentException("partitionSize"))
    ensures typeArgCount >= 1 ==> TypeCombinations(types, typeArgCount) == Success(CartesianPower(types, typeArgCount))
  {
    if typeArgCount >= 1 {
      FlatIsJoinedPower(types, typeArgCount);
      PowerPieces(types, typeArgCount);
      ChunksOfPieces(CartesianPower(types, typeArgCount), Flat(types, typeArgCount), typeArgCount);
    }
  }

  // ----- Lexicographic order -----

  lemma {:induction false} ProductsAt<T>(types: seq<T>, tails: seq<seq<T>>, j: nat)
    requires |tails| > 0 && j < |Products(types, tails)|
    ensures j / |tails| < |types|
    ensures Products(types, tails)[j] == [types[j / |tails|]] + tails[j % |tails|]
  {
    var b := |tails|;
    if types == [] {
      assert false;
    } else {
      var rest := Products(types[1..], tails);
      assert |Cons(types[0], tails)| == b;
      if j < b {
        DivUnique(j, b, 0, j);
      } else {
        ProductsAt(types[1..], tails, j - b);
        DivShift(j, b);
      }
    }
  }

  lemma DivShift(j: nat, b: nat)
    requires 0 < b <= j
    ensures j / b == (j - b) / b + 1 && j % b == (j - b) % b
  {
    DivMod(j - b, b);
    DivUnique(j, b, (j - b) / b + 1, (j - b) % b);
  }

  /** Position p of tuple j is the candidate whose index is digit p of j written in base |types|. */
  lemma CartesianPowerAt<T>(types: seq<T>, k: nat, j: nat)
    requires |types| > 0 && j < |CartesianPower(types, k)|
    ensures |CartesianPower(types, k)[j]| == k
    ensures |Digits(j, |types|, k)| == k
    ensures forall p :: 0 <= p < k ==> Digits(j, |types|, k)[p] < |types|
    ensures forall p :: 0 <= p < k ==> CartesianPower(types, k)[j][p] == types[Digits(j, |types|, k)[p]]
    decreases k, 1
  {
    CartesianPowerShape(types, k);
    assert CartesianPower(types, k)[j] in CartesianPower(types, k);
    if k > 0 {
      CartesianPowerAtStep(types, k, j);
    }
  }

  lemma {:induction false} CartesianPowerAtStep<T>(types: seq<T>, k: nat, j: nat)
    requires k > 0 && |types| > 0 && j < |CartesianPower(types, k)|
    ensures |Digits(j, |types|, k)| == k
    ensures forall p :: 0 <= p < k ==> Digits(j, |types|, k)[p] < |types|
    ensures forall p :: 0 <= p < k ==>
      |CartesianPower(types, k)[j]| == k && CartesianPower(types, k)[j][p] == types[Digits(j, |types|, k)[p]]
    decreases k, 0
  {
    var m, P := |types|, Pow(|types|, k - 1);
    var tails := CartesianPower(types, k - 1);
    PowerSplit(types, k, j);
    var q, r := j / P, j % P;
    var tuple := CartesianPower(types, k)[j];
    var rest := Digits(r, m, k - 1);
    CartesianPowerAt(types, k - 1, r);
    var d := Digits(j, m, k);
    assert d == [q] + rest;
    forall p | 0 <= p < k
      ensures d[p] < m && |tuple| == k && tuple[p] == types[d[p]]
    {
      if p > 0 {
        assert d[p] == rest[p - 1];
        assert tuple[p] == tails[r][p - 1];
      }
    }
  }

  /** Tuple j of the k-th power is candidate j / m^(k-1) followed by tuple j mod m^(k-1) of the (k-1)-th. */
  lemma PowerSplit<T>(types: seq<T>, k: nat, j: nat)
    requires k > 0 && |types| > 0 && j < |CartesianPower(types, k)|
    ensures Pow(|types|, k - 1) > 0 && |CartesianPower(types, k - 1)| == Pow(|types|, k - 1)
    ensures j / Pow(|types|, k - 1) < |types| && j % Pow(|types|, k - 1) < Pow(|types|, k - 1)
    ensures CartesianPower(types, k)[j]
         == [types[j / Pow(|types|, k - 1)]] + CartesianPower(types, k - 1)[j % Pow(|types|, k - 1)]
  {
    var tails := CartesianPower(types, k - 1);
    CartesianPowerShape(types, k - 1);
    PowPositive(|types|, k - 1);
    ProductsAt(types, tails, j);
    DivMod(j, |tails|);
  }

  lemma DivMonotone(j: nat, j': nat, b: nat)
    requires b > 0 && j <= j'
    ensures j / b <= j' / b
  {
    DivMod(j, b);
    DivMod(j', b);
    if j / b > j' / b {
      MulMono(j' / b + 1, j / b, b);
      MulSucc(j' / b, b);
    }
  }

  /** Earlier tuples have lexicographically smaller candidate indices, first position most significant. */
  lemma {:induction false} DigitsOrdered(j: nat, j': nat, m: nat, k: nat)
    requires m > 0 && j < j' < Pow(m, k)
    ensures LexLess(Digits(j, m, k), Digits(j', m, k))
  {
    if k > 0 {
      var P := Pow(m, k - 1);
      PowPositive(m, k - 1);
      var q, q', r, r' := QuotientOrder(j, j', P);
      var d, d' := Digits(j, m, k), Digits(j', m, k);
      assert d == [q] + Digits(r, m, k - 1) && d' == [q'] + Digits(r', m, k - 1);
      if q == q' {
        DigitsOrdered(r, r', m, k - 1);
        assert d[1..] == Digits(r, m, k - 1) && d'[1..] == Digits(r', m, k - 1);
      }
    }
  }

  /** Quotients by P are monotone, and equal quotients leave the order to the remainders. */
  lemma QuotientOrder(j: nat, j': nat, P: nat) returns (q: nat, q': nat, r: nat, r': nat)
    requires P > 0 && j < j'
    ensures q == j / P && q' == j' / P && r == j % P && r' == j' % P
    ensures q <= q' && r < P && r' < P && (q == q' ==> r < r')
  {
    q, q', r, r' := j / P, j' / P, j % P, j' % P;
    DivMonotone(j, j', P);
    DivMod(j, P);
    DivMod(j', P);
  }

  /**
   * The cartesian power is in lexicographic order of candidate index: tuples j < j' are the
   * candidates at their digits, and the digits of j come lexicographically before those of j'.
   */
  lemma CartesianPowerLexicographic<T>(types: seq<T>, k: nat, j: nat, j': nat)
    requires |types| > 0 && j < j' < |CartesianPower(types, k)|
    ensures |CartesianPower(types, k)[j]| == |CartesianPower(types, k)[j']| == k
    ensures |Digits(j, |types|, k)| == |Digits(j', |types|, k)| == k
    ensures forall p :: 0 <= p < k ==> Digits(j, |types|, k)[p] < |types| && Digits(j', |types|, k)[p] < |types|
    ensures forall p :: 0 <= p < k ==> CartesianPower(types, k)[j][p] == types[Digits(j, |types|, k)[p]]
    ensures forall p :: 0 <= p < k ==> CartesianPower(types, k)[j'][p] == types[Digits(j', |types|, k)[p]]
    ensures LexLess(Digits(j, |types|, k), Digits(j', |types|, k))
  {
    CartesianPowerShape(types, k);
    CartesianPowerAt(types, k, j);
    CartesianPowerAt(types, k, j');
    DigitsOrdered(j, j', |types|, k);
  }

  /** For [A, B] and arity 2 the tuples are (A, A), (A, B), (B, A), (B, B). */
  lemma TwoByTwo<T>(a: T, b: T)
    ensures TypeCombinations([a, b], 2) == Success([[a, a], [a, b], [b, a], [b, b]])
  {
    TypeCombinationsArePower([a, b], 2);
    var empty: seq<T> := [];
    var types := [a, b];
    assert types[1..] == [b] && [b][1..] == [];
    ConsOne(a, empty);
    ConsOne(b, empty);
    assert [a] + empty == [a] && [b] + empty == [b];
    assert Products([b], [empty]) == Cons(b, [empty]) + Products([], [empty]);
    assert Products(types, [empty]) == Cons(a, [empty]) + Products([b], [empty]);
    assert CartesianPower(types, 0) == [empty];
    var one := CartesianPower(types, 1);
    assert one == Products(types, [empty]);
    assert one == [[a], [b]];
    ConsTwo(a, [a], [b]);
    ConsTwo(b, [a], [b]);
    assert Products([b], one) == Cons(b, one) + Products([], one);
    assert Products(types, one) == Cons(a, one) + Products([b], one);
    assert [a] + [a] == [a, a] && [a] + [b] == [a, b] && [b] + [a] == [b, a] && [b] + [b] == [b, b];
    assert Products([b], one) == [[b, a], [b, b]];
    assert CartesianPower(types, 2) == Products(types, one) == [[a, a], [a, b]] + [[b, a], [b, b]];
    assert [[a, a], [a, b]] + [[b, a], [b, b]] == [[a, a], [a, b], [b, a], [b, b]];
  }

  lemma ConsOne<T>(c: T, t: seq<T>)
    ensures Cons(c, [t]) == [[c] + t]
  {
    assert Cons(c, [t])[0] == [c] + t;
  }

  lemma ConsTwo<T>(c: T, t: seq<T>, u: seq<T>)
    ensures Cons(c, [t, u]) == [[c] + t, [c] + u]
  {
    assert Cons(c, [t, u])[0] == [c] + t;
    assert Cons(c, [t, u])[1] == [c] + u;
  }
}
