/** The chunking utility `Extensions.Partition`: a sequence cut into arrays of a fixed length. */
module Extensions {
  import opened Outcomes

  function Min(a: int, b: int): int { if a <= b then a else b }

  /** The chunks Partition yields, as values: full chunks of length k, then the leftovers, if any. */
  function Chunks<T>(s: seq<T>, k: nat): seq<seq<T>>
    requires k > 0
    decreases |s|
  {
    if |s| == 0 then []
    else if |s| < k then [s]
    else [s[..k]] + Chunks(s[k..], k)
  }

  /** All chunks joined end to end, in order. */
  function Concat<T>(ss: seq<seq<T>>): seq<T>
  {
    if ss == [] then [] else ss[0] + Concat(ss[1..])
  }

  lemma Concat1<T>(ss: seq<seq<T>>, t: seq<T>)
    ensures Concat([t] + ss) == t + Concat(ss)
  {
    assert ([t] + ss)[1..] == ss;
  }

  lemma ConcatAppend<T>(a: seq<seq<T>>, b: seq<seq<T>>)
    ensures Concat(a + b) == Concat(a) + Concat(b)
  {
    if a != [] {
      assert (a + b)[1..] == a[1..] + b;
      ConcatAppend(a[1..], b);
    } else {
      assert a + b == b;
    }
  }

  /** Joining the chunks gives back the input exactly. */
  lemma {:induction false} ChunksConcat<T>(s: seq<T>, k: nat)
    requires k > 0
    ensures Concat(Chunks(s, k)) == s
  {
    if |s| == 0 {
    } else if |s| < k {
      Concat1([], s);
    } else {
      ChunksConcat(s[k..], k);
      Concat1(Chunks(s[k..], k), s[..k]);
      assert s[..k] + s[k..] == s;
    }
  }

  /** There are ceil(|s| / k) chunks; in particular an empty input gives none. */
  lemma {:induction false} ChunksCount<T>(s: seq<T>, k: nat)
    requires k > 0
    ensures |Chunks(s, k)| == (|s| + k - 1) / k
    ensures |Chunks(s, k)| == 0 <==> |s| == 0
  {
    if |s| == 0 {
      DivUnique(k - 1, k, 0, k - 1);
    } else if |s| < k {
      DivUnique(|s| + k - 1, k, 1, |s| - 1);
    } else {
      ChunksCount(s[k..], k);
      DivMod(|s| - 1, k);
      DivUnique(|s| + k - 1, k, (|s| - 1) / k + 1, (|s| - 1) % k);
    }
  }

  /** Chunk j is the slice of the input from j * k up to (j + 1) * k, cut off at the end of the input. */
  lemma {:induction false} ChunkAt<T>(s: seq<T>, k: nat, j: nat)
    requires k > 0 && j < |Chunks(s, k)|
    ensures j * k < |s|
    ensures Chunks(s, k)[j] == s[j * k .. Min((j + 1) * k, |s|)]
  {
    if |s| < k {
    } else if j > 0 {
      ChunkAt(s[k..], k, j - 1);
      MulSucc(j - 1, k);
      MulSucc(j, k);
      assert s[k..][(j - 1) * k .. Min(j * k, |s| - k)] == s[j * k .. Min((j + 1) * k, |s|)];
    }
  }

  /**
   * Every chunk but the last has length exactly k; no chunk is empty; the last is short,
   * with length |s| mod k, exactly when k does not divide |s|.
   */
  lemma ChunkLengths<T>(s: seq<T>, k: nat)
    requires k > 0
    ensures forall j :: 0 <= j < |Chunks(s, k)| ==> 0 < |Chunks(s, k)[j]| <= k
    ensures forall j :: 0 <= j < |Chunks(s, k)| - 1 ==> |Chunks(s, k)[j]| == k
    ensures |s| > 0 ==> |Chunks(s, k)[|Chunks(s, k)| - 1]| == if |s| % k == 0 then k else |s| % k
    ensures |s| % k != 0 <==> |Chunks(s, k)| > 0 && |Chunks(s, k)[|Chunks(s, k)| - 1]| < k
  {
    var c := Chunks(s, k);
    ChunksCount(s, k);
    forall j | 0 <= j < |c|
      ensures 0 < |c[j]| <= k
      ensures j < |c| - 1 ==> |c[j]| == k
    {
      ChunkAt(s, k, j);
      MulSucc(j, k);
      if j < |c| - 1 {
        ChunkAt(s, k, j + 1);
      }
    }
    if |s| > 0 {
      var last := |c| - 1;
      ChunkAt(s, k, last);
      LastChunkLength(|s|, k, last);
    } else {
      DivUnique(0, k, 0, 0);
    }
  }

  /** Arithmetic behind ChunkLengths: the last of ceil(L / k) slices has length L mod k, or k. */
  lemma LastChunkLength(L: nat, k: nat, last: nat)
    requires k > 0 && L > 0 && last + 1 == (L + k - 1) / k
    ensures last * k < L <= (last + 1) * k
    ensures L - last * k == if L % k == 0 then k else L % k
  {
    DivMod(L, k);
    var q, r := L / k, L % k;
    MulSucc(last, k);
    if r == 0 {
      DivUnique(L + k - 1, k, q, k - 1);
      MulSucc(q - 1, k);
    } else {
      MulSucc(q, k);
      DivUnique(L + k - 1, k, q + 1, r - 1);
    }
  }

  lemma MulSucc(j: int, k: int)
    ensures (j + 1) * k == j * k + k && k * (j + 1) == k * j + k && j * k == k * j
  {}

  lemma MulMono(a: int, b: int, k: int)
    requires a <= b && k >= 0
    ensures k * a <= k * b && a * k <= b * k
  {
    assert k * (b - a) == k * b - k * a;
    assert k * (b - a) >= 0;
  }

  lemma DivMod(x: int, k: int)
    requires k > 0
    ensures x == k * (x / k) + x % k && 0 <= x % k < k
  {}

  /** Division is determined by its quotient-remainder decomposition. */
  lemma DivUnique(x: int, k: int, q: int, r: int)
    requires k > 0 && x == k * q + r && 0 <= r < k
    ensures x / k == q && x % k == r
  {
    var q', r' := x / k, x % k;
    DivMod(x, k);
    if q' > q {
      MulMono(q + 1, q', k);
      MulSucc(q, k);
    } else if q' < q {
      MulMono(q' + 1, q, k);
      MulSucc(q', k);
    }
  }

  /**
   * Partition: reads the sequence into a buffer of length partitionSize, hands the buffer out
   * whenever it is full and starts a fresh one, and finally hands out a copy of the leftovers.
   * A null sequence and a size that is not positive are the two argument errors.
   */
  method Partition<T(0)>(sequence: Option<seq<T>>, partitionSize: int) returns (r: Result<seq<array<T>>>)
    ensures sequence.None? ==> r == Failure(ArgumentNullException("sequence"))
    ensures sequence.Some? && partitionSize <= 0 ==> r == Failure(ArgumentException("partitionSize"))
    ensures sequence.Some? && partitionSize > 0 ==>
      r.Success? && |r.value| == |Chunks(sequence.value, partitionSize)| &&
      forall j :: 0 <= j < |r.value| ==> r.value[j][..] == Chunks(sequence.value, partitionSize)[j]
    ensures r.Success? ==> forall j :: 0 <= j < |r.value| ==> fresh(r.value[j])
    ensures r.Success? ==> forall i, j :: 0 <= i < j < |r.value| ==> r.value[i] != r.value[j]
  {
    if sequence.None? {
      return Failure(ArgumentNullException("sequence"));
    }
    if partitionSize <= 0 {
      return Failure(ArgumentException("partitionSize"));
    }
    var s, k := sequence.value, partitionSize;
    var chunks, buffer, n, contents, start := FullChunks(s, k);
    if n > 0 {
      var retbuf := new T[n](j requires 0 <= j < n reads buffer => buffer[j]);
      assert retbuf[..] == buffer[..n];
      ConcatAppend(contents, [retbuf[..]]);
      contents := contents + [retbuf[..]];
      chunks := chunks + [retbuf];
    }
    ChunksOfPieces(contents, s, k);
    r := Success(chunks);
  }

  /**
   * The loop of Partition: the full buffers handed out so far, with the one being filled and
   * its count of items. The contents handed out, then the buffer's first n items, are the input.
   */
  method FullChunks<T(0)>(s: seq<T>, k: nat) returns (chunks: seq<array<T>>, buffer: array<T>, n: nat, ghost contents: seq<seq<T>>, ghost start: nat)
    requires k > 0
    ensures n < k && start + n == |s| && buffer.Length == k && fresh(buffer)
    ensures buffer[..n] == s[start..] && Concat(contents) == s[..start]
    ensures |contents| == |chunks| && forall j :: 0 <= j < |contents| ==> |contents[j]| == k
    ensures forall j :: 0 <= j < |chunks| ==> chunks[j][..] == contents[j]
    ensures forall j :: 0 <= j < |chunks| ==> fresh(chunks[j]) && chunks[j] != buffer
    ensures forall a, b :: 0 <= a < b < |chunks| ==> chunks[a] != chunks[b]
  {
    chunks, contents, start := [], [], 0;
    buffer := new T[k];
    n := 0;
    for i := 0 to |s|
      invariant n < k && start + n == i
      invariant buffer.Length == k && fresh(buffer)
      invariant buffer[..n] == s[start .. i]
      invariant Concat(contents) == s[..start]
      invariant |contents| == |chunks| && forall j :: 0 <= j < |contents| ==> |contents[j]| == k
      invariant forall j :: 0 <= j < |chunks| ==> fresh(chunks[j]) && chunks[j] != buffer && chunks[j][..] == contents[j]
      invariant forall a, b :: 0 <= a < b < |chunks| ==> chunks[a] != chunks[b]
    {
      ghost var filled := buffer[..n];
      buffer[n] := s[i];
      assert buffer[..n + 1] == filled + [s[i]];
      assert s[start .. i + 1] == s[start .. i] + [s[i]];
      n := n + 1;
      if n == k {
        ConcatAppend(contents, [buffer[..]]);
        assert s[..start] + s[start .. i + 1] == s[..i + 1];
        contents := contents + [buffer[..]];
        chunks := chunks + [buffer];
        start := i + 1;
        buffer := new T[k];
        n := 0;
      }
    }
  }

  /**
   * Pieces of length k, the last possibly shorter but not empty, that join to s are the chunks of s:
   * the shape of the output of Partition determines it.
   */
  lemma {:induction false} ChunksOfPieces<T>(c: seq<seq<T>>, s: seq<T>, k: nat)
    requires k > 0 && Concat(c) == s
    requires forall j :: 0 <= j < |c| ==> 0 < |c[j]| <= k
    requires forall j :: 0 <= j < |c| - 1 ==> |c[j]| == k
    ensures c == Chunks(s, k)
  {
    if c == [] {
    } else if |c| == 1 {
      assert c[1..] == [];
      assert s == c[0];
      if |s| == k {
        assert s[..k] == s && s[k..] == [];
      }
    } else {
      var rest := c[1..];
      assert Concat(rest) != [] by {
        assert rest[0] == c[1];
        Concat1(rest[1..], rest[0]);
        assert [rest[0]] + rest[1..] == rest;
      }
      assert s == c[0] + Concat(rest);
      assert s[..k] == c[0] && s[k..] == Concat(rest);
      ChunksOfPieces(rest, s[k..], k);
    }
  }
}
