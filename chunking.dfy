/**
 * The chunk splitter of `splitBase64` (src/app/page.tsx): a string is cut into
 * contiguous pieces of `chunkSize` characters, `base64String.slice(i, i + chunkSize)`
 * for i = 0, chunkSize, 2 * chunkSize, ... while i < length.
 */
module Chunking {

  /** The default value of the `chunkSize` parameter. */
  const DefaultChunkSize: nat := 1000

  function Min(a: int, b: int): int {
    if a <= b then a else b
  }

  /** The pieces the loop pushes, as a specification: the first `size` characters, then the rest. */
  function Chunks(s: string, size: nat): seq<string>
    requires size > 0
    decreases |s|
  {
    if |s| == 0 then []
    else if |s| <= size then [s]
    else [s[..size]] + Chunks(s[size..], size)
  }

  /** Ordered concatenation, `chunks.join("")`. */
  function Concat(cs: seq<string>): string {
    if |cs| == 0 then [] else cs[0] + Concat(cs[1..])
  }

  /** One turn of the loop: the chunk starting at i, then the chunks of what follows it. */
  lemma ChunksStep(s: string, size: nat, i: nat)
    requires size > 0 && i < |s|
    ensures Chunks(s[i..], size) == [s[i..Min(i + size, |s|)]] + Chunks(s[Min(i + size, |s|)..], size)
  {
    if i + size < |s| {
      assert s[i..][size..] == s[i + size..];
      assert s[i..][..size] == s[i..i + size];
    } else {
      assert s[i..Min(i + size, |s|)] == s[i..];
      assert s[Min(i + size, |s|)..] == [];
    }
  }

  /** The loop of lines 148-151: `chunks.push(s.slice(i, i + chunkSize))` while i < length. */
  method SplitChunks(s: string, size: nat) returns (chunks: seq<string>)
    requires size > 0
    ensures chunks == Chunks(s, size)
    ensures Concat(chunks) == s
    ensures |chunks| == (|s| + size - 1) / size
    ensures forall k :: 0 <= k < |chunks| ==>
      k * size < |s| && chunks[k] == s[k * size..Min((k + 1) * size, |s|)]
    ensures forall k :: 0 <= k < |chunks| - 1 ==> |chunks[k]| == size
    ensures |chunks| > 0 ==> 1 <= |chunks[|chunks| - 1]| <= size
  {
    chunks := [];
    var i := 0;
    while i < |s|
      invariant 0 <= i
      invariant chunks + Chunks(s[Min(i, |s|)..], size) == Chunks(s, size)
      decreases |s| - i
    {
      var piece := s[i..Min(i + size, |s|)];
      LoopStep(s, size, i, chunks);
      chunks := chunks + [piece];
      i := i + size;
    }
    assert s[Min(i, |s|)..] == [];
    ChunksFacts(s, size);
  }

  lemma LoopStep(s: string, size: nat, i: nat, chunks: seq<string>)
    requires size > 0 && i < |s|
    ensures chunks + Chunks(s[i..], size) ==
      (chunks + [s[i..Min(i + size, |s|)]]) + Chunks(s[Min(i + size, |s|)..], size)
  {
    ChunksStep(s, size, i);
  }

  /** Everything the method promises, stated of the specification function. */
  lemma ChunksFacts(s: string, size: nat)
    requires size > 0
    ensures Concat(Chunks(s, size)) == s
    ensures |Chunks(s, size)| == (|s| + size - 1) / size
    ensures forall k :: 0 <= k < |Chunks(s, size)| ==>
      k * size < |s| && Chunks(s, size)[k] == s[k * size..Min((k + 1) * size, |s|)]
    ensures forall k :: 0 <= k < |Chunks(s, size)| - 1 ==> |Chunks(s, size)[k]| == size
    ensures |Chunks(s, size)| > 0 ==> 1 <= |Chunks(s, size)[|Chunks(s, size)| - 1]| <= size
  {
    ChunksConcat(s, size);
    ChunksCount(s, size);
    ChunkSlices(s, size);
    ChunkLengths(s, size);
  }

  /** Joining the chunks in order gives back the input exactly. */
  lemma {:induction false} ChunksConcat(s: string, size: nat)
    requires size > 0
    ensures Concat(Chunks(s, size)) == s
    decreases |s|
  {
    if |s| == 0 {
    } else if |s| <= size {
      assert Concat([s]) == s + Concat([]);
    } else {
      var cs := Chunks(s, size);
      ChunksConcat(s[size..], size);
      assert cs[1..] == Chunks(s[size..], size);
      assert s == s[..size] + s[size..];
    }
  }

  lemma MulMono(a: int, b: int, d: nat)
    requires a <= b
    ensures a * d <= b * d
  {
  }

  lemma MulSucc(a: int, d: int)
    ensures a * d + d == (a + 1) * d
  {
  }

  /** Euclidean division is determined by quotient and remainder. */
  lemma DivUnique(n: int, d: int, q: int, r: int)
    requires d > 0 && 0 <= r < d && n == q * d + r
    ensures n / d == q && n % d == r
  {
    var q', r' := n / d, n % d;
    if q' > q {
      MulMono(q + 1, q', d);
      assert false;
    } else if q' < q {
      MulMono(q' + 1, q, d);
      assert false;
    }
  }

  lemma DivStep(x: nat, d: nat)
    requires d > 0
    ensures (x + d) / d == x / d + 1
  {
    var q, r := x / d, x % d;
    assert x + d == (q + 1) * d + r;
    DivUnique(x + d, d, q + 1, r);
  }

  /** There are ceil(|s| / size) chunks; in particular the empty string gives none. */
  lemma {:induction false} ChunksCount(s: string, size: nat)
    requires size > 0
    ensures |Chunks(s, size)| == (|s| + size - 1) / size
    decreases |s|
  {
    if |s| == 0 {
    } else if |s| <= size {
      assert size <= |s| + size - 1 < 2 * size;
      assert (|s| + size - 1) / size == 1;
    } else {
      ChunksCount(s[size..], size);
      DivStep(|s| - size + size - 1, size);
    }
  }

  /** The k-th chunk is the slice of s from k * size, at most size characters long. */
  lemma {:induction false} ChunkAt(s: string, size: nat, k: nat)
    requires size > 0
    requires k < |Chunks(s, size)|
    ensures k * size < |s|
    ensures Chunks(s, size)[k] == s[k * size..Min((k + 1) * size, |s|)]
    decreases |s|
  {
    if |s| <= size {
      assert k == 0;
    } else if k > 0 {
      var t := s[size..];
      assert Chunks(s, size)[k] == Chunks(t, size)[k - 1];
      ChunkAt(t, size, k - 1);
      MulSucc(k - 1, size);
      MulSucc(k, size);
      var lo, hi := (k - 1) * size, Min(k * size, |t|);
      assert lo + size == k * size;
      assert hi + size == Min((k + 1) * size, |s|);
      assert t[lo..hi] == s[lo + size..hi + size];
    }
  }

  lemma ChunkSlices(s: string, size: nat)
    requires size > 0
    ensures forall k :: 0 <= k < |Chunks(s, size)| ==>
      k * size < |s| && Chunks(s, size)[k] == s[k * size..Min((k + 1) * size, |s|)]
  {
    forall k | 0 <= k < |Chunks(s, size)|
      ensures k * size < |s| && Chunks(s, size)[k] == s[k * size..Min((k + 1) * size, |s|)]
    {
      ChunkAt(s, size, k);
    }
  }

  /**
   * Every chunk but the last has exactly `size` characters, and the last has
   * between 1 and `size`.
   */
  lemma {:induction false} ChunkLengths(s: string, size: nat)
    requires size > 0
    ensures var cs := Chunks(s, size);
      (forall k :: 0 <= k < |cs| - 1 ==> |cs[k]| == size) &&
      (|cs| > 0 ==> 1 <= |cs[|cs| - 1]| <= size)
    decreases |s|
  {
    if |s| > size {
      ChunkLengths(s[size..], size);
      var cs := Chunks(s, size);
      assert cs[1..] == Chunks(s[size..], size);
    }
  }
}
