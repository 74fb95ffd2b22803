/** The batching of CEEB codes in data_collection/ceeb.py: the sorted list
    of codes is cut into consecutive slices of `chunk_length` codes, one
    slice per start index `0, chunk_length, 2 * chunk_length, ...`, before
    each slice is looked up. */
module CeebChunks {

  const ChunkLength := 50

  function Min(a: int, b: int): int
  {
    if a <= b then a else b
  }

  /** `[xs[i : i + size] for i in range(0, len(xs), size)]`, one slice at a
      time. */
  function Chunks<T>(xs: seq<T>, size: nat): (r: seq<seq<T>>)
    requires size >= 1
    ensures xs == [] <==> r == []
    decreases |xs|
  {
    if xs == [] then []
    else if |xs| <= size then [xs]
    else [xs[..size]] + Chunks(xs[size..], size)
  }

  /** `ceeb_codes_split`. */
  function CeebCodesSplit<T>(codes: seq<T>): seq<seq<T>>
  {
    Chunks(codes, ChunkLength)
  }

  function Flatten<T>(xss: seq<seq<T>>): seq<T>
  {
    if xss == [] then [] else xss[0] + Flatten(xss[1..])
  }

  /** Concatenating the chunks gives back the codes, in order. */
  lemma {:induction false} FlattenChunks<T>(xs: seq<T>, size: nat)
    requires size >= 1
    ensures Flatten(Chunks(xs, size)) == xs
    decreases |xs|
  {
    if xs != [] && |xs| > size {
      var r := Chunks(xs, size);
      FlattenChunks(xs[size..], size);
      assert r[1..] == Chunks(xs[size..], size);
      assert xs == xs[..size] + xs[size..];
    }
  }

  /** Every chunk is non-empty and holds at most `size` codes; all but the
      last hold exactly `size`. */
  lemma {:induction false} ChunkSizes<T>(xs: seq<T>, size: nat)
    requires size >= 1
    ensures forall i :: 0 <= i < |Chunks(xs, size)| ==> 1 <= |Chunks(xs, size)[i]| <= size
    ensures forall i :: 0 <= i < |Chunks(xs, size)| - 1 ==> |Chunks(xs, size)[i]| == size
    decreases |xs|
  {
    if xs != [] && |xs| > size {
      ChunkSizes(xs[size..], size);
      var r := Chunks(xs, size);
      assert forall i :: 1 <= i < |r| ==> r[i] == Chunks(xs[size..], size)[i - 1];
    }
  }

  /** The i-th chunk is the slice of the codes that starts at `size * i`:
      the comprehension over the start indices. */
  lemma {:induction false} ChunkAt<T>(xs: seq<T>, size: nat, i: nat)
    requires size >= 1 && i < |Chunks(xs, size)|
    ensures size * i < |xs|
    ensures Chunks(xs, size)[i] == xs[size * i .. Min(size * i + size, |xs|)]
    decreases |xs|
  {
    if i > 0 {
      var rest := xs[size..];
      assert Chunks(xs, size)[i] == Chunks(rest, size)[i - 1];
      ChunkAt(rest, size, i - 1);
      var a := size * (i - 1);
      MulStep(size, i);
      SliceOfDrop(xs, size, a, Min(a + size, |rest|));
    }
  }

  lemma SliceOfDrop<T>(xs: seq<T>, k: nat, a: nat, b: nat)
    requires k <= |xs| && a <= b <= |xs| - k
    ensures xs[k..][a..b] == xs[k + a .. k + b]
  {
  }

  lemma MulStep(size: nat, i: nat)
    requires i > 0
    ensures size + size * (i - 1) == size * i
  {
  }

  /** There are ceil(n / size) chunks. */
  lemma {:induction false} ChunkCount<T>(xs: seq<T>, size: nat)
    requires size >= 1
    ensures |Chunks(xs, size)| == (|xs| + size - 1) / size
    decreases |xs|
  {
    if xs == [] {
      DivSmall(size - 1, size);
    } else if |xs| <= size {
      DivOne(|xs| + size - 1, size);
    } else {
      ChunkCount(xs[size..], size);
      DivShift(|xs| - 1, size);
    }
  }

  lemma DivSmall(a: nat, size: nat)
    requires a < size
    ensures a / size == 0
  {
  }

  lemma DivOne(a: nat, size: nat)
    requires size >= 1 && size <= a < 2 * size
    ensures a / size == 1
  {
    DivSmall(a - size, size);
    DivShift(a - size, size);
  }

  /** Adding `size` to the numerator adds one to the quotient. */
  lemma DivShift(a: nat, size: nat)
    requires size >= 1
    ensures (a + size) / size == a / size + 1
  {
    var q, m := a / size, a % size;
    assert a == q * size + m;
    assert a + size == (q + 1) * size + m;
    DivUnique(a + size, size, q + 1, m);
  }

  lemma DivUnique(a: nat, size: nat, q: nat, m: nat)
    requires size >= 1 && m < size && a == q * size + m
    ensures a / size == q
  {
    var q', m' := a / size, a % size;
    assert a == q' * size + m';
    MulMono(q' + 1, q, size);
    MulMono(q + 1, q', size);
  }

  lemma MulMono(a: nat, b: nat, size: nat)
    ensures a <= b ==> a * size <= b * size
  {
  }
}
