/**
 * Splitting a byte buffer into consecutive fixed-size frames and joining frames
 * back into one buffer: the arithmetic of the Kotlin `encode`/`decode` loops,
 * stated once on sequences.
 */
module Framing {

  /** The complete frames of `s`, each `f` long, in order; a trailing partial frame is dropped. */
  function Chunks<T>(s: seq<T>, f: nat): seq<seq<T>>
    requires f > 0
    decreases |s|
  {
    if |s| < f then [] else [s[..f]] + Chunks(s[f..], f)
  }

  /** The in-order concatenation of `ss`. */
  function Flatten<T>(ss: seq<seq<T>>): seq<T> {
    if ss == [] then [] else ss[0] + Flatten(ss[1..])
  }

  lemma DivMod(n: int, f: int)
    requires f > 0
    ensures n == (n / f) * f + n % f && 0 <= n % f < f
  {
  }

  lemma MulAtLeast(d: int, f: int)
    requires d >= 1 && f > 0
    ensures d * f >= f
  {
    if d > 1 {
      MulAtLeast(d - 1, f);
      assert d * f == (d - 1) * f + f;
    }
  }

  lemma MulSub(q: int, p: int, f: int)
    ensures q * f - p * f == (q - p) * f
  {
  }

  /** Quotient and remainder are unique (Euclidean division, `f > 0`). */
  lemma DivUnique(n: int, f: int, q: int, r: int)
    requires f > 0 && 0 <= r < f && n == q * f + r
    ensures n / f == q
  {
    var q', r' := n / f, n % f;
    DivMod(n, f);
    MulSub(q, q', f);
    var d := q - q';
    assert d * f == r' - r;
    if d > 0 {
      MulAtLeast(d, f);
    } else if d < 0 {
      MulAtLeast(-d, f);
    }
  }

  lemma DivStep(n: nat, f: nat)
    requires 0 < f <= n
    ensures (n - f) / f + 1 == n / f
  {
    var q, r := (n - f) / f, (n - f) % f;
    assert n - f == q * f + r && 0 <= r < f;
    assert n == (q + 1) * f + r;
    DivUnique(n, f, q + 1, r);
  }

  lemma MulStep(k: nat, f: nat)
    ensures (k + 1) * f == k * f + f
  {
  }

  /** There are `|s| / f` complete frames. */
  lemma {:induction false} ChunksCount<T>(s: seq<T>, f: nat)
    requires f > 0
    ensures |Chunks(s, f)| == |s| / f
    decreases |s|
  {
    if |s| >= f {
      ChunksCount(s[f..], f);
      DivStep(|s|, f);
    }
  }

  /** Frame `k` is the input slice `[k * f, (k + 1) * f)`. */
  lemma {:induction false} ChunkAt<T>(s: seq<T>, f: nat, k: nat)
    requires f > 0 && k < |s| / f
    ensures (k + 1) * f <= |s|
    ensures k < |Chunks(s, f)| && Chunks(s, f)[k] == s[k * f..(k + 1) * f]
    decreases k
  {
    ChunksCount(s, f);
    DivStep(|s|, f);
    MulStep(k, f);
    var rest := Chunks(s[f..], f);
    assert Chunks(s, f) == [s[..f]] + rest;
    if k == 0 {
      assert Chunks(s, f)[0] == s[..f];
    } else {
      ChunkAt(s[f..], f, k - 1);
      MulStep(k - 1, f);
      var lo, hi := (k - 1) * f, k * f;
      assert lo + f == k * f && hi + f == (k + 1) * f;
      assert Chunks(s, f)[k] == rest[k - 1] == s[f..][lo..hi];
      assert s[f..][lo..hi] == s[lo + f..hi + f];
    }
  }

  /** Every frame handed on is exactly `f` long. */
  lemma {:induction false} ChunksHaveSize<T>(s: seq<T>, f: nat)
    requires f > 0
    ensures forall c | c in Chunks(s, f) :: |c| == f
    decreases |s|
  {
    if |s| >= f {
      ChunksHaveSize(s[f..], f);
    }
  }

  /** Joining the frames gives back the input up to the last complete frame. */
  lemma {:induction false} FlattenChunks<T>(s: seq<T>, f: nat)
    requires f > 0
    ensures (|s| / f) * f <= |s|
    ensures Flatten(Chunks(s, f)) == s[..(|s| / f) * f]
    decreases |s|
  {
    if |s| < f {
      DivUnique(|s|, f, 0, |s|);
    } else {
      var m, n := (|s| - f) / f, |s| / f;
      FlattenChunks(s[f..], f);
      DivStep(|s|, f);
      MulStep(m, f);
      var k := m * f;
      assert n * f == k + f;
      var rest := Chunks(s[f..], f);
      assert Chunks(s, f) == [s[..f]] + rest;
      assert ([s[..f]] + rest)[0] == s[..f] && ([s[..f]] + rest)[1..] == rest;
      assert Flatten(Chunks(s, f)) == s[..f] + s[f..][..k];
      assert s[..f] + s[f..][..k] == s[..k + f];
    }
  }

  /** A trailing partial frame plays no part: only the complete frames are cut. */
  lemma {:induction false} ChunksIgnoreTail<T>(s: seq<T>, f: nat)
    requires f > 0
    ensures (|s| / f) * f <= |s|
    ensures Chunks(s, f) == Chunks(s[..(|s| / f) * f], f)
    decreases |s|
  {
    FlattenChunks(s, f);
    if |s| < f {
      DivUnique(|s|, f, 0, |s|);
      assert s[..(|s| / f) * f] == [];
    } else {
      var m, n := (|s| - f) / f, |s| / f;
      ChunksIgnoreTail(s[f..], f);
      DivStep(|s|, f);
      MulStep(m, f);
      assert n * f == m * f + f;
      var t := s[..n * f];
      assert t[..f] == s[..f];
      assert t[f..] == s[f..][..m * f];
    }
  }

  lemma {:induction false} FlattenAppend<T>(a: seq<seq<T>>, b: seq<seq<T>>)
    ensures Flatten(a + b) == Flatten(a) + Flatten(b)
    decreases |a|
  {
    if a == [] {
      assert a + b == b;
    } else {
      assert (a + b)[0] == a[0] && (a + b)[1..] == a[1..] + b;
      FlattenAppend(a[1..], b);
      assert Flatten(a + b) == a[0] + Flatten(a[1..] + b);
    }
  }

  /** One more frame cut at position `pos`, the way the Kotlin loops advance through their input. */
  lemma ChunkAdvance<T>(s: seq<T>, pos: nat, f: nat, done: seq<seq<T>>)
    requires f > 0 && pos + f <= |s|
    requires done + Chunks(s[pos..], f) == Chunks(s, f)
    ensures (done + [s[pos..pos + f]]) + Chunks(s[pos + f..], f) == Chunks(s, f)
  {
    assert s[pos..][..f] == s[pos..pos + f] && s[pos..][f..] == s[pos + f..];
    assert Chunks(s[pos..], f) == [s[pos..pos + f]] + Chunks(s[pos + f..], f);
  }

  lemma FlattenSnoc<T>(ss: seq<seq<T>>, x: seq<T>)
    ensures Flatten(ss + [x]) == Flatten(ss) + x
  {
    FlattenAppend(ss, [x]);
    assert Flatten([x]) == x + Flatten([x][1..]);
  }

  /** Joining `|ss|` frames of `n` bytes each gives `|ss| * n` bytes. */
  lemma {:induction false} FlattenUniform<T>(ss: seq<seq<T>>, n: nat)
    requires forall i | 0 <= i < |ss| :: |ss[i]| == n
    ensures |Flatten(ss)| == |ss| * n
    decreases |ss|
  {
    if ss != [] {
      FlattenUniform(ss[1..], n);
      MulStep(|ss| - 1, n);
    }
  }

  /** Cutting a join of `e`-byte frames into `e`-byte frames gives back those frames. */
  lemma {:induction false} ChunksOfFlatten<T>(ss: seq<seq<T>>, e: nat)
    requires e > 0
    requires forall i | 0 <= i < |ss| :: |ss[i]| == e
    ensures Chunks(Flatten(ss), e) == ss
    decreases |ss|
  {
    if ss != [] {
      ChunksOfFlatten(ss[1..], e);
      var j := Flatten(ss);
      assert j == ss[0] + Flatten(ss[1..]);
      assert j[..e] == ss[0] && j[e..] == Flatten(ss[1..]);
    }
  }
}
