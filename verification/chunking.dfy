/**
  Fixed-width chunking of a flat sequence, as written in Python with
  `[s[i : i + n] for i in range(0, len(s), n)]`.

  `Chunk` follows that comprehension literally: one slice per start index
  produced by `range(0, len(s), n)`, with Python's clamping slice bounds.
  `Groups` is an independent recursive reference definition (take `n`,
  recurse on the rest). `ChunkIsGroups` connects the two, and the size and
  round-trip facts are proved once on `Groups` and carried over to `Chunk`.
 */
module Chunking {

  function Min(a: int, b: int): (m: int) {
    if a <= b then a else b
  }

  /** Concatenation of a sequence of sequences, in order. */
  function Flatten<T>(ss: seq<seq<T>>): (flat: seq<T>) {
    if ss == [] then [] else ss[0] + Flatten(ss[1..])
  }

  /** Python's `s[lo:hi]` for non-negative bounds: both bounds clamp to `|s|`. */
  function Slice<T>(s: seq<T>, lo: nat, hi: nat): (r: seq<T>)
    requires lo <= hi
    ensures |r| == Min(hi, |s|) - Min(lo, |s|)
    ensures forall j :: 0 <= j < |r| ==> r[j] == s[lo + j]
  {
    s[Min(lo, |s|) .. Min(hi, |s|)]
  }

  /** Number of values in Python's `range(0, a, n)` for a positive step. */
  function RangeLength(a: nat, n: nat): (count: nat)
    requires n > 0
  {
    (a + n - 1) / n
  }

  /** Slice `i` of the comprehension: element `j` is input element `i * n + j`. */
  function Piece<T>(s: seq<T>, n: nat, i: nat): (piece: seq<T>)
    ensures forall j :: 0 <= j < |piece| ==> i * n + j < |s| && piece[j] == s[i * n + j]
  {
    Slice(s, i * n, i * n + n)
  }

  /**
    The comprehension: one slice per start index of `range(0, len(s), n)`,
    so element `j` of chunk `i` is input element `i * n + j`, in order.
   */
  function Chunk<T>(s: seq<T>, n: nat): (chunks: seq<seq<T>>)
    requires n > 0
    ensures forall i, j :: 0 <= i < |chunks| && 0 <= j < |chunks[i]| ==>
              i * n + j < |s| && chunks[i][j] == s[i * n + j]
  {
    seq(RangeLength(|s|, n), i requires 0 <= i => Piece(s, n, i))
  }

  /** Reference definition: split off the first `n` elements, recurse on the rest. */
  function Groups<T>(s: seq<T>, n: nat): (groups: seq<seq<T>>)
    requires n > 0
    decreases |s|
  {
    if s == [] then []
    else if |s| <= n then [s]
    else [s[..n]] + Groups(s[n..], n)
  }

  // ---------------------------------------------------------------------------
  // Flatten

  lemma {:induction false} FlattenConcat<T>(a: seq<seq<T>>, b: seq<seq<T>>)
    ensures Flatten(a + b) == Flatten(a) + Flatten(b)
    decreases |a|
  {
    if a == [] {
      assert a + b == b;
    } else {
      assert (a + b)[1..] == a[1..] + b;
      FlattenConcat(a[1..], b);
    }
  }

  lemma FlattenCons<T>(x: seq<T>, rest: seq<seq<T>>)
    ensures Flatten([x] + rest) == x + Flatten(rest)
  {
    assert ([x] + rest)[1..] == rest;
  }

  /** An element is in the concatenation exactly when it is in one of the parts. */
  lemma {:induction false} FlattenMember<T>(ss: seq<seq<T>>, x: T)
    ensures x in Flatten(ss) <==> exists k :: 0 <= k < |ss| && x in ss[k]
    decreases |ss|
  {
    if ss != [] {
      FlattenMember(ss[1..], x);
      if x in Flatten(ss[1..]) {
        var k :| 0 <= k < |ss[1..]| && x in ss[1..][k];
        assert x in ss[k + 1];
      }
      if exists k :: 0 <= k < |ss| && x in ss[k] {
        var k :| 0 <= k < |ss| && x in ss[k];
        if k > 0 {
          assert x in ss[1..][k - 1];
        }
      }
    }
  }

  // ---------------------------------------------------------------------------
  // The comprehension agrees with the recursive reference definition

  lemma RangeLengthStep(a: nat, n: nat)
    requires n > 0 && a > n
    ensures RangeLength(a, n) == RangeLength(a - n, n) + 1
  {
    var b := a - 1;
    var q, r := b / n, b % n;
    assert b == q * n + r && 0 <= r < n;
    assert b + n == (q + 1) * n + r;
    DivUnique(b + n, n, q + 1, r);
  }

  lemma DivUnique(a: int, n: int, q: int, r: int)
    requires n > 0 && a == q * n + r && 0 <= r < n
    ensures a / n == q
  {
    var q', r' := a / n, a % n;
    assert a == q' * n + r' && 0 <= r' < n;
    assert (q - q') * n == r' - r;
    if q' < q {
      MulAtLeast(q - q', n);
    } else if q' > q {
      MulAtLeast(q' - q, n);
    }
  }

  lemma MulAtLeast(d: int, n: int)
    requires d >= 1 && n > 0
    ensures d * n >= n
  {
    assert d * n == (d - 1) * n + n;
    assert (d - 1) * n >= 0;
  }

  lemma SliceDrop<T>(s: seq<T>, n: nat, lo: nat, hi: nat)
    requires n <= |s| && lo <= hi
    ensures Slice(s[n..], lo, hi) == Slice(s, lo + n, hi + n)
  {
    var l, r := Slice(s[n..], lo, hi), Slice(s, lo + n, hi + n);
    assert |l| == |r|;
    forall j | 0 <= j < |l|
      ensures l[j] == r[j]
    {
      assert l[j] == s[n..][lo + j] == s[lo + n + j];
    }
  }

  /** Unfolding the comprehension once: the first slice, then the rest. */
  lemma ChunkStep<T>(s: seq<T>, n: nat)
    requires n > 0 && |s| > n
    ensures Chunk(s, n) == [s[..n]] + Chunk(s[n..], n)
  {
    var c, d := Chunk(s, n), Chunk(s[n..], n);
    RangeLengthStep(|s|, n);
    assert |c| == |d| + 1;
    assert c[0] == Piece(s, n, 0) == Slice(s, 0, n) == s[..n];
    forall i | 1 <= i < |c|
      ensures c[i] == d[i - 1]
    {
      assert (i - 1) * n + n == i * n;
      SliceDrop(s, n, (i - 1) * n, (i - 1) * n + n);
    }
    assert c == [s[..n]] + d;
  }

  /** The Python comprehension and the recursive definition produce the same chunks. */
  lemma {:induction false} ChunkIsGroups<T>(s: seq<T>, n: nat)
    requires n > 0
    ensures Chunk(s, n) == Groups(s, n)
    decreases |s|
  {
    if s == [] {
    } else if |s| <= n {
      assert RangeLength(|s|, n) == 1 by {
        DivUnique(|s| + n - 1, n, 1, |s| - 1);
      }
      assert Chunk(s, n)[0] == Piece(s, n, 0) == Slice(s, 0, n) == s;
    } else {
      ChunkStep(s, n);
      ChunkIsGroups(s[n..], n);
    }
  }

  // ---------------------------------------------------------------------------
  // Properties of the reference definition

  lemma {:induction false} GroupsRoundTrip<T>(s: seq<T>, n: nat)
    requires n > 0
    ensures Flatten(Groups(s, n)) == s
    decreases |s|
  {
    if s == [] {
    } else if |s| <= n {
      FlattenCons(s, []);
    } else {
      GroupsRoundTrip(s[n..], n);
      FlattenCons(s[..n], Groups(s[n..], n));
      assert s == s[..n] + s[n..];
    }
  }

  lemma {:induction false} GroupsSizes<T>(s: seq<T>, n: nat)
    requires n > 0
    ensures forall i :: 0 <= i < |Groups(s, n)| ==> 0 < |Groups(s, n)[i]| <= n
    ensures forall i :: 0 <= i < |Groups(s, n)| - 1 ==> |Groups(s, n)[i]| == n
    decreases |s|
  {
    if |s| > n {
      var g, rest := Groups(s, n), Groups(s[n..], n);
      GroupsSizes(s[n..], n);
      assert g == [s[..n]] + rest;
      forall i | 1 <= i < |g|
        ensures g[i] == rest[i - 1]
      {
      }
    }
  }

  lemma {:induction false} GroupsCount<T>(s: seq<T>, n: nat)
    requires n > 0
    ensures |s| <= |Groups(s, n)| * n < |s| + n
    decreases |s|
  {
    if |s| > n {
      var rest := Groups(s[n..], n);
      GroupsCount(s[n..], n);
      assert |Groups(s, n)| == |rest| + 1;
      assert (|rest| + 1) * n == |rest| * n + n;
    }
  }

  lemma {:induction false} GroupsFull<T>(s: seq<T>, n: nat)
    requires n > 0 && |s| % n == 0
    ensures forall i :: 0 <= i < |Groups(s, n)| ==> |Groups(s, n)[i]| == n
    decreases |s|
  {
    if s == [] {
    } else if |s| <= n {
      assert |s| == n by {
        if |s| < n {
          DivUnique(|s|, n, 0, |s|);
        }
      }
    } else {
      var g, rest := Groups(s, n), Groups(s[n..], n);
      assert |s[n..]| % n == 0 by {
        var q := |s| / n;
        assert |s| == q * n;
        assert |s[n..]| == (q - 1) * n + 0;
        DivUnique(|s[n..]|, n, q - 1, 0);
      }
      GroupsFull(s[n..], n);
      assert g == [s[..n]] + rest;
      forall i | 1 <= i < |g|
        ensures g[i] == rest[i - 1]
      {
      }
    }
  }

  // ---------------------------------------------------------------------------
  // Properties of the comprehension

  /** Concatenating the chunks gives back the input exactly. */
  lemma ChunkRoundTrip<T>(s: seq<T>, n: nat)
    requires n > 0
    ensures Flatten(Chunk(s, n)) == s
  {
    ChunkIsGroups(s, n);
    GroupsRoundTrip(s, n);
  }

  /** Every chunk is non-empty and at most `n` long; all but the last are exactly `n` long. */
  lemma ChunkSizes<T>(s: seq<T>, n: nat)
    requires n > 0
    ensures forall i :: 0 <= i < |Chunk(s, n)| ==> 0 < |Chunk(s, n)[i]| <= n
    ensures forall i :: 0 <= i < |Chunk(s, n)| - 1 ==> |Chunk(s, n)[i]| == n
  {
    ChunkIsGroups(s, n);
    GroupsSizes(s, n);
  }

  /** The number of chunks is the ceiling of `|s| / n`. */
  lemma ChunkCount<T>(s: seq<T>, n: nat)
    requires n > 0
    ensures |s| <= |Chunk(s, n)| * n < |s| + n
  {
    ChunkIsGroups(s, n);
    GroupsCount(s, n);
  }

  /** A length divisible by `n` leaves no short chunk. */
  lemma ChunkFull<T>(s: seq<T>, n: nat)
    requires n > 0 && |s| % n == 0
    ensures forall i :: 0 <= i < |Chunk(s, n)| ==> |Chunk(s, n)[i]| == n
  {
    ChunkIsGroups(s, n);
    GroupsFull(s, n);
  }

  /** Re-chunking a concatenation of full chunks gives those chunks back. */
  lemma {:induction false} ChunkFlattenFull<T>(gs: seq<seq<T>>, n: nat)
    requires n > 0
    requires forall i :: 0 <= i < |gs| ==> |gs[i]| == n
    ensures Chunk(Flatten(gs), n) == gs
    decreases |gs|
  {
    var s := Flatten(gs);
    if gs == [] {
      assert RangeLength(0, n) == 0 by {
        DivUnique(n - 1, n, 0, n - 1);
      }
    } else {
      ChunkFlattenFull(gs[1..], n);
      assert s == gs[0] + Flatten(gs[1..]);
      if gs[1..] == [] {
        assert s == gs[0];
        ChunkIsGroups(s, n);
      } else {
        FlattenLength(gs[1..], n);
        assert |s| > n;
        ChunkStep(s, n);
        assert s[..n] == gs[0] && s[n..] == Flatten(gs[1..]);
      }
    }
  }

  lemma {:induction false} FlattenLength<T>(gs: seq<seq<T>>, n: nat)
    requires forall i :: 0 <= i < |gs| ==> |gs[i]| == n
    ensures |Flatten(gs)| == |gs| * n
    decreases |gs|
  {
    if gs != [] {
      FlattenLength(gs[1..], n);
    }
  }
}
