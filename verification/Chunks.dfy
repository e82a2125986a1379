/** Cutting a transfer into pieces of at most `max` units, as the multipart upload loops do. */
module Chunks {
  import opened Basics

  function Flatten<T>(ps: seq<seq<T>>): seq<T> {
    if ps == [] then [] else ps[0] + Flatten(ps[1..])
  }

  function Pieces<T>(src: seq<T>, max: nat): (ps: seq<seq<T>>)
    requires max > 0
    decreases |src|
  {
    if src == [] then []
    else [src[..Min(max, |src|)]] + Pieces(src[Min(max, |src|)..], max)
  }

  lemma {:induction false} PiecesJoin<T>(src: seq<T>, max: nat)
    requires max > 0
    ensures Flatten(Pieces(src, max)) == src
    decreases |src|
  {
    if src != [] {
      PiecesJoin(src[Min(max, |src|)..], max);
      assert Pieces(src, max)[1..] == Pieces(src[Min(max, |src|)..], max);
    }
  }

  /** Every piece but the last is exactly `max` long, and the last is not empty. */
  lemma {:induction false} PieceLengths<T>(src: seq<T>, max: nat)
    requires max > 0
    ensures forall k :: 0 <= k < |Pieces(src, max)| - 1 ==> |Pieces(src, max)[k]| == max
    ensures forall k :: 0 <= k < |Pieces(src, max)| ==> 0 < |Pieces(src, max)[k]| <= max
    decreases |src|
  {
    if src != [] {
      PieceLengths(src[Min(max, |src|)..], max);
      if |src| <= max {
        assert Pieces(src[|src|..], max) == [];
      }
    }
  }

  lemma PiecesOf<T>(src: seq<T>, max: nat)
    requires max > 0 && src != []
    ensures Pieces(src, max) == [src[..Min(max, |src|)]] + Pieces(src[Min(max, |src|)..], max)
    ensures |src| <= max ==> |Pieces(src, max)| == 1
  {
    if |src| <= max {
      assert src[|src|..] == [];
      assert Pieces(src[|src|..], max) == [];
    }
  }

  /** Piece `k` is what lies between k and k + 1 times `max` in the source. */
  lemma {:induction false} PieceAt<T>(src: seq<T>, max: nat, k: nat)
    requires max > 0 && k < |Pieces(src, max)|
    ensures 0 <= k * max < |src| && Pieces(src, max)[k] == src[k * max..Min(k * max + max, |src|)]
    decreases k
  {
    hide Pieces;
    assert src != [] by { NoPieces<T>(max); }
    PiecesOf(src, max);
    if k > 0 {
      PieceAt(src[max..], max, k - 1);
      NextMultiple(k, max);
      SliceLater(src, max, (k - 1) * max, Min((k - 1) * max + max, |src| - max));
    }
  }

  lemma NoPieces<T>(max: nat)
    requires max > 0
    ensures Pieces<T>([], max) == []
  {
  }

  lemma NextMultiple(k: int, d: int)
    ensures (k - 1) * d + d == k * d
  {
  }

  lemma SliceLater<T>(src: seq<T>, n: nat, i: nat, j: nat)
    requires n + j <= |src| && i <= j
    ensures src[n..][i..j] == src[n + i..n + j]
  {
  }

  function CeilDiv(n: nat, d: nat): (q: nat)
    requires d > 0
  {
    if n % d == 0 then n / d else n / d + 1
  }

  lemma DivStep(n: int, d: int)
    requires d > 0
    ensures (n + d) / d == n / d + 1
    ensures (n + d) % d == n % d
  {
    var q, r := n / d, n % d;
    assert n + d == (q + 1) * d + r;
    QuotientIs(n + d, d, q + 1, r);
  }

  lemma QuotientIs(n: int, d: int, q: int, r: int)
    requires d > 0 && n == q * d + r && 0 <= r < d
    ensures n / d == q && n % d == r
  {
    Multiples(n / d - q, d);
    assert (n / d - q) * d == r - n % d;
  }

  lemma Multiples(e: int, d: int)
    requires d > 0
    ensures e >= 1 ==> e * d >= d
    ensures e <= -1 ==> e * d <= -d
  {
  }

  lemma {:induction false} PieceCount<T>(src: seq<T>, max: nat)
    requires max > 0
    ensures |Pieces(src, max)| == CeilDiv(|src|, max)
    decreases |src|
  {
    if |src| > max {
      PieceCount(src[max..], max);
      DivStep(|src| - max, max);
    } else if |src| == max {
      QuotientIs(|src|, max, 1, 0);
      assert src[max..] == [];
    } else if src != [] {
      QuotientIs(|src|, max, 0, |src|);
      assert src[|src|..] == [];
    } else {
      QuotientIs(0, max, 0, 0);
    }
  }

  /** One more piece taken leaves the rounded-up quotient of the rest. */
  lemma CeilStep(n: nat, d: nat)
    requires d > 0 && n > 0
    ensures CeilDiv(n, d) == 1 + CeilDiv(n - Min(d, n), d)
  {
    if n >= d {
      DivStep(n - d, d);
    } else {
      QuotientIs(n, d, 0, n);
      QuotientIs(0, d, 0, 0);
    }
  }

  lemma PiecesStep<T>(done: seq<seq<T>>, src: seq<T>, off: nat, max: nat)
    requires max > 0 && off < |src|
    ensures var n := Min(max, |src| - off);
            done + Pieces(src[off..], max) == (done + [src[off..off + n]]) + Pieces(src[off + n..], max)
  {
    var n := Min(max, |src| - off);
    assert src[off..][..n] == src[off..off + n] && src[off..][n..] == src[off + n..];
  }

  lemma {:induction false} FlattenSnoc<T>(ps: seq<seq<T>>, p: seq<T>)
    ensures Flatten(ps + [p]) == Flatten(ps) + p
  {
    if ps == [] {
      assert Flatten([p]) == p + Flatten([p][1..]);
    } else {
      FlattenSnoc(ps[1..], p);
      assert (ps + [p])[1..] == ps[1..] + [p];
    }
  }

  // ------------------------------------------------------------ a write of part of a source

  /** A piece no longer than `limit` that the source has. */
  predicate Sendable<T>(src: seq<T>, off: nat, len: nat, limit: nat) {
    len <= limit && off + len <= |src|
  }

  /** The data callback of a part: `need` bytes of the part of the source that starts at `thisOff`. */
  method DataOut<T>(src: seq<T>, thisOff: nat, streamOff: nat, need: nat, maxPart: nat) returns (ret: int, out: seq<T>)
    ensures ret == 0 || ret == -EINVAL
    ensures ret == 0 <==> need <= maxPart && thisOff + streamOff + need <= |src|
    ensures ret == 0 ==> out == src[thisOff + streamOff..thisOff + streamOff + need]
  {
    if need > maxPart || thisOff + streamOff + need > |src| {
      return -EINVAL, [];
    }
    return 0, src[thisOff + streamOff..thisOff + streamOff + need];
  }

  /** The bytes the write is about, when the source has them. */
  function Source<T>(src: seq<T>, destOff: nat, destLen: nat): (s: seq<T>)
    ensures destOff + destLen <= |src| ==> s == src[destOff..destOff + destLen]
  {
    if destOff + destLen <= |src| then src[destOff..destOff + destLen] else []
  }

  lemma SourceSlice<T>(src: seq<T>, destOff: nat, destLen: nat, off: nat, n: nat)
    requires destOff + destLen <= |src| && off + n <= destLen
    ensures Source(src, destOff, destLen)[off..off + n] == src[destOff + off..destOff + off + n]
  {
    var a, b := src[destOff..destOff + destLen][off..off + n], src[destOff + off..destOff + off + n];
    assert |a| == |b| && forall i | 0 <= i < |a| :: a[i] == b[i];
  }

  /** What the pieces taken so far say about the pieces to come. */
  ghost predicate Cut<T>(src: seq<T>, destOff: nat, destLen: nat, max: nat, limit: nat, off: nat, done: seq<seq<T>>)
    requires max > 0 && off <= destLen
  {
    && (done != [] ==> destOff + off <= |src| && Min(max, destLen) <= limit)
    && (done == [] ==> off == 0)
    && CeilDiv(destLen, max) == |done| + CeilDiv(destLen - off, max)
    && (destOff + destLen <= |src| ==>
          Pieces(Source(src, destOff, destLen), max) == done + Pieces(Source(src, destOff, destLen)[off..], max))
  }

  lemma CutNext<T>(src: seq<T>, destOff: nat, destLen: nat, max: nat, limit: nat, off: nat, done: seq<seq<T>>)
    requires max > 0 && off < destLen && Cut(src, destOff, destLen, max, limit, off, done)
    requires Sendable(src, destOff + off, Min(max, destLen - off), limit)
    ensures var n := Min(max, destLen - off);
            Cut(src, destOff, destLen, max, limit, off + n, done + [src[destOff + off..destOff + off + n]])
  {
    var n := Min(max, destLen - off);
    CeilStep(destLen - off, max);
    if destOff + destLen <= |src| {
      CutPieces(src, destOff, destLen, max, off, done);
    }
  }

  lemma CutPieces<T>(src: seq<T>, destOff: nat, destLen: nat, max: nat, off: nat, done: seq<seq<T>>)
    requires max > 0 && off < destLen && destOff + destLen <= |src|
    ensures var n, s := Min(max, destLen - off), Source(src, destOff, destLen);
            done + Pieces(s[off..], max)
            == (done + [src[destOff + off..destOff + off + n]]) + Pieces(s[off + n..], max)
  {
    var n := Min(max, destLen - off);
    SourceSlice(src, destOff, destLen, off, n);
    PiecesStep(done, Source(src, destOff, destLen), off, max);
  }

  lemma CutGoesOn<T>(src: seq<T>, destOff: nat, destLen: nat, max: nat, limit: nat, off: nat, done: seq<seq<T>>)
    requires max > 0 && off < destLen && Cut(src, destOff, destLen, max, limit, off, done)
    ensures |done| < CeilDiv(destLen, max)
  {
    CeilStep(destLen - off, max);
  }

  lemma CutWhole<T>(src: seq<T>, destOff: nat, destLen: nat, max: nat, limit: nat)
    requires max > 0
    ensures Cut(src, destOff, destLen, max, limit, 0, [])
  {
    if destOff + destLen <= |src| {
      assert Source(src, destOff, destLen)[0..] == Source(src, destOff, destLen);
    }
  }

  lemma CutAll<T>(src: seq<T>, destOff: nat, destLen: nat, max: nat, limit: nat, done: seq<seq<T>>)
    requires max > 0 && Cut(src, destOff, destLen, max, limit, destLen, done)
    ensures |done| == CeilDiv(destLen, max)
    ensures destLen > 0 ==> destOff + destLen <= |src|
    ensures done == Pieces(Source(src, destOff, destLen), max)
  {
    QuotientIs(0, max, 0, 0);
    if destLen > 0 {
      CeilStep(destLen, max);
      assert Source(src, destOff, destLen)[destLen..] == [];
    }
  }
}
