/** Dense integer matrices and the three tensor operations the preprocessing
    applies to them: `torch.nonzero` (with `.t()`), zero padding with
    `F.pad`, and the row sums `torch.mm(adj, ones)`. */
module Matrices {

  type Matrix = seq<seq<int>>

  /** `m` is an `n × n` matrix. */
  predicate Square(m: Matrix, n: nat) {
    |m| == n && forall i :: 0 <= i < n ==> |m[i]| == n
  }

  /** Row-major (lexicographic) order on index pairs. */
  predicate Before(a: (nat, nat), b: (nat, nat)) {
    a.0 < b.0 || (a.0 == b.0 && a.1 < b.1)
  }

  /** Strictly increasing in row-major order (hence also duplicate-free). */
  predicate RowMajor(e: seq<(nat, nat)>) {
    forall k, l :: 0 <= k < l < |e| ==> Before(e[k], e[l])
  }

  /** `(r, c)` is a position of `m` holding a non-zero entry. */
  predicate NonZeroAt(m: Matrix, r: nat, c: nat) {
    r < |m| && c < |m[r]| && m[r][c] != 0
  }

  /** The non-zero positions of row `i`, from column `j` on. */
  function RowEntries(row: seq<int>, i: nat, j: nat): (e: seq<(nat, nat)>)
    requires j <= |row|
    ensures forall k :: 0 <= k < |e| ==> e[k].0 == i && j <= e[k].1 < |row| && row[e[k].1] != 0
    ensures forall c :: j <= c < |row| && row[c] != 0 ==> (i, c) in e
    ensures RowMajor(e)
    decreases |row| - j
  {
    if j == |row| then []
    else
      var rest := RowEntries(row, i, j + 1);
      if row[j] != 0 then
        assert forall k :: 0 <= k < |rest| ==> Before((i, j), rest[k]);
        [(i, j)] + rest
      else rest
  }

  /** The non-zero positions of rows `i..`, row by row. */
  function NonZeroFrom(m: Matrix, i: nat): (e: seq<(nat, nat)>)
    requires i <= |m|
    ensures forall k :: 0 <= k < |e| ==> i <= e[k].0 && NonZeroAt(m, e[k].0, e[k].1)
    ensures forall r: nat, c: nat :: i <= r && NonZeroAt(m, r, c) ==> (r, c) in e
    ensures RowMajor(e)
    decreases |m| - i
  {
    if i == |m| then []
    else
      var head := RowEntries(m[i], i, 0);
      var tail := NonZeroFrom(m, i + 1);
      assert forall k, l :: 0 <= k < |head| && 0 <= l < |tail| ==> Before(head[k], tail[l]);
      assert forall r: nat, c: nat :: i <= r && NonZeroAt(m, r, c) ==> (r, c) in head + tail by {
        forall r: nat, c: nat | i <= r && NonZeroAt(m, r, c) ensures (r, c) in head + tail {
          if r == i {
            assert (r, c) in head;
          } else {
            assert (r, c) in tail;
          }
        }
      }
      head + tail
  }

  /** `torch.nonzero(adj)`: every non-zero position, in row-major order. */
  function NonZero(m: Matrix): (e: seq<(nat, nat)>)
    ensures forall k :: 0 <= k < |e| ==> NonZeroAt(m, e[k].0, e[k].1)
    ensures forall r: nat, c: nat :: NonZeroAt(m, r, c) ==> (r, c) in e
    ensures RowMajor(e)
  {
    NonZeroFrom(m, 0)
  }

  /** Two row-major listings of the same positions are the same listing, so
      `NonZero` is the only row-major listing of the non-zero positions. */
  lemma {:induction false} RowMajorUnique(a: seq<(nat, nat)>, b: seq<(nat, nat)>)
    requires RowMajor(a) && RowMajor(b)
    requires forall p :: p in a <==> p in b
    ensures a == b
  {
    if a != [] {
      assert a[0] in b;
    }
    if b != [] {
      assert b[0] in a;
    }
    if a != [] && b != [] {
      var i :| 0 <= i < |b| && b[i] == a[0];
      var j :| 0 <= j < |a| && a[j] == b[0];
      if i > 0 {
        assert false;
      }
      forall p ensures p in a[1..] <==> p in b[1..] {
        if p in a[1..] {
          var k :| 1 <= k < |a| && a[k] == p;
          assert Before(a[0], a[k]);
          assert p in a;
          assert p in b;
          var l :| 0 <= l < |b| && b[l] == p;
          assert l != 0;
          assert b[1..][l - 1] == p;
        }
        if p in b[1..] {
          var k :| 1 <= k < |b| && b[k] == p;
          assert Before(b[0], b[k]);
          assert p in b;
          assert p in a;
          var l :| 0 <= l < |a| && a[l] == p;
          assert l != 0;
          assert a[1..][l - 1] == p;
        }
      }
      RowMajorUnique(a[1..], b[1..]);
      assert a == [a[0]] + a[1..];
      assert b == [b[0]] + b[1..];
    }
  }

  /** `torch.nonzero(adj).t()`: a `2 × E` tensor whose `k`-th column is the
      `k`-th non-zero position. */
  function EdgeIndex(m: Matrix): (ei: seq<seq<nat>>)
    ensures |ei| == 2 && |ei[0]| == |ei[1]|
    ensures forall k :: 0 <= k < |ei[0]| ==> NonZeroAt(m, ei[0][k], ei[1][k])
    ensures forall r: nat, c: nat :: NonZeroAt(m, r, c) ==>
      exists k :: 0 <= k < |ei[0]| && ei[0][k] == r && ei[1][k] == c
    ensures forall k, l :: 0 <= k < l < |ei[0]| ==> Before((ei[0][k], ei[1][k]), (ei[0][l], ei[1][l]))
  {
    var e := NonZero(m);
    var ei := [seq(|e|, k requires 0 <= k < |e| => e[k].0), seq(|e|, k requires 0 <= k < |e| => e[k].1)];
    assert forall k :: 0 <= k < |e| ==> (ei[0][k], ei[1][k]) == e[k];
    ei
  }

  /** Sum of a row: one entry of `torch.mm(adj, ones)`. A row of zeros and
      ones sums to at most its length. */
  function RowSum(row: seq<int>): (s: int)
    ensures (forall k :: 0 <= k < |row| ==> 0 <= row[k] <= 1) ==> 0 <= s <= |row|
  {
    if row == [] then 0 else RowSum(row[..|row| - 1]) + row[|row| - 1]
  }

  /** `F.pad(adj, [0, d, 0, d])` with `d = size - n`: zero rows and columns are
      appended when `d > 0`; when `d < 0` the trailing rows and columns are cut. */
  function Pad(m: Matrix, size: nat): (p: Matrix)
    requires Square(m, |m|)
    ensures Square(p, size)
  {
    seq(size, i requires 0 <= i < size =>
      seq(size, j requires 0 <= j < size => if i < |m| && j < |m| then m[i][j] else 0))
  }

  /** The top-left `k × k` block. */
  function Crop(m: Matrix, k: nat): (c: Matrix)
    requires Square(m, |m|) && k <= |m|
    ensures Square(c, k)
  {
    seq(k, i requires 0 <= i < k => m[i][..k])
  }

  /** Padding adds nothing but zeros: cropping back recovers the matrix and
      every added row and column is zero. */
  lemma PadCropRoundTrip(m: Matrix, size: nat)
    requires Square(m, |m|) && |m| <= size
    ensures Crop(Pad(m, size), |m|) == m
    ensures forall i, j :: 0 <= i < size && 0 <= j < size && (i >= |m| || j >= |m|) ==> Pad(m, size)[i][j] == 0
  {
    var c := Crop(Pad(m, size), |m|);
    forall i | 0 <= i < |m| ensures c[i] == m[i] {
      assert |c[i]| == |m[i]|;
    }
  }

  /** A negative padding amount crops: padding to a smaller size is cropping. */
  lemma PadBelowSizeCrops(m: Matrix, size: nat)
    requires Square(m, |m|) && size <= |m|
    ensures Pad(m, size) == Crop(m, size)
  {
    var p, c := Pad(m, size), Crop(m, size);
    forall i | 0 <= i < size ensures p[i] == c[i] {
      assert |p[i]| == |c[i]|;
    }
  }

  /** The edge list can be read off the padded matrix as well: padding adds no
      non-zero position. */
  lemma PadKeepsNonZero(m: Matrix, size: nat)
    requires Square(m, |m|) && |m| <= size
    ensures NonZero(Pad(m, size)) == NonZero(m)
  {
    var p := Pad(m, size);
    forall q ensures q in NonZero(p) <==> q in NonZero(m) {
      if q in NonZero(p) {
        assert NonZeroAt(p, q.0, q.1);
        assert NonZeroAt(m, q.0, q.1);
      }
      if q in NonZero(m) {
        assert NonZeroAt(m, q.0, q.1);
        assert NonZeroAt(p, q.0, q.1);
      }
    }
    RowMajorUnique(NonZero(p), NonZero(m));
  }
}
