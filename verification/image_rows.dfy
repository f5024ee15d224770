/** A decoded 8-bit image buffer seen as rows.

    A buffer of interleaved samples holds `rows` rows of `w` bytes each, one
    after another, possibly followed by bytes that belong to no row. This
    module gives the row structure of such a buffer, the reference meaning of
    a vertical flip (the rows in reverse order, everything after them kept),
    and the facts about that flip that the loop-based implementation in
    module `Flip` is measured against.
 */
module ImageRows {

  /** One `unsigned char` sample. */
  type byte = x: int | 0 <= x < 256

  /** A C `int`. */
  type int32 = x: int | -0x8000_0000 <= x < 0x8000_0000

  /** Position of byte `k` of row `r` when every row is `w` bytes long. */
  function Offset(r: int, k: int, w: int): int
  {
    r * w + k
  }

  /** A positive multiple of `w` is at least `w`. */
  lemma MulAtLeast(d: int, w: int)
    requires d >= 1 && w >= 0
    ensures d * w >= w
  {
    var e := d - 1;
    assert e * w >= 0;
    assert d * w == e * w + w;
  }

  /** Every byte of the first `rows` rows lies below `rows * w`. */
  lemma OffsetInRows(r: int, k: int, rows: int, w: int)
    requires 0 <= r < rows && 0 <= k < w
    ensures 0 <= Offset(r, k, w) < rows * w
  {
    MulAtLeast(rows - r, w);
    assert (rows - r) * w == rows * w - r * w;
    assert r * w >= 0;
  }

  /** Distinct (row, column) pairs name distinct bytes. */
  lemma OffsetInjective(r1: int, k1: int, r2: int, k2: int, w: int)
    requires 0 <= k1 < w && 0 <= k2 < w
    requires Offset(r1, k1, w) == Offset(r2, k2, w)
    ensures r1 == r2 && k1 == k2
  {
    var d := r1 - r2;
    assert d * w == r1 * w - r2 * w;
    assert d * w == k2 - k1;
    if d >= 1 {
      MulAtLeast(d, w);
    } else if d <= -1 {
      MulAtLeast(-d, w);
    }
  }

  /** Exchange of the bytes at `a` and `b` through a temporary. */
  function Swap(s: seq<byte>, a: int, b: int): (r: seq<byte>)
    requires 0 <= a < |s| && 0 <= b < |s|
    ensures |r| == |s|
    ensures r[a] == s[b] && r[b] == s[a]
    ensures forall p :: 0 <= p < |s| && p != a && p != b ==> r[p] == s[p]
    ensures multiset(r) == multiset(s)
  {
    s[a := s[b]][b := s[a]]
  }

  /** The first `rows` rows of `s`, each `w` bytes long, top row first. */
  function RowsOf(s: seq<byte>, rows: nat, w: nat): (rs: seq<seq<byte>>)
    requires rows * w <= |s|
    ensures |rs| == rows
    ensures forall r :: 0 <= r < rows ==> |rs[r]| == w
    decreases rows
  {
    if rows == 0 then []
    else
      assert (rows - 1) * w + w == rows * w;
      RowsOf(s, rows - 1, w) + [s[(rows - 1) * w .. rows * w]]
  }

  /** The rows of `rs` written one after another. */
  function Join(rs: seq<seq<byte>>): seq<byte>
  {
    if rs == [] then [] else Join(rs[..|rs| - 1]) + rs[|rs| - 1]
  }

  function Reverse<T>(xs: seq<T>): seq<T>
  {
    seq(|xs|, i requires 0 <= i < |xs| => xs[|xs| - 1 - i])
  }

  /** Reference meaning of a vertical flip: the first `rows` rows of `s` in
      reverse order, followed by the bytes of `s` that belong to no row. */
  function FlipRows(s: seq<byte>, rows: nat, w: nat): (r: seq<byte>)
    requires rows * w <= |s|
    ensures |r| == |s|
  {
    JoinLength(Reverse(RowsOf(s, rows, w)), w);
    Join(Reverse(RowsOf(s, rows, w))) + s[rows * w..]
  }

  /** Joining rows of `w` bytes gives `w` bytes per row. */
  lemma {:induction false} JoinLength(rs: seq<seq<byte>>, w: nat)
    requires forall r :: 0 <= r < |rs| ==> |rs[r]| == w
    ensures |Join(rs)| == |rs| * w
    decreases |rs|
  {
    if rs != [] {
      JoinLength(rs[..|rs| - 1], w);
      assert (|rs| - 1) * w + w == |rs| * w;
    }
  }

  /** Row `r` of the row view is the `w` bytes starting at `r * w`. */
  lemma {:induction false} RowsOfAt(s: seq<byte>, rows: nat, w: nat, r: nat)
    requires rows * w <= |s|
    requires r < rows
    ensures r * w + w <= |s|
    ensures RowsOf(s, rows, w)[r] == s[r * w .. r * w + w]
    decreases rows
  {
    assert (rows - 1) * w + w == rows * w;
    if r < rows - 1 {
      RowsOfAt(s, rows - 1, w, r);
    }
  }

  /** Cutting the first `rows` rows out and joining them back gives the
      prefix they were cut from. */
  lemma {:induction false} JoinRowsOf(s: seq<byte>, rows: nat, w: nat)
    requires rows * w <= |s|
    ensures Join(RowsOf(s, rows, w)) == s[..rows * w]
    decreases rows
  {
    if rows > 0 {
      assert (rows - 1) * w + w == rows * w;
      var rs := RowsOf(s, rows, w);
      assert rs[..rows - 1] == RowsOf(s, rows - 1, w);
      JoinRowsOf(s, rows - 1, w);
      assert s[..rows * w] == s[..(rows - 1) * w] + s[(rows - 1) * w .. rows * w];
    }
  }

  /** Joining rows of `w` bytes and cutting the result into rows again gives
      back the same rows, whatever follows them. */
  lemma {:induction false} RowsOfJoin(rs: seq<seq<byte>>, w: nat, tail: seq<byte>)
    requires forall r :: 0 <= r < |rs| ==> |rs[r]| == w
    ensures |rs| * w <= |Join(rs) + tail|
    ensures RowsOf(Join(rs) + tail, |rs|, w) == rs
    decreases |rs|
  {
    JoinLength(rs, w);
    if rs != [] {
      var n := |rs| - 1;
      var init, last := rs[..n], rs[n];
      assert rs == init + [last];
      JoinLength(init, w);
      assert n * w + w == |rs| * w;
      assert Join(rs) + tail == Join(init) + (last + tail);
      RowsOfJoin(init, w, last + tail);
      assert (Join(rs) + tail)[n * w .. n * w + w] == last;
    }
  }

  /** Rows move as units: cut into rows, the flipped buffer is the original's
      rows in reverse order, and the bytes after the rows are untouched. */
  lemma FlipRowsReversesRows(s: seq<byte>, rows: nat, w: nat)
    requires rows * w <= |s|
    ensures RowsOf(FlipRows(s, rows, w), rows, w) == Reverse(RowsOf(s, rows, w))
    ensures FlipRows(s, rows, w)[rows * w..] == s[rows * w..]
  {
    var rev := Reverse(RowsOf(s, rows, w));
    RowsOfJoin(rev, w, s[rows * w..]);
    JoinLength(rev, w);
  }

  /** Byte `k` of row `r` after the flip is byte `k` of row `rows - 1 - r`
      before it: within a row, bytes keep their order. */
  lemma FlipRowsAt(s: seq<byte>, rows: nat, w: nat, r: nat, k: nat)
    requires rows * w <= |s|
    requires r < rows && k < w
    ensures 0 <= Offset(r, k, w) < rows * w
    ensures 0 <= Offset(rows - 1 - r, k, w) < rows * w
    ensures FlipRows(s, rows, w)[Offset(r, k, w)] == s[Offset(rows - 1 - r, k, w)]
  {
    OffsetInRows(r, k, rows, w);
    OffsetInRows(rows - 1 - r, k, rows, w);
    var f := FlipRows(s, rows, w);
    FlipRowsReversesRows(s, rows, w);
    RowsOfAt(f, rows, w, r);
    RowsOfAt(s, rows, w, rows - 1 - r);
    assert f[r * w .. r * w + w][k] == s[(rows - 1 - r) * w .. (rows - 1 - r) * w + w][k];
  }

  /** Two rows that agree byte by byte are equal. */
  lemma RowsAgree(t: seq<byte>, r1: nat, s: seq<byte>, r2: nat, w: nat)
    requires r1 * w + w <= |t| && r2 * w + w <= |s|
    requires forall k {:trigger t[Offset(r1, k, w)]} :: 0 <= k < w ==> t[Offset(r1, k, w)] == s[Offset(r2, k, w)]
    ensures t[r1 * w .. r1 * w + w] == s[r2 * w .. r2 * w + w]
  {
    var row1, row2 := t[r1 * w .. r1 * w + w], s[r2 * w .. r2 * w + w];
    forall k | 0 <= k < w
      ensures row1[k] == row2[k]
    {
      assert t[Offset(r1, k, w)] == s[Offset(r2, k, w)];
    }
  }

  /** Byte `k` of row `r` of `t` is byte `k` of row `rows - 1 - r` of `s`. */
  ghost predicate MirroredAt(t: seq<byte>, s: seq<byte>, rows: int, w: int, r: int, k: int)
  {
    && 0 <= Offset(r, k, w) < |t|
    && 0 <= Offset(rows - 1 - r, k, w) < |s|
    && t[Offset(r, k, w)] == s[Offset(rows - 1 - r, k, w)]
  }

  /** The converse of `FlipRowsAt`: a buffer of the same length that agrees
      with the flip byte by byte on the rows and equals `s` after them is the
      flip. */
  lemma FlipRowsFromPointwise(s: seq<byte>, t: seq<byte>, rows: nat, w: nat)
    requires rows * w <= |s| && |t| == |s|
    requires forall r, k :: 0 <= r < rows && 0 <= k < w ==> MirroredAt(t, s, rows, w, r, k)
    requires forall p :: rows * w <= p < |s| ==> t[p] == s[p]
    ensures t == FlipRows(s, rows, w)
  {
    var rt, rs := RowsOf(t, rows, w), RowsOf(s, rows, w);
    forall r | 0 <= r < rows
      ensures rt[r] == Reverse(rs)[r]
    {
      RowsOfAt(t, rows, w, r);
      RowsOfAt(s, rows, w, rows - 1 - r);
      forall k | 0 <= k < w
        ensures t[Offset(r, k, w)] == s[Offset(rows - 1 - r, k, w)]
      {
        assert MirroredAt(t, s, rows, w, r, k);
      }
      RowsAgree(t, r, s, rows - 1 - r, w);
    }
    assert rt == Reverse(rs);
    JoinRowsOf(t, rows, w);
    JoinRowsOf(s, rows, w);
    assert t == t[..rows * w] + t[rows * w..];
    assert t[rows * w..] == s[rows * w..];
  }

  /** Flipping twice restores the buffer. */
  lemma FlipRowsInvolution(s: seq<byte>, rows: nat, w: nat)
    requires rows * w <= |s|
    ensures FlipRows(FlipRows(s, rows, w), rows, w) == s
  {
    var f := FlipRows(s, rows, w);
    FlipRowsReversesRows(s, rows, w);
    var rs := RowsOf(s, rows, w);
    assert Reverse(Reverse(rs)) == rs;
    JoinRowsOf(s, rows, w);
    assert s == s[..rows * w] + s[rows * w..];
  }

  /** With an odd number of rows the middle row stays where it is. */
  lemma FlipRowsKeepsMiddleRow(s: seq<byte>, rows: nat, w: nat)
    requires rows * w <= |s|
    requires rows % 2 == 1
    ensures (rows / 2) * w + w <= |s|
    ensures FlipRows(s, rows, w)[(rows / 2) * w .. (rows / 2) * w + w] == s[(rows / 2) * w .. (rows / 2) * w + w]
  {
    var m := rows / 2;
    assert rows - 1 - m == m;
    var f := FlipRows(s, rows, w);
    FlipRowsReversesRows(s, rows, w);
    RowsOfAt(f, rows, w, m);
    RowsOfAt(s, rows, w, m);
    assert RowsOf(f, rows, w)[m] == Reverse(RowsOf(s, rows, w))[m] == RowsOf(s, rows, w)[m];
  }

  /** No row pair to exchange: fewer than two rows, or rows without bytes. */
  lemma FlipRowsTrivial(s: seq<byte>, rows: nat, w: nat)
    requires rows * w <= |s|
    requires rows <= 1 || w == 0
    ensures FlipRows(s, rows, w) == s
  {
    var rs := RowsOf(s, rows, w);
    JoinRowsOf(s, rows, w);
    if w == 0 {
      JoinLength(Reverse(rs), w);
      assert Join(Reverse(rs)) == [];
    } else {
      assert Reverse(rs) == rs;
    }
    assert s == s[..rows * w] + s[rows * w..];
  }

  /** Three rows of two bytes: the top and bottom rows trade places, the
      middle row and the trailing byte stay. */
  lemma FlipRowsExample()
    ensures FlipRows([1, 2, 3, 4, 5, 6, 7], 3, 2) == [5, 6, 3, 4, 1, 2, 7]
  {
    var s: seq<byte> := [1, 2, 3, 4, 5, 6, 7];
    assert s[0..2] == [1, 2] && s[2..4] == [3, 4] && s[4..6] == [5, 6];
    assert RowsOf(s, 1, 2) == [[1, 2]];
    assert RowsOf(s, 2, 2) == [[1, 2], [3, 4]];
    assert RowsOf(s, 3, 2) == [[1, 2], [3, 4], [5, 6]];
    var rev: seq<seq<byte>> := [[5, 6], [3, 4], [1, 2]];
    assert Reverse(RowsOf(s, 3, 2)) == rev;
    assert rev[..1] == [[5, 6]] && rev[..2] == [[5, 6], [3, 4]];
    assert Join(rev[..1]) == [5, 6];
    assert Join(rev[..2]) == [5, 6, 3, 4];
    assert Join(rev) == [5, 6, 3, 4, 1, 2];
  }
}
