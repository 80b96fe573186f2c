/** The integer offsets of a circular window, in the order the nested offset loops visit them. */
module Lattice {
  import opened Interleaving

  /** An offset from the centre of a window: `di` rows down, `dj` columns right. */
  datatype Offset = Offset(di: int, dj: int)

  function Abs(x: int): nat
  {
    if x < 0 then -x else x
  }

  /** `n * n`, built up one odd number at a time so that it stays linear arithmetic. */
  function Sq(n: nat): nat
  {
    if n == 0 then 0 else Sq(n - 1) + 2 * n - 1
  }

  lemma {:induction false} SqIsProduct(n: nat)
    ensures Sq(n) == n * n
  {
    if n > 0 {
      SqIsProduct(n - 1);
    }
  }

  /** Squared distance of an offset from the centre. */
  function Dist2(i: int, j: int): nat
  {
    Sq(Abs(i)) + Sq(Abs(j))
  }

  lemma SqOfAbs(x: int)
    ensures Sq(Abs(x)) == x * x
  {
    SqIsProduct(Abs(x));
    if x < 0 {
      assert Abs(x) * Abs(x) == (-x) * (-x) == x * x;
    }
  }

  lemma Dist2IsSumOfSquares(i: int, j: int)
    ensures Dist2(i, j) == i * i + j * j
  {
    SqOfAbs(i);
    SqOfAbs(j);
  }

  /** The offset lies within distance `r` of the centre. */
  predicate InDisc(i: int, j: int, r: nat)
  {
    Dist2(i, j) <= Sq(r)
  }

  predicate InBox(p: Offset, r: nat)
  {
    -(r as int) <= p.di <= r && -(r as int) <= p.dj <= r
  }

  /** Row-major order: an earlier row, or the same row and an earlier column. */
  predicate Before(a: Offset, b: Offset)
  {
    a.di < b.di || (a.di == b.di && a.dj < b.dj)
  }

  predicate Ascending(s: seq<Offset>)
  {
    forall k, l :: 0 <= k < l < |s| ==> Before(s[k], s[l])
  }

  /** The in-disc offsets of row `i`, columns `-r` up to but excluding `j`. */
  function Row(r: nat, i: int, j: int): seq<Offset>
    requires -(r as int) <= j <= r + 1
    decreases j + r
  {
    if j == -(r as int) then []
    else Row(r, i, j - 1) + (if InDisc(i, j - 1, r) then [Offset(i, j - 1)] else [])
  }

  /** The in-disc offsets of rows `-r` up to but excluding `i`, each row left to right. */
  function Rows(r: nat, i: int): seq<Offset>
    requires -(r as int) <= i <= r + 1
    decreases i + r
  {
    if i == -(r as int) then [] else Rows(r, i - 1) + Row(r, i - 1, r + 1)
  }

  /** Every offset of the `(2r + 1)`-square window that lies in the disc of radius `r`, row-major. */
  function LatticePoints(r: nat): seq<Offset>
  {
    Rows(r, r + 1)
  }

  /** Row `i` up to column `j` holds exactly the in-disc offsets of that stretch. */
  lemma {:induction false} RowMembers(r: nat, i: int, j: int, p: Offset)
    requires -(r as int) <= j <= r + 1
    ensures p in Row(r, i, j) <==> p.di == i && -(r as int) <= p.dj < j && InDisc(p.di, p.dj, r)
    decreases j + r
  {
    if j > -(r as int) {
      RowMembers(r, i, j - 1, p);
    }
  }

  /** Rows below `i` hold exactly the in-disc offsets of those rows. */
  lemma {:induction false} RowsMembers(r: nat, i: int, p: Offset)
    requires -(r as int) <= i <= r + 1
    ensures p in Rows(r, i) <==> -(r as int) <= p.di < i && -(r as int) <= p.dj <= r && InDisc(p.di, p.dj, r)
    decreases i + r
  {
    if i > -(r as int) {
      RowsMembers(r, i - 1, p);
      RowMembers(r, i - 1, r + 1, p);
    }
  }

  /** An offset is visited exactly when it lies in the square window and in the disc. */
  lemma LatticeMembers(r: nat, p: Offset)
    ensures p in LatticePoints(r) <==> InBox(p, r) && InDisc(p.di, p.dj, r)
  {
    RowsMembers(r, r + 1, p);
  }

  /** Everything visited lies in the square window. */
  lemma LatticeInBox(r: nat)
    ensures forall k :: 0 <= k < |LatticePoints(r)| ==> InBox(LatticePoints(r)[k], r)
  {
    forall k | 0 <= k < |LatticePoints(r)| ensures InBox(LatticePoints(r)[k], r) {
      LatticeMembers(r, LatticePoints(r)[k]);
    }
  }

  lemma AscendingAppend(a: seq<Offset>, b: seq<Offset>)
    requires Ascending(a) && Ascending(b)
    requires forall k, l :: 0 <= k < |a| && 0 <= l < |b| ==> Before(a[k], b[l])
    ensures Ascending(a + b)
  {
  }

  /** A row's offsets all lie in that row, left of column `j`, left to right. */
  lemma {:induction false} RowAscending(r: nat, i: int, j: int)
    requires -(r as int) <= j <= r + 1
    ensures Ascending(Row(r, i, j))
    ensures forall k :: 0 <= k < |Row(r, i, j)| ==> Row(r, i, j)[k].di == i && Row(r, i, j)[k].dj < j
    decreases j + r
  {
    if j > -(r as int) {
      RowAscending(r, i, j - 1);
      AscendingAppend(Row(r, i, j - 1), if InDisc(i, j - 1, r) then [Offset(i, j - 1)] else []);
    }
  }

  /** Rows below `i` come out in row-major order, all above row `i`. */
  lemma {:induction false} RowsAscending(r: nat, i: int)
    requires -(r as int) <= i <= r + 1
    ensures Ascending(Rows(r, i))
    ensures forall k :: 0 <= k < |Rows(r, i)| ==> Rows(r, i)[k].di < i
    decreases i + r
  {
    if i > -(r as int) {
      RowsAscending(r, i - 1);
      RowAscending(r, i - 1, r + 1);
      AscendingAppend(Rows(r, i - 1), Row(r, i - 1, r + 1));
    }
  }

  /** The offsets are visited in strictly increasing row-major order, so none twice. */
  lemma LatticeAscending(r: nat)
    ensures Ascending(LatticePoints(r))
  {
    RowsAscending(r, r + 1);
  }

  /** A row contributes at most one offset per column. */
  lemma {:induction false} RowSize(r: nat, i: int, j: int)
    requires -(r as int) <= j <= r + 1
    ensures |Row(r, i, j)| <= j + r
    decreases j + r
  {
    if j > -(r as int) {
      RowSize(r, i, j - 1);
    }
  }

  /** `i + r` rows contribute at most `i + r` whole rows of the window. */
  lemma {:induction false} RowsSize(r: nat, i: int)
    requires -(r as int) <= i <= r + 1
    ensures |Rows(r, i)| <= Slot(i + r, 2 * r + 1, 0)
    decreases i + r
  {
    if i > -(r as int) {
      RowsSize(r, i - 1);
      RowSize(r, i - 1, r + 1);
    }
  }

  /** Number of entries of the `(2r + 1)`-square window. */
  function WindowLen(r: nat): (n: nat)
    ensures n >= 2 * r + 1
  {
    Slot(2 * r + 1, 2 * r + 1, 0)
  }

  lemma WindowLenIsSquare(r: nat)
    ensures WindowLen(r) == (2 * r + 1) * (2 * r + 1)
  {
    SlotIsOffset(2 * r + 1, 2 * r + 1, 0);
  }

  /** At least the centre and at most the whole square window are visited. */
  lemma LatticeCount(r: nat)
    ensures 1 <= |LatticePoints(r)| <= WindowLen(r)
  {
    RowsSize(r, r + 1);
    assert r + 1 + r == 2 * r + 1;
    assert |LatticePoints(r)| <= WindowLen(r);
    LatticeMembers(r, Offset(0, 0));
  }

  /** Radius 1 visits the centre and its four edge neighbours, top to bottom. */
  lemma LatticeRadiusOne()
    ensures LatticePoints(1) == [Offset(-1, 0), Offset(0, -1), Offset(0, 0), Offset(0, 1), Offset(1, 0)]
  {
  }

  /** Position of an offset in the row-major window of radius `r`. */
  function WindowIndex(r: nat, p: Offset): (t: nat)
    requires InBox(p, r)
    ensures t < WindowLen(r)
  {
    SlotBelow(p.di + r, 2 * r + 1, 2 * r + 1, p.dj + r);
    Slot(p.di + r, 2 * r + 1, p.dj + r)
  }

  /** Position of the centre: the middle entry of the middle row. */
  function Centre(r: nat): (t: nat)
    ensures t < WindowLen(r)
    ensures t == r * (2 * r + 1) + r
  {
    SlotIsOffset(r, 2 * r + 1, r);
    WindowIndex(r, Offset(0, 0))
  }

  /** Radius 1 visits five offsets. */
  lemma LatticeCountRadiusOne()
    ensures |LatticePoints(1)| == 5
  {
    LatticeRadiusOne();
  }

  /** Position 0 of the window is its top-left corner. */
  lemma CornerIndex(r: nat, p: Offset)
    requires InBox(p, r) && WindowIndex(r, p) == 0
    ensures p == Offset(-(r as int), -(r as int))
  {
  }

  /** The corners of the window lie outside the disc. */
  lemma CornerOutsideDisc(r: nat)
    requires r >= 1
    ensures !InDisc(-(r as int), -(r as int), r)
  {
    assert Sq(r) >= 1;
  }

  /** The centre is visited. */
  lemma CentreInDisc(r: nat)
    ensures InBox(Offset(0, 0), r) && InDisc(0, 0, r) && Centre(r) == WindowIndex(r, Offset(0, 0))
  {
  }

  /** Distinct offsets of the window sit at distinct positions. */
  lemma WindowIndexInjective(r: nat, p: Offset, q: Offset)
    requires InBox(p, r) && InBox(q, r) && WindowIndex(r, p) == WindowIndex(r, q)
    ensures p == q
  {
    SlotSplits(p.di + r, 2 * r + 1, p.dj + r);
    SlotSplits(q.di + r, 2 * r + 1, q.dj + r);
  }

  /** The mirror images of a visited offset in either coordinate are visited too, at the same distance. */
  lemma LatticeMirror(r: nat, k: nat) returns (l1: nat, l2: nat)
    requires k < |LatticePoints(r)|
    ensures l1 < |LatticePoints(r)| && l2 < |LatticePoints(r)|
    ensures LatticePoints(r)[l1] == Offset(-LatticePoints(r)[k].di, LatticePoints(r)[k].dj)
    ensures LatticePoints(r)[l2] == Offset(LatticePoints(r)[k].di, -LatticePoints(r)[k].dj)
    ensures Dist2(LatticePoints(r)[l1].di, LatticePoints(r)[l1].dj) == Dist2(LatticePoints(r)[k].di, LatticePoints(r)[k].dj)
    ensures Dist2(LatticePoints(r)[l2].di, LatticePoints(r)[l2].dj) == Dist2(LatticePoints(r)[k].di, LatticePoints(r)[k].dj)
  {
    var pts := LatticePoints(r);
    var p := pts[k];
    LatticeMembers(r, p);
    LatticeMembers(r, Offset(-p.di, p.dj));
    LatticeMembers(r, Offset(p.di, -p.dj));
    l1 :| 0 <= l1 < |pts| && pts[l1] == Offset(-p.di, p.dj);
    l2 :| 0 <= l2 < |pts| && pts[l2] == Offset(p.di, -p.dj);
  }
}
