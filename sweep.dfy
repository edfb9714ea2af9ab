/**
 * The line clear of `arenaSweep` (tetris.js:7-33), as a specification of
 * the arena and points it produces. The loop scans from the bottom row up
 * while `y > 0`; a full row is taken out, refilled with zeros and put back
 * on top, and the same index is examined again. The award starts at 10 and
 * doubles after every cleared row.
 */
module LineClear {
  import opened Grid

  /** No cell of the row is empty. */
  predicate Full(row: seq<int>)
  {
    forall c :: 0 <= c < |row| ==> row[c] != 0
  }

  /** Every row has the width of row 0, and that width is positive. */
  predicate Uniform(a: Matrix)
  {
    forall r :: 0 <= r < |a| ==> 0 < |a[r]| == |a[0]|
  }

  /** The number of full rows. */
  function FullCount(rows: Matrix): nat
  {
    if rows == [] then 0 else (if Full(rows[0]) then 1 else 0) + FullCount(rows[1..])
  }

  /** The rows that are not full, in their original order. */
  function Kept(rows: Matrix): Matrix
  {
    if rows == [] then [] else (if Full(rows[0]) then [] else [rows[0]]) + Kept(rows[1..])
  }

  function ZeroRows(k: nat, w: nat): (z: Matrix)
    ensures IsGrid(z, k, w) && AllZero(z)
  {
    seq(k, _ => Zeros(w))
  }

  function Pow2(k: nat): (p: nat)
    ensures p >= 1
  {
    if k == 0 then 1 else 2 * Pow2(k - 1)
  }

  /** What a sweep leaves: the new arena and the points it awards. */
  datatype Swept = Swept(arena: Matrix, points: nat)

  /**
   * The loop of `arenaSweep` from index `y` on, with the next award
   * `rowCount * 10`. A full row at `y` is replaced by a zero row on top and
   * `y` is examined again; otherwise the scan moves up. Index 0 is never
   * examined.
   */
  function SweepFrom(a: Matrix, y: int, rowCount: nat): Swept
    requires Uniform(a) && -1 <= y < |a|
    decreases y + 1, FullCount(a[..y + 1])
  {
    if y <= 0 then Swept(a, 0)
    else if Full(a[y]) then
      var next := [Zeros(|a[y]|)] + a[..y] + a[y + 1..];
      ShiftedDown(a, y);
      var rest := SweepFrom(next, y, 2 * rowCount);
      Swept(rest.arena, rowCount * 10 + rest.points)
    else
      SweepFrom(a, y - 1, rowCount)
  }

  /** Taking out full row `y` and putting a zero row on top keeps the arena uniform and removes one full row from rows 0..y. */
  lemma ShiftedDown(a: Matrix, y: int)
    requires Uniform(a) && 0 < y < |a| && Full(a[y])
    ensures var next := [Zeros(|a[y]|)] + a[..y] + a[y + 1..];
      Uniform(next) && |next| == |a| && FullCount(next[..y + 1]) < FullCount(a[..y + 1])
  {
    var next := [Zeros(|a[y]|)] + a[..y] + a[y + 1..];
    assert !Full(next[0]) by { assert next[0][0] == 0; }
    assert next[..y + 1] == [next[0]] + a[..y];
    assert next[..y + 1][1..] == a[..y];
    assert a[..y + 1] == a[..y] + [a[y]];
    FullCountAppend(a[..y], a[y]);
    forall r | 0 <= r < |next|
      ensures 0 < |next[r]| == |next[0]|
    {
      if r > y {
        assert next[r] == a[r];
      } else if r > 0 {
        assert next[r] == a[r - 1];
      }
    }
  }

  /** One full-row pass of the scan, unfolded. */
  lemma SweepFromFull(a: Matrix, y: int, rowCount: nat)
    requires Uniform(a) && 0 < y < |a| && Full(a[y])
    ensures var next := [Zeros(|a[y]|)] + a[..y] + a[y + 1..];
      Uniform(next) && |next| == |a| && FullCount(next[..y + 1]) < FullCount(a[..y + 1]) &&
      SweepFrom(a, y, rowCount) ==
        Swept(SweepFrom(next, y, 2 * rowCount).arena, rowCount * 10 + SweepFrom(next, y, 2 * rowCount).points)
  {
    ShiftedDown(a, y);
  }

  lemma {:induction false} FullCountAppend(s: Matrix, row: seq<int>)
    ensures FullCount(s + [row]) == FullCount(s) + (if Full(row) then 1 else 0)
  {
    if s == [] {
      assert [] + [row] == [row];
    } else {
      assert (s + [row])[1..] == s[1..] + [row];
      FullCountAppend(s[1..], row);
    }
  }

  lemma {:induction false} KeptAppend(s: Matrix, row: seq<int>)
    ensures Kept(s + [row]) == Kept(s) + (if Full(row) then [] else [row])
  {
    if s == [] {
      assert [] + [row] == [row];
    } else {
      assert (s + [row])[1..] == s[1..] + [row];
      KeptAppend(s[1..], row);
    }
  }

  /** With no full row, nothing is dropped. */
  lemma {:induction false} KeptAll(s: Matrix)
    requires FullCount(s) == 0
    ensures Kept(s) == s
  {
    if s != [] {
      KeptAll(s[1..]);
    }
  }

  /** None of the kept rows is full. */
  lemma {:induction false} KeptNotFull(s: Matrix)
    ensures forall r :: 0 <= r < |Kept(s)| ==> !Full(Kept(s)[r])
    ensures |Kept(s)| + FullCount(s) == |s|
  {
    if s != [] {
      KeptNotFull(s[1..]);
    }
  }

  /** How many rows one sweep of `a` clears: none when no row below row 0 is full, otherwise every full row, row 0 included. */
  function ClearedCount(a: Matrix): nat
  {
    if |a| == 0 || FullCount(a[1..]) == 0 then 0 else FullCount(a)
  }

  /** The points for `k` rows cleared in one sweep: 10 + 20 + 40 + ... = 10 * (2^k - 1). */
  function Award(k: nat): nat
  {
    10 * (Pow2(k) - 1)
  }

  /** The right-hand side of the closed form of `SweepFrom(a, y, rowCount)`. */
  function SweepFromResult(a: Matrix, y: int, rowCount: nat): Swept
    requires Uniform(a) && 0 <= y < |a|
  {
    var k := ClearedCount(a[..y + 1]);
    Swept(if k == 0 then a else ZeroRows(k, |a[0]|) + Kept(a[..y + 1]) + a[y + 1..], rowCount * Award(k))
  }

  /**
   * The sweep from index `y` in closed form: rows below `y` stay; rows
   * 0..y lose every full row (row 0 only once some row below it was
   * cleared) and receive as many zero rows on top.
   */
  lemma {:induction false} SweepFromClosedForm(a: Matrix, y: int, rowCount: nat)
    requires Uniform(a) && 0 <= y < |a|
    ensures SweepFrom(a, y, rowCount) == SweepFromResult(a, y, rowCount)
    decreases y, FullCount(a[..y + 1])
  {
    if y == 0 {
      assert a[..y + 1][1..] == [];
    } else if Full(a[y]) {
      var next := [Zeros(|a[y]|)] + a[..y] + a[y + 1..];
      ShiftedDown(a, y);
      SweepFromClosedForm(next, y, 2 * rowCount);
      ClearFullStep(a, y, rowCount);
    } else {
      SweepFromClosedForm(a, y - 1, rowCount);
      SkipStep(a, y, rowCount);
    }
  }

  /** A row that is not full leaves the closed form of the rest of the scan unchanged. */
  lemma SkipStep(a: Matrix, y: int, rowCount: nat)
    requires Uniform(a) && 0 < y < |a| && !Full(a[y])
    ensures SweepFromResult(a, y - 1, rowCount) == SweepFromResult(a, y, rowCount)
  {
    var top := a[..y + 1];
    var top1 := a[..y];
    assert top == top1 + [a[y]];
    FullCountAppend(top1, a[y]);
    KeptAppend(top1, a[y]);
    assert top[1..] == top1[1..] + [a[y]];
    FullCountAppend(top1[1..], a[y]);
    assert a[y..] == [a[y]] + a[y + 1..];
  }

  /** Clearing full row `y` and re-examining `y` with a doubled award matches the closed form. */
  lemma ClearFullStep(a: Matrix, y: int, rowCount: nat)
    requires Uniform(a) && 0 < y < |a| && Full(a[y])
    ensures var next := [Zeros(|a[y]|)] + a[..y] + a[y + 1..];
      Uniform(next) && |next| == |a| &&
      Swept(SweepFromResult(next, y, 2 * rowCount).arena, rowCount * 10 + SweepFromResult(next, y, 2 * rowCount).points)
        == SweepFromResult(a, y, rowCount)
  {
    var next := [Zeros(|a[y]|)] + a[..y] + a[y + 1..];
    ShiftedDown(a, y);
    var k2 := ClearedFullRow(a, y);
    AwardStep(k2, rowCount);
  }

  /**
   * After full row `y` is taken out and a zero row put on top, rows 0..y
   * hold one full row fewer to clear, and the closed-form arena is the same.
   */
  lemma ClearedFullRow(a: Matrix, y: int) returns (k2: nat)
    requires Uniform(a) && 0 < y < |a| && Full(a[y])
    ensures var next := [Zeros(|a[y]|)] + a[..y] + a[y + 1..];
      Uniform(next) && |next| == |a| &&
      k2 == ClearedCount(next[..y + 1]) && ClearedCount(a[..y + 1]) == k2 + 1 &&
      SweepFromResult(next, y, 1).arena == SweepFromResult(a, y, 1).arena
  {
    var next := [Zeros(|a[y]|)] + a[..y] + a[y + 1..];
    ShiftedDown(a, y);
    k2 := FullRowCounts(a, y);
    var top := a[..y + 1];
    var k := k2 + 1;
    var w := |a[0]|;
    assert top == a[..y] + [a[y]];
    KeptAppend(a[..y], a[y]);
    assert next[0] == Zeros(w);
    if k2 == 0 {
      KeptAll(a[..y]);
      assert Kept(top) == a[..y];
      assert ZeroRows(1, w) == [Zeros(|a[y]|)];
    } else {
      var top2 := next[..y + 1];
      assert top2 == [next[0]] + a[..y];
      assert !Full(top2[0]) by { assert top2[0][0] == 0; }
      assert Kept(top2) == [next[0]] + Kept(a[..y]);
      assert ZeroRows(k2, w) + [Zeros(w)] == ZeroRows(k, w);
      assert next[y + 1..] == a[y + 1..];
    }
  }

  /** The counts behind ClearedFullRow: rows 0..y hold one full row fewer once row `y` is taken out. */
  lemma FullRowCounts(a: Matrix, y: int) returns (k2: nat)
    requires Uniform(a) && 0 < y < |a| && Full(a[y])
    ensures var next := [Zeros(|a[y]|)] + a[..y] + a[y + 1..];
      k2 == ClearedCount(next[..y + 1]) == FullCount(a[..y]) && ClearedCount(a[..y + 1]) == k2 + 1
  {
    var next := [Zeros(|a[y]|)] + a[..y] + a[y + 1..];
    var top := a[..y + 1];
    var top2 := next[..y + 1];
    assert top2 == [Zeros(|a[y]|)] + a[..y];
    assert top2[1..] == a[..y];
    assert !Full(top2[0]) by { assert top2[0][0] == 0; }
    k2 := ClearedCount(top2);
    assert top == a[..y] + [a[y]];
    FullCountAppend(a[..y], a[y]);
    assert top[1..] == a[1..y] + [a[y]];
    FullCountAppend(a[1..y], a[y]);
  }

  /** One more cleared row: the first award plus the doubled award for the rest is the award for all. */
  lemma AwardStep(k: nat, rowCount: nat)
    ensures rowCount * 10 + 2 * rowCount * Award(k) == rowCount * Award(k + 1)
  {
    calc {
      rowCount * 10 + 2 * rowCount * Award(k);
      rowCount * (10 + 2 * Award(k));
      rowCount * Award(k + 1);
    }
  }

  /**
   * `arenaSweep` on arena `a`: every full row at index 1 or below goes, and
   * so does a full row 0 once anything below it was cleared; the survivors
   * keep their order under as many new zero rows; the score rises by
   * 10 * (2^k - 1) for k cleared rows.
   */
  function Sweep(a: Matrix): (r: Swept)
    requires Uniform(a)
    ensures var k := ClearedCount(a);
      r.arena == (if k == 0 then a else ZeroRows(k, |a[0]|) + Kept(a)) && r.points == Award(k)
  {
    if |a| == 0 then Swept(a, 0)
    else
      SweepFromClosedForm(a, |a| - 1, 1);
      assert a[..|a|] == a && a[|a|..] == [];
      SweepFrom(a, |a| - 1, 1)
  }

  /** A sweep keeps the arena's height and width. */
  lemma {:induction false} SweepKeepsShape(a: Matrix, h: nat, w: nat)
    requires IsGrid(a, h, w) && w > 0
    ensures IsGrid(Sweep(a).arena, h, w)
  {
    if ClearedCount(a) > 0 {
      KeptNotFull(a);
      KeptWidth(a, w);
    }
  }

  lemma {:induction false} KeptWidth(s: Matrix, w: nat)
    requires forall r :: 0 <= r < |s| ==> |s[r]| == w
    ensures forall r :: 0 <= r < |Kept(s)| ==> |Kept(s)[r]| == w
  {
    if s != [] {
      KeptWidth(s[1..], w);
    }
  }

  /** After a sweep, no row other than row 0 is full. */
  lemma {:induction false} SweepLeavesNoFullRow(a: Matrix)
    requires Uniform(a)
    ensures forall r :: 1 <= r < |Sweep(a).arena| ==> !Full(Sweep(a).arena[r])
  {
    var k := ClearedCount(a);
    if k == 0 {
      if |a| > 0 {
        forall r | 1 <= r < |a| ensures !Full(a[r]) {
          NoneFull(a[1..], r - 1);
        }
      }
    } else {
      KeptNotFull(a);
      var res := Sweep(a).arena;
      forall r | 1 <= r < |res| ensures !Full(res[r]) {
        if r < k {
          assert res[r][0] == 0;
        } else {
          assert res[r] == Kept(a)[r - k];
        }
      }
    }
  }

  lemma {:induction false} NoneFull(s: Matrix, r: int)
    requires FullCount(s) == 0 && 0 <= r < |s|
    ensures !Full(s[r])
  {
    if r > 0 {
      NoneFull(s[1..], r - 1);
    }
  }

  /** An arena whose only full row is row 0 is left as it is, and no points are awarded. */
  lemma OnlyTopRowFull(a: Matrix)
    requires Uniform(a) && |a| > 0 && Full(a[0])
    requires forall r :: 1 <= r < |a| ==> !Full(a[r])
    ensures Sweep(a) == Swept(a, 0)
  {
    NoFullRows(a[1..]);
  }

  lemma {:induction false} NoFullRows(s: Matrix)
    requires forall r :: 0 <= r < |s| ==> !Full(s[r])
    ensures FullCount(s) == 0
  {
    if s != [] {
      NoFullRows(s[1..]);
    }
  }

  lemma {:induction false} AllFullRows(s: Matrix)
    requires forall r :: 0 <= r < |s| ==> Full(s[r])
    ensures FullCount(s) == |s| && Kept(s) == []
  {
    if s != [] {
      AllFullRows(s[1..]);
    }
  }

  /**
   * An arena of two or more rows that are all full is cleared completely,
   * row 0 included, for 10 * (2^h - 1) points: row 0's content is examined
   * once it has moved below index 0.
   */
  lemma AllFullArena(a: Matrix)
    requires Uniform(a) && |a| >= 2
    requires forall r :: 0 <= r < |a| ==> Full(a[r])
    ensures Sweep(a) == Swept(ZeroRows(|a|, |a[0]|), Award(|a|))
  {
    AllFullRows(a);
    AllFullRows(a[1..]);
  }

  /**
   * Rows full, full, partial, empty, full (top to bottom): the three full
   * rows go, row 0 included once it has moved down, the partial and the
   * empty row keep their order under three zero rows, and 10 + 20 + 40 = 70
   * points are awarded.
   */
  lemma SweepExample()
    ensures Sweep([[1, 1], [2, 2], [0, 3], [0, 0], [4, 4]]) ==
      Swept([[0, 0], [0, 0], [0, 0], [0, 3], [0, 0]], 70)
  {
    ExampleRows();
    assert Award(3) == 70;
    var z := ZeroRows(3, 2);
    assert z[0] == z[1] == z[2] == Zeros(2) == [0, 0];
    assert z == [[0, 0], [0, 0], [0, 0]];
  }

  lemma ExampleRows()
    ensures ClearedCount([[1, 1], [2, 2], [0, 3], [0, 0], [4, 4]]) == 3
    ensures Kept([[1, 1], [2, 2], [0, 3], [0, 0], [4, 4]]) == [[0, 3], [0, 0]]
  {
    var a: Matrix := [[1, 1], [2, 2], [0, 3], [0, 0], [4, 4]];
    assert a[2][0] == 0 && a[3][0] == 0;
    assert Full(a[0]) && Full(a[1]) && !Full(a[2]) && !Full(a[3]) && Full(a[4]);
    var t := a[1..][1..];
    assert t[1..][1..] == [a[4]] && t[1..][1..][1..] == [];
    assert FullCount(t[1..][1..]) == 1 && FullCount(t) == 1;
    assert FullCount(a[1..]) == 2 && FullCount(a) == 3;
    assert Kept(t[1..][1..]) == [];
    assert Kept(t) == [[0, 3], [0, 0]];
  }

  /** One cleared row awards 10, two 30, three 70, four 150. */
  lemma AwardTable()
    ensures Award(0) == 0 && Award(1) == 10 && Award(2) == 30 && Award(3) == 70 && Award(4) == 150
  {
  }
}
