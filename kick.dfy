/**
 * The kick search of `playerRotate` (tetris.js:186-201). After turning the
 * piece, while it collides, x is shifted by the offsets 1, -2, 3, -4, ...;
 * the next offset is computed right after each shift, and once it exceeds
 * the matrix width the search gives up, before the position just reached
 * has been tested.
 *
 * The search only asks whether the turned piece collides at a given x (its
 * row and the arena stay fixed), so it is stated over that test, `blocked`.
 */
module KickSearch {
  /** How a kick search ends: at a free x, or given up at the (untested) x last reached. */
  datatype KickEnd = Settled(x: int) | Abandoned(x: int)

  function Abs(v: int): nat
  {
    if v < 0 then -v else v
  }

  /**
   * The `while (collide(arena, player))` loop from column `x`, with `offset`
   * the shift to apply next and `width` the value of `player.matrix[0].length`.
   */
  function KickFrom(blocked: int -> bool, x: int, offset: int, width: nat): KickEnd
    requires 1 <= width && 1 <= Abs(offset) <= width + 1 && (offset > 0 ==> offset <= width)
    decreases width + 1 - Abs(offset)
  {
    if !blocked(x) then Settled(x)
    else
      var next := -(offset + (if offset > 0 then 1 else -1));
      if next > width then Abandoned(x + offset)
      else KickFrom(blocked, x + offset, next, width)
  }

  /** One pass of the loop: at a blocked x the search shifts by `offset` and goes on with the next offset, unless that exceeds the width. */
  lemma KickStep(blocked: int -> bool, x: int, offset: int, width: nat)
    requires 1 <= width && 1 <= Abs(offset) <= width + 1 && (offset > 0 ==> offset <= width)
    requires blocked(x)
    ensures var next := -(offset + (if offset > 0 then 1 else -1));
      KickFrom(blocked, x, offset, width) ==
        if next > width then Abandoned(x + offset) else KickFrom(blocked, x + offset, next, width)
  {
  }

  /** The k-th shift applied: 1, -2, 3, -4, ... */
  function Offset(k: nat): int
  {
    if k % 2 == 1 then k else -(k as int)
  }

  /** The x displacement after k shifts, a prefix sum of 1, -2, 3, -4, ...: 0, 1, -1, 2, -2, ... */
  function Nudge(k: nat): int
  {
    if k == 0 then 0 else Nudge(k - 1) + Offset(k)
  }

  /** The prefix sums alternate around the start: +(k+1)/2 after an odd count, -k/2 after an even one. */
  lemma {:induction false} NudgeClosedForm(k: nat)
    ensures Nudge(k) == if k % 2 == 1 then (k + 1) / 2 else -(k / 2)
  {
    if k > 0 {
      NudgeClosedForm(k - 1);
    }
  }

  /** The number of positions tested before the search gives up: the least even number >= width. */
  function Tries(width: nat): (t: nat)
    ensures width <= t <= width + 1 && t % 2 == 0
  {
    if width % 2 == 0 then width else width + 1
  }

  /**
   * Reference definition: test the columns x0 + Nudge(j) for j from `k` up
   * to Tries(width) - 1 in turn; settle on the first free one, else give up
   * at x0 + Nudge(Tries(width)).
   */
  function Search(blocked: int -> bool, x0: int, width: nat, k: nat): KickEnd
    requires k <= Tries(width)
    decreases Tries(width) - k
  {
    if k == Tries(width) then Abandoned(x0 + Nudge(k))
    else if !blocked(x0 + Nudge(k)) then Settled(x0 + Nudge(k))
    else Search(blocked, x0, width, k + 1)
  }

  /** Every column tried from shift `k` up to (not including) shift `j` is blocked. */
  ghost predicate BlockedFrom(blocked: int -> bool, x0: int, k: nat, j: nat)
  {
    forall i :: k <= i < j ==> blocked(x0 + Nudge(i))
  }

  /** A settled reference search ends at the first free column among the tries from `k` on. */
  lemma {:induction false} SearchSettled(blocked: int -> bool, x0: int, width: nat, k: nat) returns (j: nat)
    requires k <= Tries(width) && Search(blocked, x0, width, k).Settled?
    ensures var x := Search(blocked, x0, width, k).x;
      !blocked(x) && k <= j < Tries(width) && x == x0 + Nudge(j) && BlockedFrom(blocked, x0, k, j)
    decreases Tries(width) - k
  {
    assert k < Tries(width);
    if blocked(x0 + Nudge(k)) {
      assert Search(blocked, x0, width, k) == Search(blocked, x0, width, k + 1);
      j := SearchSettled(blocked, x0, width, k + 1);
    } else {
      j := k;
    }
  }

  /** An abandoned reference search found every tried column from `k` on blocked, and stops one shift past the last. */
  lemma {:induction false} SearchAbandoned(blocked: int -> bool, x0: int, width: nat, k: nat)
    requires k <= Tries(width) && Search(blocked, x0, width, k).Abandoned?
    ensures Search(blocked, x0, width, k).x == x0 + Nudge(Tries(width))
    ensures forall i :: k <= i < Tries(width) ==> blocked(x0 + Nudge(i))
    decreases Tries(width) - k
  {
    if k < Tries(width) {
      SearchAbandoned(blocked, x0, width, k + 1);
    }
  }

  /** The offset bookkeeping of one pass: the loop's next offset is Offset(k + 2), and it exceeds width exactly after the last try. */
  lemma OffsetStep(width: nat, k: nat)
    requires 1 <= width && k < Tries(width)
    ensures 1 <= Abs(Offset(k + 1)) <= width + 1 && (Offset(k + 1) > 0 ==> Offset(k + 1) <= width)
    ensures -(Offset(k + 1) + (if Offset(k + 1) > 0 then 1 else -1)) == Offset(k + 2)
    ensures Offset(k + 2) > width <==> k + 1 == Tries(width)
  {
    if k % 2 == 0 {
      assert (k + 1) % 2 == 1 && (k + 2) % 2 == 0;
    } else {
      assert (k + 1) % 2 == 0 && (k + 2) % 2 == 1;
    }
  }

  /** After k shifts the loop stands at x0 + Nudge(k) with Offset(k + 1) to apply next, and continues as the search from k. */
  lemma {:induction false} KickFromAt(blocked: int -> bool, x0: int, width: nat, k: nat)
    requires 1 <= width && k < Tries(width)
    ensures 1 <= Abs(Offset(k + 1)) <= width + 1 && (Offset(k + 1) > 0 ==> Offset(k + 1) <= width)
    ensures KickFrom(blocked, x0 + Nudge(k), Offset(k + 1), width) == Search(blocked, x0, width, k)
    decreases Tries(width) - k
  {
    OffsetStep(width, k);
    var x := x0 + Nudge(k);
    var offset := Offset(k + 1);
    if !blocked(x) {
      assert KickFrom(blocked, x, offset, width) == Settled(x);
      assert Search(blocked, x0, width, k) == Settled(x);
    } else {
      assert x + Offset(k + 1) == x0 + Nudge(k + 1);
      KickStep(blocked, x, Offset(k + 1), width);
      assert Search(blocked, x0, width, k) == Search(blocked, x0, width, k + 1);
      if k + 1 < Tries(width) {
        KickFromAt(blocked, x0, width, k + 1);
      } else {
        assert Search(blocked, x0, width, k + 1) == Abandoned(x0 + Nudge(k + 1));
      }
    }
  }

  /**
   * What the kick search promises: a piece free where it stands keeps its x;
   * a settled search ends free, at a prefix sum of 1, -2, 3, ... among the
   * first Tries(width) <= width + 1 positions, every earlier one colliding;
   * an abandoned search found all of those positions colliding.
   */
  lemma KickOutcome(blocked: int -> bool, x0: int, width: nat)
    requires 1 <= width
    ensures var r := KickFrom(blocked, x0, 1, width);
      (!blocked(x0) ==> r == Settled(x0)) &&
      (r.Settled? ==>
        !blocked(r.x) &&
        exists j :: 0 <= j < Tries(width) <= width + 1 && r.x == x0 + Nudge(j) &&
          forall i :: 0 <= i < j ==> blocked(x0 + Nudge(i))) &&
      (r.Abandoned? ==>
        Tries(width) <= width + 1 &&
        forall i :: 0 <= i < Tries(width) ==> blocked(x0 + Nudge(i)))
  {
    KickFromAt(blocked, x0, width, 0);
    if KickFrom(blocked, x0, 1, width).Settled? {
      var j := SearchSettled(blocked, x0, width, 0);
    } else {
      SearchAbandoned(blocked, x0, width, 0);
    }
  }

  /** The first columns the search tests: x0, x0+1, x0-1, x0+2, x0-2. */
  lemma TestedColumns()
    ensures Nudge(0) == 0 && Nudge(1) == 1 && Nudge(2) == -1 && Nudge(3) == 2 && Nudge(4) == -2
  {
  }
}
