/**
 * The state the client's message handler and input handlers keep (web/main.ts): the sparse
 * clue index, the "clues changed" flag, the table of rendered blocks, the selection, and the
 * scans that find the extent of the selected word.
 */
module Client {
  import opened Wrappers
  import opened State
  import GraphicQuad

  /** A clue fragment of a sync_block message, at a position local to that block. */
  datatype Clue = Clue(x: int, y: int, dir: int, text: string)

  /** A decoded sync_block message (its decoder is not part of this model). */
  datatype NetSyncBlock = NetSyncBlock(x: int, y: int, block: seq<int>, clues: seq<Clue>)

  /** An entry of the clue index: a global position and its optional across and down clues. */
  datatype ClueEntry = ClueEntry(pos: Point, hor: Option<Clue>, ver: Option<Clue>)

  datatype Direction = Horizontal | Vertical

  /** `isRectangleEqual`: field-by-field comparison. */
  function IsRectangleEqual(a: Rectangle, b: Rectangle): (r: bool)
    ensures r <==> a == b
  {
    a.x == b.x && a.y == b.y && a.width == b.width && a.height == b.height
  }

  // ---------------------------------------------------------------------------
  // The clue merge, as functions of the clue index

  /**
   * The global position a fragment is filed under: its local offset plus the block
   * coordinates, which are not scaled by the block size.
   */
  function GlobalPos(c: Clue, sb: NetSyncBlock): (p: Point)
    ensures p.x - sb.x == c.x && p.y - sb.y == c.y
  {
    Point(c.x + sb.x, c.y + sb.y)
  }

  predicate MatchesAt(e: Option<ClueEntry>, pos: Point)
  {
    e.Some? && e.value.pos == pos
  }

  /** The entry with the fragment's direction field set: `hor` for 0, `ver` for anything else. */
  function WithClue(e: ClueEntry, c: Clue): (r: ClueEntry)
    ensures r.pos == e.pos
    ensures c.dir == 0 ==> r.hor == Some(c) && r.ver == e.ver
    ensures c.dir != 0 ==> r.ver == Some(c) && r.hor == e.hor
  {
    if c.dir == 0 then e.(hor := Some(c)) else e.(ver := Some(c))
  }

  /** The entry made for an unmatched fragment: `hor` only for 0, `ver` only for 1. */
  function NewEntry(pos: Point, c: Clue): (r: ClueEntry)
    ensures r.pos == pos
    ensures r.hor.Some? ==> r.hor == Some(c)
    ensures r.ver.Some? ==> r.ver == Some(c)
  {
    ClueEntry(pos, if c.dir == 0 then Some(c) else None, if c.dir == 1 then Some(c) else None)
  }

  function UpdateSlot(e: Option<ClueEntry>, pos: Point, c: Clue): Option<ClueEntry>
  {
    if MatchesAt(e, pos) then Some(WithClue(e.value, c)) else e
  }

  /** Every entry at `pos` gets the fragment; every other slot stays as it was. */
  function UpdateMatching(s: seq<Option<ClueEntry>>, pos: Point, c: Clue): (r: seq<Option<ClueEntry>>)
    ensures |r| == |s|
  {
    seq(|s|, i requires 0 <= i < |s| => UpdateSlot(s[i], pos, c))
  }

  predicate AnyMatch(s: seq<Option<ClueEntry>>, pos: Point)
  {
    exists i :: 0 <= i < |s| && MatchesAt(s[i], pos)
  }

  /** The highest index of an undefined slot, or -1 when every slot is defined. */
  function LastHole(s: seq<Option<ClueEntry>>): (r: int)
    ensures -1 <= r < |s|
    ensures r >= 0 ==> s[r].None?
    ensures forall k :: r < k < |s| ==> s[k].Some?
  {
    if s == [] then -1
    else if s[|s| - 1].None? then |s| - 1
    else LastHole(s[..|s| - 1])
  }

  /** The index after one fragment at global position `pos` has been merged. */
  function MergeClue(s: seq<Option<ClueEntry>>, pos: Point, c: Clue): (r: seq<Option<ClueEntry>>)
    ensures |r| == (if !AnyMatch(s, pos) && LastHole(s) == -1 then |s| + 1 else |s|)
    ensures forall i :: 0 <= i < |s| && s[i].Some? && s[i].value.pos != pos ==> r[i] == s[i]
  {
    if AnyMatch(s, pos) then UpdateMatching(s, pos, c)
    else if LastHole(s) == -1 then s + [Some(NewEntry(pos, c))]
    else s[LastHole(s) := Some(NewEntry(pos, c))]
  }

  /** The index after all fragments of a message, and whether any of them was new. */
  function MergeAll(s: seq<Option<ClueEntry>>, sb: NetSyncBlock, from: nat): (r: (seq<Option<ClueEntry>>, bool))
    requires from <= |sb.clues|
    ensures |s| <= |r.0| <= |s| + (|sb.clues| - from)
    ensures !r.1 ==> |r.0| == |s|
    decreases |sb.clues| - from
  {
    if from == |sb.clues| then (s, false)
    else
      var pos := GlobalPos(sb.clues[from], sb);
      var rest := MergeAll(MergeClue(s, pos, sb.clues[from]), sb, from + 1);
      (rest.0, rest.1 || !AnyMatch(s, pos))
  }

  // ---------------------------------------------------------------------------
  // What the merge guarantees

  /** A fragment that matches changes only the matching entries' field of its direction. */
  lemma MergeMatched(s: seq<Option<ClueEntry>>, pos: Point, c: Clue, k: int)
    requires AnyMatch(s, pos) && 0 <= k < |s|
    ensures |MergeClue(s, pos, c)| == |s|
    ensures !MatchesAt(s[k], pos) ==> MergeClue(s, pos, c)[k] == s[k]
    ensures MatchesAt(s[k], pos) ==>
      var e, e' := s[k].value, MergeClue(s, pos, c)[k];
      && e'.Some? && e'.value.pos == e.pos
      && (c.dir == 0 ==> e'.value.hor == Some(c) && e'.value.ver == e.ver)
      && (c.dir != 0 ==> e'.value.ver == Some(c) && e'.value.hor == e.hor)
  {
  }

  /**
   * A fragment with no entry at its position is stored in the highest undefined slot, or
   * appended; no defined entry is touched.
   */
  lemma MergeUnmatched(s: seq<Option<ClueEntry>>, pos: Point, c: Clue)
    requires !AnyMatch(s, pos)
    ensures var r := MergeClue(s, pos, c);
      && |s| <= |r| <= |s| + 1
      && (|r| == |s| + 1 <==> forall k :: 0 <= k < |s| ==> s[k].Some?)
      && (forall k :: 0 <= k < |s| && s[k].Some? ==> r[k] == s[k])
      && (LastHole(s) >= 0 ==>
            && r[LastHole(s)] == Some(NewEntry(pos, c))
            && (forall k :: 0 <= k < |s| && k != LastHole(s) ==> r[k] == s[k]))
      && (LastHole(s) == -1 ==> r == s + [Some(NewEntry(pos, c))])
  {
    var h := LastHole(s);
    if h == -1 {
      forall k | 0 <= k < |s| ensures s[k].Some? { }
    } else {
      assert s[h].None?;
    }
  }

  /** The new entry holds the fragment as `hor` exactly when dir is 0, as `ver` exactly when 1. */
  lemma NewEntryFields(pos: Point, c: Clue)
    ensures NewEntry(pos, c).pos == pos
    ensures NewEntry(pos, c).hor.Some? <==> c.dir == 0
    ensures NewEntry(pos, c).ver.Some? <==> c.dir == 1
    ensures c.dir != 0 && c.dir != 1 ==> NewEntry(pos, c) == ClueEntry(pos, None, None)
  {
  }

  /** The number of defined entries at a position. */
  function CountAt(s: seq<Option<ClueEntry>>, pos: Point): (n: nat)
    ensures n == 0 <==> !AnyMatch(s, pos)
  {
    if s == [] then 0
    else
      var n := CountAt(s[..|s| - 1], pos) + if MatchesAt(s[|s| - 1], pos) then 1 else 0;
      assert n == 0 <==> !AnyMatch(s, pos) by {
        if AnyMatch(s, pos) {
          var i :| 0 <= i < |s| && MatchesAt(s[i], pos);
          if i < |s| - 1 { assert MatchesAt(s[..|s| - 1][i], pos); }
        } else {
          var p := s[..|s| - 1];
          assert !AnyMatch(p, pos) by {
            forall i | 0 <= i < |p| ensures !MatchesAt(p[i], pos) {
              assert p[i] == s[i];
            }
          }
        }
      }
      n
  }

  /** Counting is per slot, so it follows slot-wise changes. */
  lemma {:induction false} CountAtSlotwise(s: seq<Option<ClueEntry>>, r: seq<Option<ClueEntry>>, pos: Point)
    requires |s| == |r|
    requires forall k :: 0 <= k < |s| ==> (MatchesAt(s[k], pos) <==> MatchesAt(r[k], pos))
    ensures CountAt(r, pos) == CountAt(s, pos)
  {
    if s != [] {
      CountAtSlotwise(s[..|s| - 1], r[..|r| - 1], pos);
    }
  }

  lemma {:induction false} CountAtReplaceHole(s: seq<Option<ClueEntry>>, h: nat, e: ClueEntry, pos: Point)
    requires h < |s| && s[h].None?
    ensures CountAt(s[h := Some(e)], pos) == CountAt(s, pos) + (if e.pos == pos then 1 else 0)
  {
    var r := s[h := Some(e)];
    if h == |s| - 1 {
      assert r[..|r| - 1] == s[..|s| - 1];
    } else {
      assert r[..|r| - 1] == s[..|s| - 1][h := Some(e)];
      CountAtReplaceHole(s[..|s| - 1], h, e, pos);
    }
  }

  lemma CountAtAppend(s: seq<Option<ClueEntry>>, e: ClueEntry, pos: Point)
    ensures CountAt(s + [Some(e)], pos) == CountAt(s, pos) + (if e.pos == pos then 1 else 0)
  {
    assert (s + [Some(e)])[..|s|] == s;
  }

  /**
   * Merging keeps the index free of duplicates: the fragment's position ends with at least
   * one entry (exactly one if it had none), and no other position gains or loses an entry.
   */
  lemma MergeCounts(s: seq<Option<ClueEntry>>, pos: Point, c: Clue, q: Point)
    ensures CountAt(MergeClue(s, pos, c), q) ==
      if q == pos && CountAt(s, q) == 0 then 1 else CountAt(s, q)
  {
    var r := MergeClue(s, pos, c);
    if AnyMatch(s, pos) {
      CountAtSlotwise(s, r, q);
    } else if LastHole(s) == -1 {
      CountAtAppend(s, NewEntry(pos, c), q);
      if q == pos { assert CountAt(s, q) == 0; }
    } else {
      CountAtReplaceHole(s, LastHole(s), NewEntry(pos, c), q);
      if q == pos { assert CountAt(s, q) == 0; }
    }
  }

  /** The defined entry at a position, when there is exactly one. */
  predicate OnlyEntryAt(s: seq<Option<ClueEntry>>, pos: Point, k: int)
  {
    0 <= k < |s| && MatchesAt(s[k], pos) && CountAt(s, pos) == 1
  }

  /**
   * Starting with no entry at P, an across fragment and then a down fragment at P leave a
   * single entry at P holding both.
   */
  lemma AcrossThenDown(s: seq<Option<ClueEntry>>, pos: Point, h: Clue, v: Clue)
    requires CountAt(s, pos) == 0 && h.dir == 0 && v.dir == 1
    ensures var r := MergeClue(MergeClue(s, pos, h), pos, v);
      CountAt(r, pos) == 1 &&
      exists k :: OnlyEntryAt(r, pos, k) && r[k] == Some(ClueEntry(pos, Some(h), Some(v)))
  {
    var s1 := MergeClue(s, pos, h);
    MergeCounts(s, pos, h, pos);
    var k: int;
    if LastHole(s) == -1 {
      k := |s|;
    } else {
      k := LastHole(s);
    }
    assert s1[k] == Some(ClueEntry(pos, Some(h), None));
    assert AnyMatch(s1, pos);
    var r := MergeClue(s1, pos, v);
    MergeCounts(s1, pos, v, pos);
    MergeMatched(s1, pos, v, k);
    assert OnlyEntryAt(r, pos, k);
  }

  // ---------------------------------------------------------------------------
  // The client's mutable state

  class ClientState {
    var clues: seq<Option<ClueEntry>>
    var dirtyClues: bool
    var quads: map<int, GraphicQuad.GraphicQuad>

    /** Distinct block indices hold distinct quads. */
    ghost predicate Valid()
      reads this`quads
    {
      forall i, j :: i in quads && j in quads && i != j ==> quads[i] != quads[j]
    }

    /** The cell data shown for every block index. */
    ghost function QuadData(): map<int, seq<int>>
      reads this`quads, quads.Values`data
    {
      map i | i in quads :: quads[i].data
    }

    constructor ()
      ensures Valid() && clues == [] && !dirtyClues && quads == map[]
    {
      clues := [];
      dirtyClues := false;
      quads := map[];
    }

    /** One iteration of the fragment loop: the scan over every slot, then the insertion. */
    method MergeFragment(c: Clue, pos: Point)
      modifies this`clues, this`dirtyClues
      ensures clues == MergeClue(old(clues), pos, c)
      ensures dirtyClues == (old(dirtyClues) || !AnyMatch(old(clues), pos))
    {
      ghost var s := clues;
      var insertIdx := -1;
      var found := false;
      var i := 0;
      while i < |clues|
        invariant 0 <= i <= |clues| == |s|
        invariant forall k :: 0 <= k < i ==> clues[k] == UpdateSlot(s[k], pos, c)
        invariant forall k :: i <= k < |s| ==> clues[k] == s[k]
        invariant found <==> AnyMatch(s[..i], pos)
        invariant insertIdx == LastHole(s[..i])
        invariant dirtyClues == old(dirtyClues)
      {
        assert s[..i + 1][..i] == s[..i];
        var cl := clues[i];
        if cl.None? {
          insertIdx := i;
        } else {
          if cl.value.pos.x == pos.x && cl.value.pos.y == pos.y {
            found := true;
            if c.dir == 0 {
              clues := clues[i := Some(cl.value.(hor := Some(c)))];
            } else {
              clues := clues[i := Some(cl.value.(ver := Some(c)))];
            }
          }
        }
        assert found <==> AnyMatch(s[..i + 1], pos) by {
          if MatchesAt(s[i], pos) { assert s[..i + 1][i] == s[i]; }
          else {
            forall k | 0 <= k < i + 1
              ensures MatchesAt(s[..i + 1][k], pos) ==> (k < i && MatchesAt(s[..i][k], pos))
            { }
          }
        }
        i := i + 1;
      }
      assert s[..|s|] == s;
      assert clues == UpdateMatching(s, pos, c);
      if found {
        return;
      }
      assert UpdateMatching(s, pos, c) == s;
      dirtyClues := true;
      if insertIdx == -1 {
        clues := clues + [Some(NewEntry(pos, c))];
      } else {
        clues := clues[insertIdx := Some(NewEntry(pos, c))];
      }
    }

    /** The clue loop of the sync_block handler: every clue of the block, merged in order. */
    method MergeClues(sb: NetSyncBlock)
      modifies this`clues, this`dirtyClues
      ensures clues == MergeAll(old(clues), sb, 0).0
      ensures dirtyClues == (old(dirtyClues) || MergeAll(old(clues), sb, 0).1)
    {
      var j := 0;
      while j < |sb.clues|
        invariant 0 <= j <= |sb.clues|
        invariant
          var rest := MergeAll(clues, sb, j);
          && rest.0 == MergeAll(old(clues), sb, 0).0
          && (dirtyClues || rest.1) == (old(dirtyClues) || MergeAll(old(clues), sb, 0).1)
      {
        var netClue := sb.clues[j];
        MergeFragment(netClue, GlobalPos(netClue, sb));
        j := j + 1;
      }
    }

    /** The quad of block `index` shows `block`; a quad is created only for an index that has none. */
    method ShowBlock(index: int, sb: NetSyncBlock)
      requires Valid()
      modifies this`quads, quads.Values
      ensures Valid()
      ensures quads.Keys == old(quads.Keys) + {index}
      ensures index in old(quads) ==> quads == old(quads)
      ensures index !in old(quads) ==> fresh(quads[index])
      ensures QuadData() == old(QuadData())[index := sb.block]
      ensures forall i :: i in old(quads) && i != index ==>
        quads[i] == old(quads[i]) && unchanged(old(quads[i]))
    {
      if index !in quads {
        var q := new GraphicQuad.GraphicQuad();
        quads := quads[index := q];
      }
      quads[index].Update(sb.x, sb.y, sb.block);
      ghost var expected := old(QuadData())[index := sb.block];
      forall i | i in quads ensures i in expected && quads[i].data == expected[i] {
        if i != index {
          assert quads[i] != quads[index];
        }
      }
      assert QuadData() == expected;
    }

    /**
     * The sync_block handler: merges the block's clues into the clue list, marking it dirty
     * when a new position was added, and shows the block's cells in its quad. The index is
     * the board's block index of (sb.x, sb.y), computed by the caller.
     */
    method SyncBlock(sb: NetSyncBlock, index: int)
      requires Valid()
      modifies this, quads.Values
      ensures Valid()
      ensures clues == MergeAll(old(clues), sb, 0).0
      ensures dirtyClues == (old(dirtyClues) || MergeAll(old(clues), sb, 0).1)
      ensures quads.Keys == old(quads.Keys) + {index}
      ensures index in old(quads) ==> quads == old(quads)
      ensures index !in old(quads) ==> fresh(quads[index])
      ensures QuadData() == old(QuadData())[index := sb.block]
      ensures forall i :: i in old(quads) && i != index ==>
        quads[i] == old(quads[i]) && unchanged(old(quads[i]))
    {
      MergeClues(sb);
      ShowBlock(index, sb);
    }

    /**
     * The frame step that consumes the flag: when it is set, both clue lists are cleared for
     * redrawing and the flag is reset; the clue index itself is kept.
     */
    method ConsumeDirtyClues() returns (redraw: bool)
      modifies this`dirtyClues
      ensures redraw == old(dirtyClues)
      ensures !dirtyClues
    {
      redraw := dirtyClues;
      if dirtyClues {
        dirtyClues := false;
      }
    }
  }

  /** The selection: an optional centre cell and the direction of the selected word. */
  class Selection {
    var center: Option<Point>
    var dir: Direction

    /**
     * A click on the current centre flips the direction; a click elsewhere, or with no
     * centre, moves the centre there and keeps the direction.
     */
    method Click(cell: Point)
      modifies this
      ensures old(center) == Some(cell) ==> center == Some(cell) && dir != old(dir)
      ensures old(center) != Some(cell) ==> center == Some(cell) && dir == old(dir)
    {
      if center.Some? {
        if cell.x == center.value.x && cell.y == center.value.y {
          dir := if dir == Horizontal then Vertical else Horizontal;
        } else {
          center := Some(cell);
        }
      } else {
        center := Some(cell);
      }
    }
  }

  /** Two clicks on the same cell restore the direction. */
  method DoubleClick(sel: Selection, cell: Point)
    modifies sel
    ensures sel.center == Some(cell)
    ensures old(sel.center) == Some(cell) ==> sel.dir == old(sel.dir)
    ensures old(sel.center) != Some(cell) ==> sel.dir != old(sel.dir)
  {
    sel.Click(cell);
    sel.Click(cell);
  }

  // ---------------------------------------------------------------------------
  // The extent of the selected word, within the visible cells

  /**
   * The across scan. When the centre lies inside the view, x1 is the first black cell at or
   * right of the centre, or one past the view's right edge, and x0 is the first black cell at
   * or left of the centre that lies right of the view's left edge, or the left edge itself.
   * A scan that cannot start, because the centre lies beyond that edge, leaves its end at
   * the centre. `isBlack` stands for the board's cell lookup followed by the test for the
   * black value.
   */
  method HorizontalExtent(center: Point, view: Rectangle, isBlack: (int, int) -> bool)
    returns (x0: int, x1: int)
    ensures x0 <= center.x <= x1
    ensures forall k :: center.x <= k < x1 ==> !isBlack(k, center.y)
    ensures x1 <= view.Right() ==> isBlack(x1, center.y)
    ensures x1 == center.x || x1 <= view.Right() + 1
    ensures forall k :: x0 < k <= center.x ==> !isBlack(k, center.y)
    ensures x0 > view.Left() ==> isBlack(x0, center.y)
    ensures x0 == center.x || x0 >= view.Left()
  {
    x0 := center.x;
    x1 := center.x;
    while x1 <= view.Right()
      invariant center.x <= x1
      invariant x1 == center.x || x1 <= view.Right() + 1
      invariant forall k :: center.x <= k < x1 ==> !isBlack(k, center.y)
      decreases view.Right() + 1 - x1
    {
      if isBlack(x1, center.y) {
        break;
      }
      x1 := x1 + 1;
    }
    while x0 > view.Left()
      invariant x0 <= center.x
      invariant x0 == center.x || x0 >= view.Left()
      invariant forall k :: x0 < k <= center.x ==> !isBlack(k, center.y)
      decreases x0 - view.Left()
    {
      if isBlack(x0, center.y) {
        break;
      }
      x0 := x0 - 1;
    }
  }

  /** The down scan, the same with rows for columns. */
  method VerticalExtent(center: Point, view: Rectangle, isBlack: (int, int) -> bool)
    returns (y0: int, y1: int)
    ensures y0 <= center.y <= y1
    ensures forall k :: center.y <= k < y1 ==> !isBlack(center.x, k)
    ensures y1 <= view.Bottom() ==> isBlack(center.x, y1)
    ensures y1 == center.y || y1 <= view.Bottom() + 1
    ensures forall k :: y0 < k <= center.y ==> !isBlack(center.x, k)
    ensures y0 > view.Top() ==> isBlack(center.x, y0)
    ensures y0 == center.y || y0 >= view.Top()
  {
    y0 := center.y;
    y1 := center.y;
    while y1 <= view.Bottom()
      invariant center.y <= y1
      invariant y1 == center.y || y1 <= view.Bottom() + 1
      invariant forall k :: center.y <= k < y1 ==> !isBlack(center.x, k)
      decreases view.Bottom() + 1 - y1
    {
      if isBlack(center.x, y1) {
        break;
      }
      y1 := y1 + 1;
    }
    while y0 > view.Top()
      invariant y0 <= center.y
      invariant y0 == center.y || y0 >= view.Top()
      invariant forall k :: y0 < k <= center.y ==> !isBlack(center.x, k)
      decreases y0 - view.Top()
    {
      if isBlack(center.x, y0) {
        break;
      }
      y0 := y0 - 1;
    }
  }
}
