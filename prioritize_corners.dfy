/**
 * PrioritizeCorners (a strategy of the provider's AI, run on this engine through the
 * adapters): narrow a list of cubic positions, in place, to one corner of the board. The
 * board size s it is given is the edge length minus one, and the corners are (s, 0),
 * (0, s), (-s, s), (-s, 0), (0, -s) and (s, -s). When the list holds several corners the
 * last one in list order is kept; when it holds none the list is left as it is.
 */
module PrioritizeCorners {
  import opened Wrappers
  import opened Coords
  import opened AdapterUtils
  import opened StrategyUtils

  /** The java.util.List of positions that the filter narrows in place. */
  class PosnList {
    var items: seq<CubicPosn>

    constructor(items: seq<CubicPosn>)
      ensures this.items == items
    {
      this.items := items;
    }
  }

  /** One of the six corners of a board of size s. */
  predicate IsCorner(p: CubicPosn, size: int)
  {
    || p == CubicPosn(size, 0)
    || p == CubicPosn(0, size)
    || p == CubicPosn(-size, size)
    || p == CubicPosn(-size, 0)
    || p == CubicPosn(0, -size)
    || p == CubicPosn(size, -size)
  }

  /** The last corner in the list, if any: the one the filter keeps. */
  function LastCorner(s: seq<CubicPosn>, size: int): Option<CubicPosn>
    decreases |s|
  {
    if |s| == 0 then None
    else if IsCorner(s[|s| - 1], size) then Some(s[|s| - 1])
    else LastCorner(s[..|s| - 1], size)
  }

  /** LastCorner finds nothing iff no position is a corner, and otherwise the last corner. */
  lemma {:induction false} LastCornerSpec(s: seq<CubicPosn>, size: int)
    ensures LastCorner(s, size).None? <==> forall i :: 0 <= i < |s| ==> !IsCorner(s[i], size)
    ensures LastCorner(s, size).Some? ==>
      exists i :: 0 <= i < |s| && s[i] == LastCorner(s, size).value && IsCorner(s[i], size)
        && forall j :: i < j < |s| ==> !IsCorner(s[j], size)
    decreases |s|
  {
    if |s| > 0 {
      var n := |s| - 1;
      if IsCorner(s[n], size) {
        assert s[n] == LastCorner(s, size).value;
      } else {
        var init := s[..n];
        LastCornerSpec(init, size);
        assert forall i :: 0 <= i < n ==> init[i] == s[i];
        if LastCorner(init, size).Some? {
          var i :| 0 <= i < n && init[i] == LastCorner(init, size).value && IsCorner(init[i], size)
                   && forall j :: i < j < n ==> !IsCorner(init[j], size);
          assert s[i] == LastCorner(s, size).value && IsCorner(s[i], size);
        }
      }
    }
  }

  /** The list the filter leaves: the last corner alone, or the list unchanged. */
  function Prioritized(s: seq<CubicPosn>, size: int): seq<CubicPosn>
  {
    match LastCorner(s, size)
    case None => s
    case Some(corner) => [corner]
  }

  /**
   * filter: walk the list remembering the latest corner seen; if one was seen, clear the
   * list and add that corner back. The player and the rest of the model are not consulted.
   */
  method Filter(coords: PosnList, size: int)
    modifies coords
    ensures coords.items == Prioritized(old(coords.items), size)
  {
    var corner: CubicPosn := CubicPosn(0, 0);
    var foundCorner := false;
    for i := 0 to |coords.items|
      invariant foundCorner <==> LastCorner(coords.items[..i], size).Some?
      invariant foundCorner ==> corner == LastCorner(coords.items[..i], size).value
    {
      var coord := coords.items[i];
      if IsCorner(coord, size) {
        corner := coord;
        foundCorner := true;
      }
      assert coords.items[..i + 1][..i] == coords.items[..i];
    }
    assert coords.items[..|coords.items|] == coords.items;
    if foundCorner {
      coords.items := [];
      coords.items := coords.items + [corner];
    }
  }

  /**
   * When the list holds a corner it is narrowed to exactly one element, a corner from the
   * list that no later element outranks; otherwise it is unchanged.
   */
  lemma PrioritizedCases(s: seq<CubicPosn>, size: int)
    ensures (forall i :: 0 <= i < |s| ==> !IsCorner(s[i], size)) ==> Prioritized(s, size) == s
    ensures (exists i :: 0 <= i < |s| && IsCorner(s[i], size)) ==>
      && |Prioritized(s, size)| == 1
      && exists i :: 0 <= i < |s| && Prioritized(s, size)[0] == s[i] && IsCorner(s[i], size)
           && forall j :: i < j < |s| ==> !IsCorner(s[j], size)
  {
    LastCornerSpec(s, size);
  }

  /** Filtering a second time changes nothing. */
  lemma PrioritizedIdempotent(s: seq<CubicPosn>, size: int)
    ensures Prioritized(Prioritized(s, size), size) == Prioritized(s, size)
  {
    LastCornerSpec(s, size);
    match LastCorner(s, size)
    case None =>
    case Some(corner) =>
      var one := [corner];
      assert IsCorner(one[0], size);
      assert LastCorner(one, size) == Some(corner);
  }

  /** Every element left is one of the original elements; a non-empty list stays non-empty. */
  lemma PrioritizedKeepsMembers(s: seq<CubicPosn>, size: int)
    ensures forall p :: p in Prioritized(s, size) ==> p in s
    ensures |s| > 0 ==> |Prioritized(s, size)| > 0
  {
    LastCornerSpec(s, size);
  }

  /**
   * Through the adapter (size = E - 1), the provider's corners are exactly the cubic
   * positions of this engine's six corner cells.
   */
  lemma CornersAgree(edgeLength: int, c: Coord)
    requires edgeLength >= 2
    ensures c in CornerCells(edgeLength) <==> IsCorner(RowColToCubic(c, edgeLength), edgeLength - 1)
  {
    var e, s := edgeLength, edgeLength - 1;
    var p := RowColToCubic(c, e);
    RowColToCubicFormula(c, e);
    if IsCorner(p, s) {
      RowColRoundTrip(c, e);
      assert c == CubicToRowCol(p, e);
    }
  }
}
