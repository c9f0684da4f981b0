/** Frame synchronisation on the inbound status stream: the start marker a
    device label selects, and the rule that decides which candidate frames
    the engine keeps. The byte stream itself is cut into candidate frames
    by an external delimiter parser, so the input here is the sequence of
    candidates it delivers, in arrival order. */
module Frames {
  import opened Wrappers
  import opened JsRuntime

  /** Marker byte that opens every status frame of the "top" unit. */
  const TopMarker: byte := 0x62
  /** Marker byte that opens every status frame of the "bottom" unit. */
  const BottomMarker: byte := 0x61

  /** The only frame length the engine accepts. */
  const FrameLength: nat := 13

  /** The one-byte delimiter for a configured label; any other label
      yields no marker at all (the source returns `undefined`). */
  function StartByte(deviceLabel: string): (r: Option<byte>)
    ensures r == Some(TopMarker) <==> deviceLabel == "top"
    ensures r == Some(BottomMarker) <==> deviceLabel == "bottom"
    ensures r.None? <==> deviceLabel != "top" && deviceLabel != "bottom"
  {
    if deviceLabel == "top" then Some(TopMarker)
    else if deviceLabel == "bottom" then Some(BottomMarker)
    else None
  }

  /** A marker identifies its label: two labels that both produce a
      marker produce the same one only if they are the same label. */
  lemma StartByteIdentifiesLabel(a: string, b: string)
    requires StartByte(a).Some? && StartByte(a) == StartByte(b)
    ensures a == b
  {
  }

  /** The stored status: empty until a frame has been accepted, then the
      last accepted frame. */
  type Cell = Option<seq<byte>>

  /** The cell only ever holds a frame of the accepted length. */
  predicate WellFormed(cell: Cell) {
    cell.Some? ==> |cell.value| == FrameLength
  }

  /** The parser callback: a candidate replaces the cell exactly when it
      has the accepted length (last write wins); anything else leaves the
      cell as it was. */
  function Accept(cell: Cell, candidate: seq<byte>): (r: Cell)
    ensures |candidate| == FrameLength ==> r == Some(candidate)
    ensures |candidate| != FrameLength ==> r == cell
    ensures WellFormed(cell) ==> WellFormed(r)
  {
    if |candidate| == FrameLength then Some(candidate) else cell
  }

  /** The callback applied to each candidate in arrival order. */
  function AcceptAll(cell: Cell, candidates: seq<seq<byte>>): (r: Cell)
    ensures WellFormed(cell) ==> WellFormed(r)
    ensures r.None? ==> cell.None?
    decreases |candidates|
  {
    if candidates == [] then cell
    else AcceptAll(Accept(cell, candidates[0]), candidates[1..])
  }

  /** `j` is the position of the last candidate of the accepted length. */
  predicate IsLastFull(candidates: seq<seq<byte>>, j: int) {
    && 0 <= j < |candidates|
    && |candidates[j]| == FrameLength
    && forall k :: j < k < |candidates| ==> |candidates[k]| != FrameLength
  }

  predicate NoneFull(candidates: seq<seq<byte>>) {
    forall k :: 0 <= k < |candidates| ==> |candidates[k]| != FrameLength
  }

  /** Feeding one more candidate after a stream is one more callback. */
  lemma {:induction false} AcceptAllSnoc(cell: Cell, candidates: seq<seq<byte>>, c: seq<byte>)
    ensures AcceptAll(cell, candidates + [c]) == Accept(AcceptAll(cell, candidates), c)
    decreases |candidates|
  {
    if candidates == [] {
      assert candidates + [c] == [c];
      assert [c][1..] == [];
    } else {
      assert (candidates + [c])[0] == candidates[0];
      assert (candidates + [c])[1..] == candidates[1..] + [c];
      AcceptAllSnoc(Accept(cell, candidates[0]), candidates[1..], c);
    }
  }

  /** After any stream of candidates the cell holds the last candidate of
      the accepted length, or is unchanged when there was none. */
  lemma {:induction false} AcceptAllKeepsLastFull(cell: Cell, candidates: seq<seq<byte>>)
    ensures NoneFull(candidates) ==> AcceptAll(cell, candidates) == cell
    ensures forall j :: IsLastFull(candidates, j) ==> AcceptAll(cell, candidates) == Some(candidates[j])
    decreases |candidates|
  {
    if candidates == [] {
    } else {
      var n := |candidates| - 1;
      var front, c := candidates[..n], candidates[n];
      assert candidates == front + [c];
      AcceptAllSnoc(cell, front, c);
      AcceptAllKeepsLastFull(cell, front);
      if |c| != FrameLength {
        forall j | IsLastFull(candidates, j)
          ensures AcceptAll(cell, candidates) == Some(candidates[j])
        {
          assert IsLastFull(front, j);
        }
        if NoneFull(candidates) {
          assert NoneFull(front);
        }
      } else {
        assert IsLastFull(candidates, n);
        assert forall j :: IsLastFull(candidates, j) ==> j == n;
      }
    }
  }

  /** Starting from the empty cell, the cell stays empty exactly when no
      candidate had the accepted length; the cell always holds a frame of
      that length. */
  lemma AcceptAllFromEmpty(candidates: seq<seq<byte>>)
    ensures AcceptAll(None, candidates).None? <==> NoneFull(candidates)
    ensures WellFormed(AcceptAll(None, candidates))
  {
    AcceptAllKeepsLastFull(None, candidates);
    if !NoneFull(candidates) {
      var j := LastFullIndex(candidates);
      assert IsLastFull(candidates, j);
    }
  }

  /** The position of the last candidate of the accepted length. */
  function LastFullIndex(candidates: seq<seq<byte>>): (j: int)
    requires !NoneFull(candidates)
    ensures IsLastFull(candidates, j)
    decreases |candidates|
  {
    var n := |candidates| - 1;
    if |candidates[n]| == FrameLength then n
    else
      assert !NoneFull(candidates[..n]) by {
        var k :| 0 <= k < |candidates| && |candidates[k]| == FrameLength;
        assert candidates[..n][k] == candidates[k];
      }
      LastFullIndex(candidates[..n])
  }
}
