/** One frame's decode-and-label path, source/main.cpp:141-188, from the
    network's score volume to the color buffer and the overlay name. */
module Frame {
  import opened Wrappers
  import opened LabelLine
  import opened ScoreDecode
  import opened Colorize
  import opened Overlay

  /** The argmax pass, the color lookup and the name join, in the source's
      order, over uninitialised buffers `maxVal` and `maxCl`. The lookup
      indexes the label table with every final winner unchecked, so the
      caller must ensure each pixel's scan ends on an index of the table.
      Every pixel then shows the color of its scan's winner, and the name
      lists the qualifying winners of the frame. */
  method ProcessFrame(score: seq<seq<seq<real>>>, maxVal: array2<real>, maxCl: array2<Byte>, labels: seq<Label>)
    returns (result: array2<Color>, name: string)
    requires IsVolume(score, maxVal.Length0, maxVal.Length1)
    requires maxCl.Length0 == maxVal.Length0 && maxCl.Length1 == maxVal.Length1
    requires forall r, k :: 0 <= r < maxVal.Length0 && 0 <= k < maxVal.Length1 ==>
      Scan(Column(score, maxVal.Length0, maxVal.Length1, r, k), maxVal[r, k], maxCl[r, k]).1 < |labels|
    modifies maxVal, maxCl
    ensures fresh(result) && result.Length0 == maxVal.Length0 && result.Length1 == maxVal.Length1
    ensures forall r, k :: 0 <= r < maxVal.Length0 && 0 <= k < maxVal.Length1 ==>
      (maxVal[r, k], maxCl[r, k]) ==
        Scan(Column(score, maxVal.Length0, maxVal.Length1, r, k), old(maxVal[r, k]), old(maxCl[r, k])) &&
      result[r, k] == labels[maxCl[r, k]].color
    ensures name == OverlayName(labels, WinnerSet(maxCl))
  {
    DecodeScores(score, maxVal, maxCl);
    var indexes;
    result, indexes := LookUpColors(maxCl, labels);
    name := BuildName(labels, indexes);
  }
}
