/** The color lookup pass (source/main.cpp:161-172): every pixel's winner
    picks its label's color into a zero-initialised `rows x cols` result,
    and every winner seen is inserted into the ordered set `indexes`. */
module Colorize {
  import opened Wrappers
  import opened LabelLine

  /** Every winner in `maxCl` is an index of `labels`. The source has no
      bounds check on `labels[index]`, so this is what it needs of its
      inputs. */
  ghost predicate WinnersInTable(maxCl: array2<Byte>, labels: seq<Label>)
    reads maxCl
  {
    forall r, k :: 0 <= r < maxCl.Length0 && 0 <= k < maxCl.Length1 ==> maxCl[r, k] < |labels|
  }

  /** The distinct winners in `maxCl`. */
  ghost function WinnerSet(maxCl: array2<Byte>): set<nat>
    reads maxCl
  {
    set r, k | 0 <= r < maxCl.Length0 && 0 <= k < maxCl.Length1 :: maxCl[r, k] as nat
  }

  /** Afterwards `result[row][col]` is the color of the winner's label at
      every pixel, and `indexes` is exactly the set of distinct winners. */
  method LookUpColors(maxCl: array2<Byte>, labels: seq<Label>) returns (result: array2<Color>, indexes: set<nat>)
    requires WinnersInTable(maxCl, labels)
    ensures fresh(result)
    ensures result.Length0 == maxCl.Length0 && result.Length1 == maxCl.Length1
    ensures forall r, k :: 0 <= r < maxCl.Length0 && 0 <= k < maxCl.Length1 ==>
      result[r, k] == labels[maxCl[r, k]].color
    ensures forall r, k :: 0 <= r < maxCl.Length0 && 0 <= k < maxCl.Length1 ==> maxCl[r, k] in indexes
    ensures forall i :: i in indexes ==>
      exists r, k :: 0 <= r < maxCl.Length0 && 0 <= k < maxCl.Length1 && maxCl[r, k] == i
    ensures indexes == WinnerSet(maxCl)
  {
    var rows, cols := maxCl.Length0, maxCl.Length1;
    indexes := {};
    result := new Color[rows, cols]((r, k) => Black);
    for row := 0 to rows
      invariant forall r, k :: 0 <= r < row && 0 <= k < cols ==>
        result[r, k] == labels[maxCl[r, k]].color && maxCl[r, k] in indexes
      invariant forall i :: i in indexes ==>
        exists r, k :: 0 <= r < row && 0 <= k < cols && maxCl[r, k] == i
    {
      for col := 0 to cols
        invariant forall r, k :: 0 <= r < row && 0 <= k < cols ==>
          result[r, k] == labels[maxCl[r, k]].color && maxCl[r, k] in indexes
        invariant forall k :: 0 <= k < col ==>
          result[row, k] == labels[maxCl[row, k]].color && maxCl[row, k] in indexes
        invariant forall i :: i in indexes ==>
          exists r, k :: 0 <= r <= row && 0 <= k < cols && (r < row || k < col) && maxCl[r, k] == i
      {
        var index := maxCl[row, col];
        indexes := indexes + {index};
        result[row, col] := labels[index].color;
      }
    }
    assert indexes == WinnerSet(maxCl);
  }
}
