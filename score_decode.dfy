/** The argmax decode of the score volume (source/main.cpp:141-159). The
    volume `score[c][row][col]` has `chns` channels of `rows x cols` scores;
    it is only read, and its scores are only compared, so they are modelled
    as reals. `maxVal` and `maxCl` are the running-maximum and winner
    buffers, allocated without initialisation, so their initial contents are
    whatever the caller passes in. */
module ScoreDecode {
  import opened Wrappers

  /** `score` has the shape [chns][rows][cols]. */
  predicate IsVolume(score: seq<seq<seq<real>>>, rows: nat, cols: nat) {
    forall c :: 0 <= c < |score| ==>
      |score[c]| == rows && forall r :: 0 <= r < rows ==> |score[c][r]| == cols
  }

  /** The scores of pixel (r, k) across all channels, in channel order. */
  function Column(score: seq<seq<seq<real>>>, rows: nat, cols: nat, r: nat, k: nat): (s: seq<real>)
    requires IsVolume(score, rows, cols) && r < rows && k < cols
    ensures |s| == |score| && forall c :: 0 <= c < |score| ==> s[c] == score[c][r][k]
  {
    seq(|score|, c requires 0 <= c < |score| => score[c][r][k])
  }

  /** One pixel's running maximum and winner after the scan has met the
      scores `s`, starting from `v0` and `c0`: a score replaces the current
      maximum only when strictly greater, and the winner becomes the channel
      index cast to `uchar`. */
  function Scan(s: seq<real>, v0: real, c0: Byte): (real, Byte)
    decreases |s|
  {
    if s == [] then (v0, c0)
    else
      var p := Scan(s[..|s| - 1], v0, c0);
      if s[|s| - 1] > p.0 then (s[|s| - 1], UChar(|s| - 1)) else p
  }

  /** What the scan computes. The maximum is the largest of `v0` and the
      scores. When no score exceeds `v0`, both buffers keep their initial
      values. Otherwise the winner is the first channel whose score is the
      maximum: every earlier channel scores strictly less. */
  lemma {:induction false} ScanSpec(s: seq<real>, v0: real, c0: Byte)
    ensures v0 <= Scan(s, v0, c0).0
    ensures forall i :: 0 <= i < |s| ==> s[i] <= Scan(s, v0, c0).0
    ensures (forall i :: 0 <= i < |s| ==> s[i] <= v0) ==> Scan(s, v0, c0) == (v0, c0)
    ensures (exists i :: 0 <= i < |s| && s[i] > v0) ==>
      exists k :: 0 <= k < |s| && s[k] > v0 && Scan(s, v0, c0) == (s[k], UChar(k)) &&
        forall j :: 0 <= j < k ==> s[j] < s[k]
    decreases |s|
  {
    if s != [] {
      var t := s[..|s| - 1];
      ScanSpec(t, v0, c0);
      assert forall i :: 0 <= i < |t| ==> t[i] == s[i];
      var last := |s| - 1;
      if !(s[last] > Scan(t, v0, c0).0) && exists i :: 0 <= i < |s| && s[i] > v0 {
        var i :| 0 <= i < |s| && s[i] > v0;
        if i == last {
          assert Scan(t, v0, c0).0 > v0;
        } else {
          assert t[i] > v0;
        }
      }
    }
  }

  /** With at most 256 channels the `uchar` cast keeps the channel index:
      a winner written by the scan is a channel index below `|s|`. */
  lemma WinnerIsChannel(s: seq<real>, v0: real, c0: Byte)
    requires |s| <= 256
    requires exists i :: 0 <= i < |s| && s[i] > v0
    ensures Scan(s, v0, c0).1 < |s| && s[Scan(s, v0, c0).1] == Scan(s, v0, c0).0
  {
    ScanSpec(s, v0, c0);
  }

  /** One more channel of pixel (r, k): the scan of channels 0 .. n is the
      scan of channels 0 .. n-1 followed by the strict comparison with
      channel n's score, as one pass of the innermost loop body performs. */
  lemma ScanStep(score: seq<seq<seq<real>>>, rows: nat, cols: nat, r: nat, k: nat, n: nat, v0: real, c0: Byte)
    requires IsVolume(score, rows, cols) && r < rows && k < cols && n < |score|
    ensures
      var p := Scan(Column(score, rows, cols, r, k)[..n], v0, c0);
      Scan(Column(score, rows, cols, r, k)[..n + 1], v0, c0) ==
        if score[n][r][k] > p.0 then (score[n][r][k], UChar(n)) else p
  {
    var s := Column(score, rows, cols, r, k);
    assert s[..n + 1][..n] == s[..n];
  }

  /** One pass of the two inner loops of source/main.cpp:148-158 for
      channel `c`: each pixel whose score in channel `c` strictly exceeds
      its running maximum takes that score and the winner `c` cast to
      `uchar`; every other pixel keeps its buffers. */
  method ScanChannel(score: seq<seq<seq<real>>>, c: nat, maxVal: array2<real>, maxCl: array2<Byte>)
    requires IsVolume(score, maxVal.Length0, maxVal.Length1) && c < |score|
    requires maxCl.Length0 == maxVal.Length0 && maxCl.Length1 == maxVal.Length1
    modifies maxVal, maxCl
    ensures forall r, k :: 0 <= r < maxVal.Length0 && 0 <= k < maxVal.Length1 ==>
      (maxVal[r, k], maxCl[r, k]) ==
        if score[c][r][k] > old(maxVal[r, k]) then (score[c][r][k], UChar(c))
        else (old(maxVal[r, k]), old(maxCl[r, k]))
  {
    var rows, cols := maxVal.Length0, maxVal.Length1;
    for row := 0 to rows
      invariant forall r, k :: 0 <= r < row && 0 <= k < cols ==>
        (maxVal[r, k], maxCl[r, k]) ==
          if score[c][r][k] > old(maxVal[r, k]) then (score[c][r][k], UChar(c))
          else (old(maxVal[r, k]), old(maxCl[r, k]))
      invariant forall r, k :: row <= r < rows && 0 <= k < cols ==>
        maxVal[r, k] == old(maxVal[r, k]) && maxCl[r, k] == old(maxCl[r, k])
    {
      for col := 0 to cols
        invariant forall r, k :: 0 <= r < row && 0 <= k < cols ==>
          (maxVal[r, k], maxCl[r, k]) ==
            if score[c][r][k] > old(maxVal[r, k]) then (score[c][r][k], UChar(c))
            else (old(maxVal[r, k]), old(maxCl[r, k]))
        invariant forall k :: 0 <= k < col ==>
          (maxVal[row, k], maxCl[row, k]) ==
            if score[c][row][k] > old(maxVal[row, k]) then (score[c][row][k], UChar(c))
            else (old(maxVal[row, k]), old(maxCl[row, k]))
        invariant forall r, k :: row <= r < rows && 0 <= k < cols && (r > row || k >= col) ==>
          maxVal[r, k] == old(maxVal[r, k]) && maxCl[r, k] == old(maxCl[r, k])
      {
        if score[c][row][col] > maxVal[row, col] {
          maxVal[row, col] := score[c][row][col];
          maxCl[row, col] := UChar(c);
        }
      }
    }
  }

  /** The channel-major triple loop of source/main.cpp:147-159. Afterwards
      every pixel's `maxVal` and `maxCl` are the scan of its column from its
      initial buffer contents (see `ScanSpec` for what that means). */
  method DecodeScores(score: seq<seq<seq<real>>>, maxVal: array2<real>, maxCl: array2<Byte>)
    requires IsVolume(score, maxVal.Length0, maxVal.Length1)
    requires maxCl.Length0 == maxVal.Length0 && maxCl.Length1 == maxVal.Length1
    modifies maxVal, maxCl
    ensures forall r, k :: 0 <= r < maxVal.Length0 && 0 <= k < maxVal.Length1 ==>
      (maxVal[r, k], maxCl[r, k]) ==
        Scan(Column(score, maxVal.Length0, maxVal.Length1, r, k), old(maxVal[r, k]), old(maxCl[r, k]))
  {
    var rows, cols, chns := maxVal.Length0, maxVal.Length1, |score|;
    for c := 0 to chns
      invariant forall r, k :: 0 <= r < rows && 0 <= k < cols ==>
        (maxVal[r, k], maxCl[r, k]) == Scan(Column(score, rows, cols, r, k)[..c], old(maxVal[r, k]), old(maxCl[r, k]))
    {
      ScanChannel(score, c, maxVal, maxCl);
      forall r, k | 0 <= r < rows && 0 <= k < cols
        ensures (maxVal[r, k], maxCl[r, k]) == Scan(Column(score, rows, cols, r, k)[..c + 1], old(maxVal[r, k]), old(maxCl[r, k]))
      {
        ScanStep(score, rows, cols, r, k, c, old(maxVal[r, k]), old(maxCl[r, k]));
      }
    }
    forall r, k | 0 <= r < rows && 0 <= k < cols
      ensures (maxVal[r, k], maxCl[r, k]) == Scan(Column(score, rows, cols, r, k), old(maxVal[r, k]), old(maxCl[r, k]))
    {
      assert Column(score, rows, cols, r, k)[..chns] == Column(score, rows, cols, r, k);
    }
  }

  // ----- Uninitialised buffers -----

  /** With uninitialised buffers, a pixel whose initial `maxVal` happens to
      be at least every score keeps its initial `maxCl`: here two channels
      scoring 0.5 against a stale maximum of 1.0 leave the stale winner 200,
      which is then used at source/main.cpp:170 to index a label table that
      may be far shorter. Memory that happens to be zero-filled hides the
      true maximum of a pixel whose scores are all negative: it keeps
      winner 0, the background. */
  lemma StaleWinnerSurvives()
    ensures Scan([0.5, 0.5], 1.0, 200) == (1.0, 200)
    ensures Scan([-2.0, -1.0], 0.0, 0) == (0.0, 0)
  {
  }

  /** `w` is the first channel attaining the maximum of `s`. */
  predicate IsFirstArgmax(s: seq<real>, w: nat) {
    w < |s| && (forall i :: 0 <= i < |s| ==> s[i] <= s[w]) && forall j :: 0 <= j < w ==> s[j] < s[w]
  }

  /** Seeding the scan with channel 0 (its score and index 0) makes the
      winner the first channel attaining the maximum, whatever the scores. */
  lemma SeededScanIsFirstArgmax(s: seq<real>)
    requires 1 <= |s|
    ensures exists w: nat :: IsFirstArgmax(s, w) && Scan(s, s[0], 0) == (s[w], UChar(w))
  {
    ScanSpec(s, s[0], 0);
    if forall i :: 0 <= i < |s| ==> s[i] <= s[0] {
      assert IsFirstArgmax(s, 0);
    }
  }

  /** Fills the buffers from channel 0: `maxVal` with its scores, `maxCl`
      with 0. */
  method SeedFromFirstChannel(score: seq<seq<seq<real>>>, maxVal: array2<real>, maxCl: array2<Byte>)
    requires 1 <= |score|
    requires IsVolume(score, maxVal.Length0, maxVal.Length1)
    requires maxCl.Length0 == maxVal.Length0 && maxCl.Length1 == maxVal.Length1
    modifies maxVal, maxCl
    ensures forall r, k :: 0 <= r < maxVal.Length0 && 0 <= k < maxVal.Length1 ==>
      maxVal[r, k] == score[0][r][k] && maxCl[r, k] == 0
  {
    var rows, cols := maxVal.Length0, maxVal.Length1;
    for row := 0 to rows
      invariant forall r, k :: 0 <= r < row && 0 <= k < cols ==> maxVal[r, k] == score[0][r][k] && maxCl[r, k] == 0
    {
      for col := 0 to cols
        invariant forall r, k :: 0 <= r < row && 0 <= k < cols ==> maxVal[r, k] == score[0][r][k] && maxCl[r, k] == 0
        invariant forall k :: 0 <= k < col ==> maxVal[row, k] == score[0][row][k] && maxCl[row, k] == 0
      {
        maxVal[row, col] := score[0][row][col];
        maxCl[row, col] := 0;
      }
    }
  }

  /** The decode with its buffers initialised from channel 0 (`maxVal` =
      that channel's scores, `maxCl` = 0), then the same channel loop. For a
      volume of 1 to 256 channels every pixel's winner is the first channel
      attaining its maximum, so it is always a channel index. */
  method DecodeFromFirstChannel(score: seq<seq<seq<real>>>, maxVal: array2<real>, maxCl: array2<Byte>)
    requires 1 <= |score| <= 256
    requires IsVolume(score, maxVal.Length0, maxVal.Length1)
    requires maxCl.Length0 == maxVal.Length0 && maxCl.Length1 == maxVal.Length1
    modifies maxVal, maxCl
    ensures forall r, k :: 0 <= r < maxVal.Length0 && 0 <= k < maxVal.Length1 ==>
      IsFirstArgmax(Column(score, maxVal.Length0, maxVal.Length1, r, k), maxCl[r, k]) &&
      maxVal[r, k] == score[maxCl[r, k]][r][k]
  {
    var rows, cols := maxVal.Length0, maxVal.Length1;
    SeedFromFirstChannel(score, maxVal, maxCl);
    label seeded:
    DecodeScores(score, maxVal, maxCl);
    forall r, k | 0 <= r < rows && 0 <= k < cols
      ensures IsFirstArgmax(Column(score, rows, cols, r, k), maxCl[r, k]) && maxVal[r, k] == score[maxCl[r, k]][r][k]
    {
      var s := Column(score, rows, cols, r, k);
      assert old@seeded(maxVal[r, k]) == s[0] && old@seeded(maxCl[r, k]) == 0;
      SeededScanIsFirstArgmax(s);
    }
  }
}
