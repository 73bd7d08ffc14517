/** `getLabelsFromFile` (source/main.cpp:24-43) and the check its caller
    makes on the result (source/main.cpp:90-95). The file is its whole text,
    or `None` when it cannot be opened. */
module LabelFile {
  import opened Wrappers
  import opened LabelLine

  // ----- Lines of a text -----

  /** The pieces of `text` between newline characters, in order: a text
      with k newlines has k + 1 of them, so a trailing newline leaves an
      empty last piece and an empty text has one empty piece. */
  function Lines(text: string): (ls: seq<string>)
    ensures |ls| >= 1
    decreases |text|
  {
    if text == [] then [""]
    else
      var rest := Lines(text[1..]);
      if text[0] == '\n' then [""] + rest else [[text[0]] + rest[0]] + rest[1..]
  }

  /** The pieces joined back with newline characters. */
  function JoinLines(ls: seq<string>): string
    requires |ls| >= 1
  {
    if |ls| == 1 then ls[0] else ls[0] + "\n" + JoinLines(ls[1..])
  }

  function NewlineCount(text: string): nat {
    if text == [] then 0 else (if text[0] == '\n' then 1 else 0) + NewlineCount(text[1..])
  }

  /** Splitting at newlines loses nothing: joining the pieces gives the text. */
  lemma {:induction false} JoinLinesOfLines(text: string)
    ensures JoinLines(Lines(text)) == text
    decreases |text|
  {
    if text != [] {
      JoinLinesOfLines(text[1..]);
      var rest := Lines(text[1..]);
      if text[0] != '\n' {
        if |rest| > 1 {
          assert rest[1..][1..] == rest[2..];
        }
      }
    }
  }

  /** One piece per newline, plus one; no piece holds a newline. */
  lemma {:induction false} LinesShape(text: string)
    ensures |Lines(text)| == NewlineCount(text) + 1
    ensures forall i :: 0 <= i < |Lines(text)| ==> '\n' !in Lines(text)[i]
    decreases |text|
  {
    if text != [] {
      LinesShape(text[1..]);
    }
  }

  /** Splitting a text that starts with a newline-free piece. */
  lemma {:induction false} LinesOfPrefix(l: string, t: string)
    requires '\n' !in l
    ensures Lines(l + t) == [l + Lines(t)[0]] + Lines(t)[1..]
    decreases |l|
  {
    if l != [] {
      assert (l + t)[0] == l[0] != '\n';
      assert (l + t)[1..] == l[1..] + t;
      LinesOfPrefix(l[1..], t);
      var rest := Lines(l[1..] + t);
      assert rest[0] == l[1..] + Lines(t)[0];
      assert rest[1..] == Lines(t)[1..];
      assert [l[0]] + (l[1..] + Lines(t)[0]) == l + Lines(t)[0];
    } else {
      assert l + t == t && l + Lines(t)[0] == Lines(t)[0];
      assert Lines(t) == [Lines(t)[0]] + Lines(t)[1..];
    }
  }

  /** Joining newline-free pieces and splitting again gives the pieces. */
  lemma {:induction false} LinesOfJoinLines(ls: seq<string>)
    requires |ls| >= 1
    requires forall i :: 0 <= i < |ls| ==> '\n' !in ls[i]
    ensures Lines(JoinLines(ls)) == ls
    decreases |ls|
  {
    if |ls| == 1 {
      LinesOfPrefix(ls[0], []);
      assert ls[0] + [] == ls[0];
    } else {
      LinesOfJoinLines(ls[1..]);
      var j := JoinLines(ls[1..]);
      assert ls[0] + "\n" + j == ls[0] + ("\n" + j);
      LinesOfPrefix(ls[0], "\n" + j);
      assert ("\n" + j)[0] == '\n' && ("\n" + j)[1..] == j;
      assert Lines("\n" + j) == [""] + ls[1..];
      assert ls[0] + "" == ls[0];
      assert ls == [ls[0]] + ls[1..];
    }
  }

  // ----- std::getline -----

  /** The first position at or after `i` holding a newline, or the end. */
  function NewlineAt(text: string, i: nat): (j: nat)
    requires i <= |text|
    ensures i <= j <= |text|
    ensures '\n' !in text[i..j]
    ensures j < |text| ==> text[j] == '\n'
    decreases |text| - i
  {
    if i < |text| && text[i] != '\n' then
      var j := NewlineAt(text, i + 1);
      assert text[i..j] == [text[i]] + text[i + 1..j];
      j
    else i
  }

  /** `std::getline(file, line)` from position `pos`: the characters up to the
      next newline, which is consumed, and the position after it; when there
      is no newline the rest of the text is taken and eofbit is set. */
  function GetLine(text: string, pos: nat): (r: (string, nat, bool))
    requires pos <= |text|
    ensures pos <= r.1 <= |text|
    ensures !r.2 ==> pos < r.1
    ensures Lines(text[pos..]) == [r.0] + (if r.2 then [] else Lines(text[r.1..]))
  {
    var j := NewlineAt(text, pos);
    assert text[pos..] == text[pos..j] + text[j..];
    if j < |text| then
      assert text[j..] == "\n" + text[j + 1..];
      LinesOfPrefix(text[pos..j], text[j..]);
      assert text[pos..j] + "" == text[pos..j];
      (text[pos..j], j + 1, false)
    else
      LinesOfPrefix(text[pos..j], []);
      assert text[pos..j] + [] == text[pos..];
      (text[pos..], |text|, true)
  }

  // ----- The loader -----

  /** One label per line. */
  function ParseAll(ls: seq<string>): (labels: seq<Label>)
    ensures |labels| == |ls|
    ensures forall i :: 0 <= i < |ls| ==> labels[i] == ParseLine(ls[i])
  {
    if ls == [] then [] else [ParseLine(ls[0])] + ParseAll(ls[1..])
  }

  lemma ParseAllCons(l: string, rest: seq<string>)
    ensures ParseAll([l] + rest) == [ParseLine(l)] + ParseAll(rest)
  {
    assert ([l] + rest)[1..] == rest;
  }

  /** `getLabelsFromFile(labels, nameFile)`: while the file has not hit its
      end, read a line and append the label parsed from it. Nothing is
      skipped: every piece between newlines, blank or malformed, and the
      empty piece after a trailing newline, yields an entry. The entries
      already in `labels` stay in front; a file that cannot be opened leaves
      `labels` as it was. */
  method GetLabelsFromFile(labels: seq<Label>, file: Option<string>) returns (out: seq<Label>)
    ensures file.None? ==> out == labels
    ensures file.Some? ==> out == labels + ParseAll(Lines(file.value))
  {
    out := labels;
    if file.Some? {
      var text := file.value;
      var pos, eof := 0, false;
      assert text[0..] == text;
      while !eof
        invariant pos <= |text|
        invariant !eof ==> out + ParseAll(Lines(text[pos..])) == labels + ParseAll(Lines(text))
        invariant eof ==> out == labels + ParseAll(Lines(text))
        decreases |text| - pos + (if eof then 0 else 1)
      {
        var (line, next, atEnd) := GetLine(text, pos);
        ghost var rest := if atEnd then [] else Lines(text[next..]);
        ParseAllCons(line, rest);
        assert out + [ParseLine(line)] + ParseAll(rest) == out + ParseAll(Lines(text[pos..]));
        out := out + [ParseLine(line)];
        pos, eof := next, atEnd;
      }
    }
  }

  /** What the loaded table holds: the old entries, then exactly one entry
      per line of the file (newlines plus one), entry k being line k parsed. */
  lemma LoadedEntries(labels: seq<Label>, text: string)
    ensures
      var out := labels + ParseAll(Lines(text));
      out[..|labels|] == labels &&
      |out| == |labels| + NewlineCount(text) + 1 &&
      forall k :: 0 <= k < |Lines(text)| ==> out[|labels| + k] == ParseLine(Lines(text)[k])
  {
    LinesShape(text);
  }

  /** Start-up loading (source/main.cpp:90-95): an empty vector after
      `getLabelsFromFile` is fatal. Since an opened file always yields at
      least one entry, the failure happens exactly when the file cannot be
      opened; an empty or blank file is accepted. */
  method LoadLabelTable(file: Option<string>) returns (table: Option<seq<Label>>)
    ensures table.None? <==> file.None?
    ensures table.Some? ==> table.value == ParseAll(Lines(file.value)) && |table.value| >= 1
  {
    var labels := GetLabelsFromFile([], file);
    if labels == [] {
      return None;
    }
    table := Some(labels);
  }
}
