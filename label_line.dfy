/** One line of the label file and the `Label` it yields
    (source/main.cpp, `struct Label` and the body of the loop in
    `getLabelsFromFile`). */
module LabelLine {
  import opened Wrappers
  import opened LineStream
  import Decimal

  /** `cv::Vec3b`: three bytes; the default value is all zero. */
  datatype Color = Color(c0: Byte, c1: Byte, c2: Byte)

  const Black := Color(0, 0, 0)

  /** `struct Label { std::string name; cv::Vec3b color; }` */
  datatype Label = Label(name: string, color: Color)

  /** The line as the source reads it: a fresh `Label` (empty name, zero
      color), then `stream >> label.name` and `stream >> label.color[i]` for
      i = 0, 1, 2, where each `color[i]` is an `unsigned char`. */
  function ParseLine(line: string): Label {
    var (s1, name) := ExtractWord(Open(line), "");
    var (s2, b0) := ExtractChar(s1, 0);
    var (s3, b1) := ExtractChar(s2, 0);
    var (_, b2) := ExtractChar(s3, 0);
    Label(name, Color(b0, b1, b2))
  }

  /** Component `i` when the components are the characters of `cs`, zero
      where `cs` has run out. */
  function ComponentOr0(cs: string, i: nat): Byte {
    if i < |cs| then UChar(cs[i] as int) else 0
  }

  /** What `ParseLine` yields, said without streams: the name is the first
      whitespace-delimited word (empty for a blank line), and the three color
      components are the first three non-whitespace characters after it,
      each taken as one byte, with zero for those the line does not have. */
  lemma ParseLineSpec(line: string)
    ensures ParseLine(line).name == FirstWord(line)
    ensures ParseLine(line).color ==
      var rest := NonSpace(AfterFirstWord(line));
      Color(ComponentOr0(rest, 0), ComponentOr0(rest, 1), ComponentOr0(rest, 2))
  {
    assert line[0..] == line;
  }

  /** The name of a parsed label contains no whitespace, and is empty exactly
      when the line is blank. */
  lemma {:induction false} NameIsWord(line: string)
    ensures forall i :: 0 <= i < |ParseLine(line).name| ==> !IsSpace(ParseLine(line).name[i])
    ensures ParseLine(line).name == [] <==> NonSpace(line) == []
  {
    ParseLineSpec(line);
    FirstWordProperties(line);
  }

  lemma {:induction false} FirstWordProperties(s: string)
    ensures forall i :: 0 <= i < |FirstWord(s)| ==> !IsSpace(FirstWord(s)[i])
    ensures FirstWord(s) == [] <==> NonSpace(s) == []
    decreases |s|
  {
    if s != [] {
      FirstWordProperties(s[1..]);
      if !IsSpace(s[0]) {
        TakeWordNoSpace(s);
      }
    }
  }

  lemma {:induction false} TakeWordNoSpace(s: string)
    ensures forall i :: 0 <= i < |TakeWord(s)| ==> !IsSpace(TakeWord(s)[i])
    ensures s != [] && !IsSpace(s[0]) ==> TakeWord(s) != []
    decreases |s|
  {
    if s != [] && !IsSpace(s[0]) {
      TakeWordNoSpace(s[1..]);
    }
  }

  /** A line "<name> 128 0 0" yields the color ('1', '2', '8') = (49, 50, 56),
      not (128, 0, 0): each component takes one character. */
  lemma ParseLineReadsCharacters(name: string)
    requires IsWord(name)
    ensures ParseLine(name + " 128 0 0") == Label(name, Color(49, 50, 56))
  {
    var line := name + " 128 0 0";
    var s1 := ExtractNameAt(line, name, " 128 0 0");
    ReadsOneTwoEight(line, |name|);
  }

  lemma ReadsOneTwoEight(line: string, n: nat)
    requires n + 3 < |line| && line[n] == ' ' && line[n + 1] == '1' && line[n + 2] == '2' && line[n + 3] == '8'
    ensures
      var (s2, b0) := ExtractChar(Stream(line, n, true), 0);
      var (s3, b1) := ExtractChar(s2, 0);
      var (_, b2) := ExtractChar(s3, 0);
      Color(b0, b1, b2) == Color(49, 50, 56)
  {
    assert SkipSpace(line, n) == n + 1;
    assert SkipSpace(line, n + 2) == n + 2;
    assert SkipSpace(line, n + 3) == n + 3;
  }

  // ----- The evidently intended reading: decimal components -----

  /** The line read with each color component as a decimal number in
      0..255, as the label file format ("name r g b") intends. */
  function ParseLineDecimal(line: string): Label {
    var (s1, name) := ExtractWord(Open(line), "");
    var (s2, b0) := ExtractDecimalByte(s1, 0);
    var (s3, b1) := ExtractDecimalByte(s2, 0);
    var (_, b2) := ExtractDecimalByte(s3, 0);
    Label(name, Color(b0, b1, b2))
  }

  /** The line of the label file that describes `l`. */
  function FormatLine(l: Label): string {
    l.name + " " + Decimal.ToDecimal(l.color.c0) + " " + Decimal.ToDecimal(l.color.c1) +
    " " + Decimal.ToDecimal(l.color.c2)
  }

  predicate IsWord(name: string) {
    name != [] && forall i :: 0 <= i < |name| ==> !IsSpace(name[i])
  }

  /** Reading the line written for a label whose name is one word gives the
      label back. */
  lemma ParseLineDecimalRoundTrip(l: Label)
    requires IsWord(l.name)
    ensures ParseLineDecimal(FormatLine(l)) == l
  {
    var d0, d1, d2 := Decimal.ToDecimal(l.color.c0), Decimal.ToDecimal(l.color.c1), Decimal.ToDecimal(l.color.c2);
    var r2 := " " + d2;
    var r1 := " " + d1 + r2;
    var text := FormatLine(l);
    assert text == l.name + (" " + d0 + r1);
    var s1 := ExtractNameAt(text, l.name, " " + d0 + r1);
    var s2 := ExtractDecimalAt(s1, l.color.c0, r1);
    var s3 := ExtractDecimalAt(s2, l.color.c1, r2);
    assert r2 == " " + d2 + [];
    var s4 := ExtractDecimalAt(s3, l.color.c2, []);
    assert ExtractDecimalByte(s1, 0) == (s2, l.color.c0);
    assert ExtractDecimalByte(s2, 0) == (s3, l.color.c1);
    assert ExtractDecimalByte(s3, 0) == (s4, l.color.c2);
  }

  /** Extraction of the name from a line that starts with it, followed by a space. */
  lemma ExtractNameAt(line: string, name: string, rest: string) returns (s': Stream)
    requires line == name + rest && IsWord(name) && rest != [] && rest[0] == ' '
    ensures s'.Valid() && s'.text == line && s'.good
    ensures s'.text[s'.pos..] == rest
    ensures ExtractWord(Open(line), "") == (s', name)
  {
    SliceOfConcat(name, rest);
    WordEndAt(line, 0, |name|);
    WordEndWords(line, 0);
    assert line[0..] == line;
    s' := Stream(line, |name|, true);
  }

  lemma SliceOfConcat(x: string, y: string)
    ensures (x + y)[..|x|] == x && (x + y)[|x|..] == y
    ensures forall k :: 0 <= k < |y| ==> (x + y)[|x| + k] == y[k]
  {
  }

  lemma {:induction false} WordEndAt(text: string, i: nat, j: nat)
    requires i <= j <= |text|
    requires forall k :: i <= k < j ==> !IsSpace(text[k])
    requires j < |text| ==> IsSpace(text[j])
    ensures WordEnd(text, i) == j
    decreases j - i
  {
    if i < j {
      WordEndAt(text, i + 1, j);
    }
  }

  lemma {:induction false} DigitEndAt(text: string, i: nat, j: nat)
    requires i <= j <= |text|
    requires Decimal.AllDigits(text[i..j])
    requires j < |text| ==> !Decimal.IsDigit(text[j])
    ensures DigitEnd(text, i) == j
    decreases j - i
  {
    if i < j {
      assert text[i] == text[i..j][0];
      assert text[i + 1..j] == text[i..j][1..];
      DigitEndAt(text, i + 1, j);
    }
  }

  /** Extraction of a decimal byte from " <numeral of v>" followed by the end
      of the text or a space. */
  lemma ExtractDecimalAt(s: Stream, v: Byte, rest: string) returns (s': Stream)
    requires s.Valid() && s.good
    requires s.text[s.pos..] == " " + Decimal.ToDecimal(v) + rest
    requires rest == [] || rest[0] == ' '
    ensures s'.Valid() && s'.text == s.text && s'.good == (rest != [])
    ensures s'.text[s'.pos..] == rest
    ensures forall t :: ExtractDecimalByte(s, t) == (s', v)
  {
    var d := Decimal.ToDecimal(v);
    var p, q := s.pos + 1, s.pos + 1 + |d|;
    assert s.text[s.pos] == ' ' && s.text[p] == d[0];
    assert s.text[p..q] == d;
    assert s.text[q..] == rest;
    s' := Stream(s.text, q, q < |s.text|);
    assert SkipSpace(s.text, s.pos) == p;
    DigitEndAt(s.text, p, q);
    Decimal.ValueOfToDecimal(v);
  }
}
